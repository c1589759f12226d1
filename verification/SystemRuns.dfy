/**
 * Runs of the whole memory: all address spaces, and the frames the kernel holds itself.
 *
 * A frame that no address space holds is held for an owner: the kernel space, a kernel
 * stack, or the page table a process leaves behind when it ends.
 */
module SystemRuns {
  import opened Basics
  import opened PhysMemory
  import opened Sv39
  import opened AddressSpace
  import opened SpaceRuns
  import opened ForkSpace
  import opened Spaces

  datatype Owner = KernelSpace(n: nat) | Stack(h: nat) | Husk(h: nat)

  /** What an owner keeps in memory; nobody looks at the tables of an ended process. */
  datatype Keeps = Pages(pages: seq<Page>) | Tables

  /** All there is to know: the spaces as independent values, and what the owners keep. */
  datatype World = World(images: map<nat, Image>, kept: map<Owner, Keeps>)

  type Holding = map<Owner, seq<nat>>

  ghost function AllHeld(held: Holding): set<nat> {
    set o, p | o in held && p in held[o] :: p
  }

  /** No frame is held twice. */
  ghost predicate HeldOnce(held: Holding) {
    && (forall o :: o in held ==> NoDup(held[o]) && (o.Husk? ==> held[o] != []))
    && forall a, b :: a in held && b in held && a != b ==> ElemsOf(held[a]) !! ElemsOf(held[b])
  }

  ghost function PagesAt(frames: seq<nat>, pages: seq<Page>): (r: seq<Page>)
    ensures |r| == |frames|
    ensures forall i :: 0 <= i < |frames| && frames[i] < |pages| ==> r[i] == pages[frames[i]]
  {
    seq(|frames|, (i: nat) requires i < |frames| => if frames[i] < |pages| then pages[frames[i]] else ZeroPage())
  }

  ghost function KeepsOf(o: Owner, frames: seq<nat>, pages: seq<Page>): Keeps {
    if o.Husk? then Tables else Pages(PagesAt(frames, pages))
  }

  ghost function KeptOf(held: Holding, pages: seq<Page>): (r: map<Owner, Keeps>)
    ensures r.Keys == held.Keys
    ensures forall o :: o in held ==> r[o] == KeepsOf(o, held[o], pages)
  {
    map o | o in held :: KeepsOf(o, held[o], pages)
  }

  ghost function WorldOf(spaces: map<nat, MemorySet>, held: Holding, pages: seq<Page>): World
    reads spaces.Values
  {
    World(Images(spaces, pages), KeptOf(held, pages))
  }

  /** Every live frame is held exactly once: by one space or for one owner. */
  ghost predicate Whole(spaces: map<nat, MemorySet>, held: Holding, mem: PhysMem)
    reads mem, spaces.Values, set s | s in spaces.Values :: s.pt
  {
    System(spaces, AllHeld(held), mem) && HeldOnce(held)
  }

  // ---- Owners ----

  lemma HeldIn(held: Holding, o: Owner)
    requires o in held
    ensures ElemsOf(held[o]) <= AllHeld(held)
  {
  }

  lemma HeldAdd(held: Holding, o: Owner, frames: seq<nat>)
    requires HeldOnce(held) && o !in held && NoDup(frames) && ElemsOf(frames) !! AllHeld(held)
    requires o.Husk? ==> frames != []
    ensures HeldOnce(held[o := frames]) && AllHeld(held[o := frames]) == AllHeld(held) + ElemsOf(frames)
  {
    var r := held[o := frames];
    forall p | p in AllHeld(held) + ElemsOf(frames) ensures p in AllHeld(r) {
      if p in frames {
        assert p in r[o];
      } else {
        var a :| a in held && p in held[a];
        assert p in r[a];
      }
    }
    forall a | a in held ensures ElemsOf(held[a]) !! ElemsOf(frames) {
      HeldIn(held, a);
    }
  }

  lemma HeldRemove(held: Holding, o: Owner)
    requires HeldOnce(held) && o in held
    ensures HeldOnce(held - {o}) && AllHeld(held - {o}) == AllHeld(held) - ElemsOf(held[o])
  {
    var r := held - {o};
    forall p | p in AllHeld(held) - ElemsOf(held[o]) ensures p in AllHeld(r) {
      var a :| a in held && p in held[a];
      assert p in r[a];
    }
    forall p | p in AllHeld(r) ensures p in AllHeld(held) && p !in held[o] {
      var a :| a in r && p in r[a];
      assert p in ElemsOf(held[a]);
      assert ElemsOf(held[a]) !! ElemsOf(held[o]);
    }
  }

  /** What owners keep depends on the frames held for them. */
  lemma StillKept(held: Holding, pages0: seq<Page>, pages: seq<Page>)
    requires Kept(AllHeld(held), pages0, pages)
    ensures KeptOf(held, pages) == KeptOf(held, pages0)
  {
    hide KeptOf;
    forall o | o in held ensures KeepsOf(o, held[o], pages) == KeepsOf(o, held[o], pages0) {
      HeldIn(held, o);
      assert forall i :: 0 <= i < |held[o]| ==> held[o][i] in ElemsOf(held[o]);
      assert PagesAt(held[o], pages) == PagesAt(held[o], pages0);
    }
  }

  lemma KeptAdd(held: Holding, o: Owner, frames: seq<nat>, pages: seq<Page>)
    ensures KeptOf(held[o := frames], pages) == KeptOf(held, pages)[o := KeepsOf(o, frames, pages)]
  {
  }

  lemma KeptRemove(held: Holding, o: Owner, pages: seq<Page>)
    ensures KeptOf(held - {o}, pages) == KeptOf(held, pages) - {o}
  {
  }

  /** Writing to a frame changes what its owner keeps there, and nothing else. */
  lemma KeptWrite(held: Holding, o: Owner, i: nat, page: Page, pages: seq<Page>)
    requires HeldOnce(held) && o in held && !o.Husk? && i < |held[o]| && held[o][i] < |pages|
    ensures KeptOf(held, pages[held[o][i] := page])
         == KeptOf(held, pages)[o := Pages(PagesAt(held[o], pages)[i := page])]
  {
    hide KeptOf;
    var p := held[o][i];
    var after := pages[p := page];
    assert p in ElemsOf(held[o]);
    assert PagesAt(held[o], after) == PagesAt(held[o], pages)[i := page];
    forall a | a in held && a != o ensures KeepsOf(a, held[a], after) == KeepsOf(a, held[a], pages) {
      assert ElemsOf(held[a]) !! ElemsOf(held[o]);
      forall j | 0 <= j < |held[a]| ensures held[a][j] != p {
        assert held[a][j] in ElemsOf(held[a]);
      }
      assert PagesAt(held[a], after) == PagesAt(held[a], pages);
    }
  }

  // ---- Steps ----

  datatype SystemOp =
    | NewSpace(k: nat)
    | ChangeSpace(k: nat, op: SpaceOp)
    | StorePage(k: nat, v: nat, page: Page)
    | CopySpace(k: nat, child: nat)
    | DropSpaceOf(k: nat)
    | ReplaceSpace(k: nat, t: nat)
    | ExitSpace(k: nat)
    | KernelTake(o: Owner, n: nat)
    | KernelStore(o: Owner, i: nat, page: Page)
    | KernelGive(o: Owner)

  ghost predicate Possible(w: World, op: SystemOp) {
    match op
    case NewSpace(k) => k !in w.images
    case ChangeSpace(k, o) => k in w.images && Enabled(w.images[k].regions, o)
    case StorePage(k, v, _) => k in w.images && v in w.images[k].bytes
    case CopySpace(k, child) => k in w.images && child !in w.images
    case DropSpaceOf(k) => k in w.images
    case ReplaceSpace(k, t) => k in w.images && t in w.images && k != t
    case ExitSpace(k) => k in w.images && Husk(k) !in w.kept
    case KernelTake(o, _) => o !in w.kept && !o.Husk?
    case KernelStore(o, i, _) => o in w.kept && w.kept[o].Pages? && i < |w.kept[o].pages|
    case KernelGive(o) => o in w.kept
  }

  ghost function Effect(w: World, op: SystemOp): World
    requires Possible(w, op)
  {
    match op
    case NewSpace(k) => w.(images := w.images[k := Image([], map[])])
    case ChangeSpace(k, o) => w.(images := w.images[k := ApplyImage(w.images[k], o)])
    case StorePage(k, v, page) => w.(images := w.images[k := StoreImage(w.images[k], v, page)])
    case CopySpace(k, child) => w.(images := w.images[child := w.images[k]])
    case DropSpaceOf(k) => w.(images := w.images - {k})
    case ReplaceSpace(k, t) => w.(images := (w.images - {t})[k := w.images[t]])
    case ExitSpace(k) => World(w.images - {k}, w.kept[Husk(k) := Tables])
    case KernelTake(o, n) => w.(kept := w.kept[o := Pages(seq(n, i => ZeroPage()))])
    case KernelStore(o, i, page) => w.(kept := w.kept[o := Pages(w.kept[o].pages[i := page])])
    case KernelGive(o) => w.(kept := w.kept - {o})
  }

  /** A step concerns the spaces and the owner it names, and no other. */
  lemma EffectElsewhere(w: World, op: SystemOp, h: nat, o: Owner)
    requires Possible(w, op)
    requires !op.KernelTake? && !op.KernelStore? && !op.KernelGive? ==> h != op.k
    requires (op.CopySpace? ==> h != op.child) && (op.ReplaceSpace? ==> h != op.t)
    requires op.KernelTake? || op.KernelStore? || op.KernelGive? ==> o != op.o
    requires op.ExitSpace? ==> o != Husk(op.k)
    ensures var r := Effect(w, op);
            && (h in r.images <==> h in w.images) && (h in w.images ==> r.images[h] == w.images[h])
            && (o in r.kept <==> o in w.kept) && (o in w.kept ==> r.kept[o] == w.kept[o])
  {
  }

  /** What a step makes of the spaces and of the owner it names. */
  lemma EffectThere(w: World, op: SystemOp)
    requires Possible(w, op)
    ensures var r := Effect(w, op);
            && (op.NewSpace? ==> op.k in r.images && r.images[op.k].regions == [] && r.images[op.k].bytes == map[])
            && (op.CopySpace? ==> op.child in r.images && r.images[op.child] == w.images[op.k] && op.k in r.images)
            && (op.DropSpaceOf? || op.ExitSpace? ==> op.k !in r.images)
            && (op.ReplaceSpace? ==> op.t !in r.images && op.k in r.images && r.images[op.k] == w.images[op.t])
            && (op.StorePage? ==> op.k in r.images && r.images[op.k].regions == w.images[op.k].regions
                                  && r.images[op.k].bytes == w.images[op.k].bytes[op.v := op.page])
            && (op.KernelTake? ==> op.o in r.kept && r.kept[op.o].Pages? && |r.kept[op.o].pages| == op.n
                                   && forall i :: 0 <= i < op.n ==> r.kept[op.o].pages[i] == ZeroPage())
            && (op.KernelStore? ==> op.o in r.kept && r.kept[op.o] == Pages(w.kept[op.o].pages[op.i := op.page]))
            && (op.KernelGive? ==> op.o !in r.kept)
  {
    hide ZeroPage;
  }

  /** Frames a step takes at most; negative when it gives some back. */
  ghost function StepCost(w: World, op: SystemOp): int
    requires Possible(w, op)
  {
    match op
    case NewSpace(_) => 3
    case ChangeSpace(k, o) => Cost(w.images[k].regions, o)
    case StorePage(_, _, _) => 0
    case CopySpace(k, _) => 3 + 3 * PagesOf(w.images[k].regions)
    case DropSpaceOf(k) => -1 - PagesOf(w.images[k].regions)
    case ReplaceSpace(k, _) => -1 - PagesOf(w.images[k].regions)
    case ExitSpace(k) => -PagesOf(w.images[k].regions)
    case KernelTake(_, n) => n
    case KernelStore(_, _, _) => 0
    case KernelGive(o) => if w.kept[o].Pages? then -|w.kept[o].pages| else -1
  }

  ghost predicate RunPossible(w: World, ops: seq<SystemOp>)
    decreases |ops|
  {
    ops == [] || (Possible(w, ops[0]) && RunPossible(Effect(w, ops[0]), ops[1..]))
  }

  ghost function RunEffect(w: World, ops: seq<SystemOp>): World
    requires RunPossible(w, ops)
    decreases |ops|
  {
    if ops == [] then w else RunEffect(Effect(w, ops[0]), ops[1..])
  }

  lemma {:induction false} RunConcat(w: World, a: seq<SystemOp>, b: seq<SystemOp>)
    requires RunPossible(w, a) && RunPossible(RunEffect(w, a), b)
    ensures RunPossible(w, a + b) && RunEffect(w, a + b) == RunEffect(RunEffect(w, a), b)
    decreases |a|
  {
    hide Possible, Effect;
    if a == [] {
      assert a + b == b;
    } else {
      RunConcat(Effect(w, a[0]), a[1..], b);
      assert (a + b)[1..] == a[1..] + b;
    }
  }

  /** Free frames that are enough for a whole run. */
  ghost function SystemNeeded(w: World, ops: seq<SystemOp>): (n: int)
    requires RunPossible(w, ops)
    ensures n >= 0
    decreases |ops|
  {
    if ops == [] then 0
    else
      var n := StepCost(w, ops[0]) + SystemNeeded(Effect(w, ops[0]), ops[1..]);
      if n < 0 then 0 else n
  }

  /** Frames a whole run takes at most, less what it gives back. */
  ghost function TotalCost(w: World, ops: seq<SystemOp>): int
    requires RunPossible(w, ops)
    decreases |ops|
  {
    if ops == [] then 0 else StepCost(w, ops[0]) + TotalCost(Effect(w, ops[0]), ops[1..])
  }

  /** Everything a step may change, beside memory itself. */
  ghost function Objects(spaces: map<nat, MemorySet>): set<object> {
    (set s | s in spaces.Values :: s as object) + (set s | s in spaces.Values :: s.pt as object)
  }

  lemma ObjectsOfOne(spaces: map<nat, MemorySet>, k: nat)
    requires k in spaces
    ensures spaces[k] in Objects(spaces) && spaces[k].pt in Objects(spaces)
  {
    assert spaces[k] in spaces.Values;
  }

  lemma ObjectsAdd(spaces: map<nat, MemorySet>, k: nat, ms: MemorySet)
    ensures Objects(spaces[k := ms]) <= Objects(spaces) + {ms, ms.pt}
  {
  }

  lemma ObjectsRemove(spaces: map<nat, MemorySet>, k: nat)
    ensures Objects(spaces - {k}) <= Objects(spaces)
  {
  }

  lemma ObjectsReplace(spaces: map<nat, MemorySet>, k: nat, t: nat)
    requires t in spaces
    ensures Objects((spaces - {t})[k := spaces[t]]) <= Objects(spaces)
  {
    ObjectsOfOne(spaces, t);
    ObjectsRemove(spaces, t);
    ObjectsAdd(spaces - {t}, k, spaces[t]);
  }

  lemma PagesHeld(ms: MemorySet, mem: PhysMem)
    requires ms.Valid(mem)
    ensures PagesOf(RegionsOf(ms.areas)) >= 0 && ms.pt.frames != []
  {
    hide MemorySet.Valid, PagesOf, RegionsOf;
    FramesAccounted(ms, mem);
    RootHeld(ms, mem);
  }

  lemma SpacePages(spaces: map<nat, MemorySet>, others: set<nat>, mem: PhysMem, k: nat)
    requires System(spaces, others, mem) && k in spaces
    ensures Images(spaces, mem.pages)[k].regions == RegionsOf(spaces[k].areas)
    ensures PagesOf(RegionsOf(spaces[k].areas)) >= 0 && spaces[k].pt.frames != []
    ensures forall v :: v in Images(spaces, mem.pages)[k].bytes ==> v in spaces[k].own
  {
    hide MemorySet.Valid, PagesOf, RegionsOf, Separate, Prints;
    PagesHeld(spaces[k], mem);
  }

  /** A step on the spaces: what is held elsewhere stays as it is. */
  ghost predicate OnSpaces(op: SystemOp) {
    op.NewSpace? || op.ChangeSpace? || op.StorePage? || op.CopySpace? || op.DropSpaceOf? || op.ReplaceSpace?
  }

  method DoSpaces(spaces: map<nat, MemorySet>, op: SystemOp, ghost w: World, ghost others: set<nat>, trampoline: nat,
                  mem: PhysMem)
    returns (ok: bool, after: map<nat, MemorySet>)
    requires System(spaces, others, mem) && trampoline < PPN_LIMIT && OnSpaces(op)
    requires w.images == Images(spaces, mem.pages) && Possible(w, op)
    modifies mem, Objects(spaces)
    ensures old(mem.Free()) >= StepCost(w, op) ==> ok
    ensures ok ==>
              && System(after, others, mem) && Kept(others, old(mem.pages), mem.pages)
              && Images(after, mem.pages) == Effect(w, op).images
              && mem.Free() >= old(mem.Free()) - StepCost(w, op)
    ensures fresh(Objects(after) - Objects(spaces))
  {
    hide System, Images, PhysMem.Free, Enabled, ApplyImage, StoreImage, ImageOf, PagesOf, RegionsOf, Cost;
    ok, after := true, spaces;
    match op
    case NewSpace(k) =>
      if mem.Free() <= 0 {
        return false, spaces;
      }
      var ms;
      ok, ms := Create(spaces, k, others, trampoline, mem);
      ObjectsAdd(spaces, k, ms);
      after := spaces[k := ms];
    case ChangeSpace(k, o) =>
      SpacePages(spaces, others, mem, k);
      ObjectsOfOne(spaces, k);
      ok := Change(spaces, k, o, others, mem);
    case StorePage(k, v, page) =>
      SpacePages(spaces, others, mem, k);
      Store(spaces, k, v, page, others, mem);
    case CopySpace(_, _) => ok, after := DoMore(spaces, op, w, others, trampoline, mem);
    case DropSpaceOf(_) => ok, after := DoMore(spaces, op, w, others, trampoline, mem);
    case ReplaceSpace(_, _) => ok, after := DoMore(spaces, op, w, others, trampoline, mem);
  }

  method DoMore(spaces: map<nat, MemorySet>, op: SystemOp, ghost w: World, ghost others: set<nat>, trampoline: nat,
                mem: PhysMem)
    returns (ok: bool, after: map<nat, MemorySet>)
    requires System(spaces, others, mem) && trampoline < PPN_LIMIT
    requires op.CopySpace? || op.DropSpaceOf? || op.ReplaceSpace?
    requires w.images == Images(spaces, mem.pages) && Possible(w, op)
    modifies mem
    ensures old(mem.Free()) >= StepCost(w, op) ==> ok
    ensures ok ==>
              && System(after, others, mem) && Kept(others, old(mem.pages), mem.pages)
              && Images(after, mem.pages) == Effect(w, op).images
              && mem.Free() >= old(mem.Free()) - StepCost(w, op)
    ensures fresh(Objects(after) - Objects(spaces))
  {
    hide System, Images, PhysMem.Free, ImageOf, Objects, PagesOf, RegionsOf;
    ok, after := true, spaces;
    match op
    case CopySpace(k, c) =>
      SpacePages(spaces, others, mem, k);
      if mem.Free() <= 0 {
        return false, spaces;
      }
      var child;
      ok, child := Fork(spaces, k, c, others, trampoline, mem);
      if ok {
        ObjectsAdd(spaces, c, child);
        after := spaces[c := child];
      }
    case DropSpaceOf(k) =>
      SpacePages(spaces, others, mem, k);
      Drop(spaces, k, others, mem);
      ObjectsRemove(spaces, k);
      after := spaces - {k};
    case ReplaceSpace(k, t) =>
      SpacePages(spaces, others, mem, k);
      ObjectsReplace(spaces, k, t);
      after := Replace(spaces, k, t, others, mem);
  }

  method DoKernel(spaces: map<nat, MemorySet>, held: Holding, op: SystemOp, mem: PhysMem)
    returns (ok: bool, after: map<nat, MemorySet>, heldAfter: Holding)
    requires Whole(spaces, held, mem) && !OnSpaces(op) && Possible(WorldOf(spaces, held, mem.pages), op)
    modifies mem
    ensures old(mem.Free()) >= StepCost(WorldOf(spaces, held, old(mem.pages)), op) ==> ok
    ensures ok ==>
              && Whole(after, heldAfter, mem)
              && WorldOf(after, heldAfter, mem.pages) == Effect(WorldOf(spaces, held, old(mem.pages)), op)
              && mem.Free() >= old(mem.Free()) - StepCost(WorldOf(spaces, held, old(mem.pages)), op)
    ensures op.ExitSpace? ==>
              && ok && heldAfter == held[Husk(op.k) := spaces[op.k].pt.frames]
              && mem.Live() == old(mem.Live()) - spaces[op.k].own.Values
    ensures op.KernelGive? ==>
              && ok && after == spaces && heldAfter == held - {op.o}
              && mem.Live() == old(mem.Live()) - ElemsOf(held[op.o])
    ensures Objects(after) <= Objects(spaces)
  {
    hide System, Images, PhysMem.Free, ImageOf, Objects, PagesOf, RegionsOf, AllHeld, HeldOnce, KeptOf, PagesAt,
      ZeroPage;
    ok, after, heldAfter := true, spaces, held;
    ghost var others := AllHeld(held);
    match op
    case ExitSpace(k) =>
      SpacePages(spaces, others, mem, k);
      Recycle(spaces, k, others, mem);
      HeldAdd(held, Husk(k), spaces[k].pt.frames);
      KeptAdd(held, Husk(k), spaces[k].pt.frames, mem.pages);
      ObjectsRemove(spaces, k);
      after, heldAfter := spaces - {k}, held[Husk(k) := spaces[k].pt.frames];
    case KernelTake(o, n) =>
      var frames;
      ok, frames := Take(spaces, n, others, mem);
      if ok {
        HeldAdd(held, o, frames);
        StillKept(held, old(mem.pages), mem.pages);
        KeptAdd(held, o, frames, mem.pages);
        assert PagesAt(frames, mem.pages) == seq(n, i => ZeroPage());
        heldAfter := held[o := frames];
      }
    case KernelStore(o, i, page) =>
      HeldIn(held, o);
      assert held[o][i] in ElemsOf(held[o]);
      Write(spaces, held[o][i], page, others, mem);
      KeptWrite(held, o, i, page, old(mem.pages));
    case KernelGive(o) =>
      HeldIn(held, o);
      HeldNoDup(held, o);
      Give(spaces, held[o], others, mem);
      HeldRemove(held, o);
      KeptRemove(held, o, mem.pages);
      heldAfter := held - {o};
  }

  lemma HeldNoDup(held: Holding, o: Owner)
    requires HeldOnce(held) && o in held
    ensures NoDup(held[o]) && (o.Husk? ==> held[o] != [])
  {
  }

  method DoSystemOp(spaces: map<nat, MemorySet>, held: Holding, op: SystemOp, trampoline: nat, mem: PhysMem)
    returns (ok: bool, after: map<nat, MemorySet>, heldAfter: Holding)
    requires Whole(spaces, held, mem) && trampoline < PPN_LIMIT && Possible(WorldOf(spaces, held, mem.pages), op)
    modifies mem, Objects(spaces)
    ensures old(mem.Free()) >= StepCost(old(WorldOf(spaces, held, mem.pages)), op) ==> ok
    ensures ok ==>
              && Whole(after, heldAfter, mem)
              && WorldOf(after, heldAfter, mem.pages) == Effect(old(WorldOf(spaces, held, mem.pages)), op)
              && mem.Free() >= old(mem.Free()) - StepCost(old(WorldOf(spaces, held, mem.pages)), op)
    ensures fresh(Objects(after) - Objects(spaces))
  {
    hide Whole, WorldOf, System, Images, PhysMem.Free, Objects, AllHeld, HeldOnce, KeptOf, StepCost, Possible, Effect,
      Kept;
    ghost var w := WorldOf(spaces, held, mem.pages);
    WholeIs(spaces, held, mem);
    if op.ExitSpace? || op.KernelTake? || op.KernelStore? || op.KernelGive? {
      ok, after, heldAfter := DoKernel(spaces, held, op, mem);
    } else {
      ok, after := DoSpaces(spaces, op, w, AllHeld(held), trampoline, mem);
      heldAfter := held;
      if ok {
        FromSpaces(w, op, after, held, old(mem.pages), mem);
      }
    }
  }

  lemma WholeIs(spaces: map<nat, MemorySet>, held: Holding, mem: PhysMem)
    requires Whole(spaces, held, mem)
    ensures System(spaces, AllHeld(held), mem) && HeldOnce(held)
    ensures WorldOf(spaces, held, mem.pages) == World(Images(spaces, mem.pages), KeptOf(held, mem.pages))
  {
    hide System, HeldOnce, Images, KeptOf;
  }

  lemma FromSpaces(w: World, op: SystemOp, after: map<nat, MemorySet>, held: Holding, pages0: seq<Page>, mem: PhysMem)
    requires Possible(w, op) && OnSpaces(op) && w.kept == KeptOf(held, pages0) && HeldOnce(held)
    requires System(after, AllHeld(held), mem) && Kept(AllHeld(held), pages0, mem.pages)
    requires Images(after, mem.pages) == Effect(w, op).images
    ensures Whole(after, held, mem) && WorldOf(after, held, mem.pages) == Effect(w, op)
  {
    hide System, HeldOnce, Images, KeptOf, ApplyImage, StoreImage, AllHeld, Kept;
    StillKept(held, pages0, mem.pages);
  }

  /** Isolation and conservation over all runs: every space stays valid, every live frame
      is held once, by a space or for an owner, and each space and each owner finds what
      its own steps say, whatever the others do.  The run goes through if there is memory
      enough. */
  method RunSystem(start: map<nat, MemorySet>, heldStart: Holding, ops: seq<SystemOp>, trampoline: nat, mem: PhysMem)
    returns (ok: bool, spaces: map<nat, MemorySet>, held: Holding)
    requires Whole(start, heldStart, mem) && trampoline < PPN_LIMIT
    requires RunPossible(WorldOf(start, heldStart, mem.pages), ops)
    modifies mem, Objects(start)
    ensures old(mem.Free()) >= SystemNeeded(old(WorldOf(start, heldStart, mem.pages)), ops) ==> ok
    ensures ok ==>
              && Whole(spaces, held, mem)
              && WorldOf(spaces, held, mem.pages) == RunEffect(old(WorldOf(start, heldStart, mem.pages)), ops)
              && mem.Free() >= old(mem.Free()) - TotalCost(old(WorldOf(start, heldStart, mem.pages)), ops)
    ensures fresh(Objects(spaces) - Objects(start))
  {
    hide Whole, WorldOf, Possible, Effect, StepCost, PhysMem.Free;
    spaces, held := start, heldStart;
    ghost var w0 := WorldOf(start, heldStart, mem.pages);
    ghost var enough := mem.Free() >= SystemNeeded(w0, ops);
    assert ops[0..] == ops;
    for i := 0 to |ops|
      invariant Whole(spaces, held, mem) && RunPossible(WorldOf(spaces, held, mem.pages), ops[i..])
      invariant RunEffect(WorldOf(spaces, held, mem.pages), ops[i..]) == RunEffect(w0, ops)
      invariant enough ==> mem.Free() >= SystemNeeded(WorldOf(spaces, held, mem.pages), ops[i..])
      invariant mem.Free() - TotalCost(WorldOf(spaces, held, mem.pages), ops[i..])
             >= old(mem.Free()) - TotalCost(w0, ops)
      invariant fresh(Objects(spaces) - Objects(start))
    {
      assert ops[i..][0] == ops[i] && ops[i..][1..] == ops[i + 1..];
      var next;
      ok, next, held := DoSystemOp(spaces, held, ops[i], trampoline, mem);
      if !ok {
        return;
      }
      spaces := next;
    }
    assert ops[|ops|..] == [];
    ok := true;
  }

  // ---- Exit and collection, frame by frame ----

  lemma SingleCost(w: World, op: SystemOp)
    requires Possible(w, op)
    ensures RunPossible(w, [op]) && RunEffect(w, [op]) == Effect(w, op) && TotalCost(w, [op]) == StepCost(w, op)
  {
    hide Possible, Effect, StepCost;
    assert [op][1..] == [];
  }

  /** A process ends: exactly the frames of its pages become free, and those of its page
      table are held until it is collected. */
  method ExitOne(spaces: map<nat, MemorySet>, held: Holding, k: nat, mem: PhysMem)
    returns (after: map<nat, MemorySet>, heldAfter: Holding)
    requires Whole(spaces, held, mem) && Possible(WorldOf(spaces, held, mem.pages), ExitSpace(k))
    modifies mem
    ensures var w := WorldOf(spaces, held, old(mem.pages));
            && RunPossible(w, [ExitSpace(k)])
            && WorldOf(after, heldAfter, mem.pages) == RunEffect(w, [ExitSpace(k)])
            && mem.Free() >= old(mem.Free()) - TotalCost(w, [ExitSpace(k)])
    ensures Whole(after, heldAfter, mem) && heldAfter == held[Husk(k) := spaces[k].pt.frames]
    ensures mem.Live() == old(mem.Live()) - spaces[k].own.Values
    ensures Objects(after) <= Objects(spaces)
  {
    hide Whole, WorldOf, Possible, Effect, StepCost, RunPossible, RunEffect, TotalCost, PhysMem.Free, PhysMem.Live,
      Objects;
    SingleCost(WorldOf(spaces, held, mem.pages), ExitSpace(k));
    var ok;
    ok, after, heldAfter := DoKernel(spaces, held, ExitSpace(k), mem);
  }

  /** An ended process is collected: its exit code is stored, and exactly the frames of its
      kernel stack and of its page table become free. */
  method CollectOne(spaces: map<nat, MemorySet>, held: Holding, me: nat, v: nat, page: Page, c: nat, mem: PhysMem)
    returns (heldAfter: Holding)
    requires Whole(spaces, held, mem) && Stack(c) in held && Husk(c) in held
    requires Possible(WorldOf(spaces, held, mem.pages), StorePage(me, v, page))
    modifies mem
    ensures var w := WorldOf(spaces, held, old(mem.pages));
            var ops := [StorePage(me, v, page), KernelGive(Stack(c)), KernelGive(Husk(c))];
            && RunPossible(w, ops)
            && WorldOf(spaces, heldAfter, mem.pages) == RunEffect(w, ops)
            && mem.Free() >= old(mem.Free()) - TotalCost(w, ops)
    ensures Whole(spaces, heldAfter, mem) && heldAfter == held - {Stack(c)} - {Husk(c)}
    ensures mem.Live() == old(mem.Live()) - ElemsOf(held[Stack(c)]) - ElemsOf(held[Husk(c)])
  {
    hide Whole, StepCost, RunPossible, RunEffect, TotalCost, PhysMem.Free, PhysMem.Live, Possible, Effect, WorldOf,
      KeptOf, Objects, ElemsOf;
    ghost var w := WorldOf(spaces, held, mem.pages);
    StoreWhole(spaces, held, me, v, page, mem);
    CanGive(spaces, held, Stack(c), mem.pages);
    var ok, same, held1 := DoKernel(spaces, held, KernelGive(Stack(c)), mem);
    CanGive(spaces, held1, Husk(c), mem.pages);
    ok, same, heldAfter := DoKernel(spaces, held1, KernelGive(Husk(c)), mem);
    ThreeCost(w, StorePage(me, v, page), KernelGive(Stack(c)), KernelGive(Husk(c)));
    StoreIsFree(w, me, v, page);
  }

  lemma CanGive(spaces: map<nat, MemorySet>, held: Holding, o: Owner, pages: seq<Page>)
    requires o in held
    ensures Possible(WorldOf(spaces, held, pages), KernelGive(o))
  {
  }

  lemma StoreIsFree(w: World, me: nat, v: nat, page: Page)
    requires Possible(w, StorePage(me, v, page))
    ensures StepCost(w, StorePage(me, v, page)) == 0
  {
  }

  lemma ThreeCost(w: World, a: SystemOp, b: SystemOp, c: SystemOp)
    requires Possible(w, a) && Possible(Effect(w, a), b) && Possible(Effect(Effect(w, a), b), c)
    ensures RunPossible(w, [a, b, c]) && RunEffect(w, [a, b, c]) == Effect(Effect(Effect(w, a), b), c)
    ensures TotalCost(w, [a, b, c])
         == StepCost(w, a) + StepCost(Effect(w, a), b) + StepCost(Effect(Effect(w, a), b), c)
  {
    hide Possible, Effect, StepCost;
    SingleCost(Effect(Effect(w, a), b), c);
    assert [b, c][1..] == [c];
    assert RunPossible(Effect(w, a), [b, c]);
    assert [a, b, c][1..] == [b, c];
  }

  method StoreWhole(spaces: map<nat, MemorySet>, held: Holding, me: nat, v: nat, page: Page, mem: PhysMem)
    requires Whole(spaces, held, mem) && Possible(WorldOf(spaces, held, mem.pages), StorePage(me, v, page))
    modifies mem`pages
    ensures Whole(spaces, held, mem)
    ensures WorldOf(spaces, held, mem.pages) == Effect(WorldOf(spaces, held, old(mem.pages)), StorePage(me, v, page))
  {
    hide System, Images, StoreImage, ImageOf, AllHeld, HeldOnce, KeptOf, PagesOf, RegionsOf;
    SpacePages(spaces, AllHeld(held), mem, me);
    Store(spaces, me, v, page, AllHeld(held), mem);
    StillKept(held, old(mem.pages), mem.pages);
  }

  /** Before anything is allocated. */
  lemma NothingHeld(mem: PhysMem)
    requires mem.Valid() && mem.Live() == {} && |mem.pages| <= PPN_LIMIT
    ensures Whole(map[], map[], mem) && WorldOf(map[], map[], mem.pages) == World(map[], map[])
  {
    assert AllHeld(map[]) == {};
  }

  /** From start-up on. */
  method RunFromStart(memory: seq<Page>, l: nat, r: nat, ops: seq<SystemOp>, trampoline: nat)
    returns (ok: bool, spaces: map<nat, MemorySet>, held: Holding, mem: PhysMem)
    requires l <= r <= |memory| <= PPN_LIMIT && trampoline < PPN_LIMIT && RunPossible(World(map[], map[]), ops)
    ensures r - l >= SystemNeeded(World(map[], map[]), ops) ==> ok
    ensures ok ==>
              && Whole(spaces, held, mem)
              && WorldOf(spaces, held, mem.pages) == RunEffect(World(map[], map[]), ops)
              && mem.Free() >= r - l - TotalCost(World(map[], map[]), ops)
    ensures fresh(mem) && fresh(Objects(spaces))
  {
    hide Whole, WorldOf, RunPossible, RunEffect, SystemNeeded, TotalCost, PhysMem.Valid, PhysMem.Live, PhysMem.Free;
    mem := new PhysMem(memory, l, r);
    NothingHeld(mem);
    ok, spaces, held := RunSystem(map[], map[], ops, trampoline, mem);
  }
}
