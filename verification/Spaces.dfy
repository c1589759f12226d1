/**
 * Many address spaces in one memory.
 *
 * User spaces are created, changed, written to, copied by fork, replaced, emptied at exit
 * and dropped, and the kernel takes frames of its own.  `System` is separation: every space
 * is valid, no frame belongs to two of them, and a live frame is held by one of them or is
 * one of the `others`: those of the kernel space, of kernel stacks, and the page tables
 * of processes that have ended.  A run does to each space what it does to a value of its
 * own: a list of regions and the bytes of every page.
 */
module Spaces {
  import opened Basics
  import opened PhysMemory
  import opened Sv39
  import opened AddressSpace
  import opened SpaceRuns
  import opened ForkSpace

  /** What a process can observe of its memory. */
  datatype Image = Image(regions: seq<Region>, bytes: map<nat, Page>)

  ghost function ImageOf(ms: MemorySet, pages: seq<Page>): Image
    reads ms
  {
    Image(RegionsOf(ms.areas), BytesOf(ms.own, pages))
  }

  ghost function Images(spaces: map<nat, MemorySet>, pages: seq<Page>): (r: map<nat, Image>)
    reads spaces.Values
    ensures r.Keys == spaces.Keys
    ensures forall k :: k in spaces ==> r[k] == ImageOf(spaces[k], pages)
  {
    map k | k in spaces :: ImageOf(spaces[k], pages)
  }

  ghost function Prints(spaces: map<nat, MemorySet>): (r: map<nat, set<nat>>)
    reads spaces.Values, set s | s in spaces.Values :: s.pt
    ensures r.Keys == spaces.Keys
    ensures forall k :: k in spaces ==> r[k] == spaces[k].Footprint()
  {
    map k | k in spaces :: spaces[k].Footprint()
  }

  // ---- Separation ----

  ghost predicate InSomePrint(prints: map<nat, set<nat>>, q: nat) {
    exists k :: k in prints && q in prints[k]
  }

  /** The footprints and the frames held elsewhere are disjoint and are all that is live. */
  ghost predicate Separate(prints: map<nat, set<nat>>, others: set<nat>, live: set<nat>) {
    && (forall i, j :: i in prints && j in prints && i != j ==> prints[i] !! prints[j])
    && (forall i :: i in prints ==> prints[i] <= live && prints[i] !! others)
    && others <= live
    && (forall q :: q in live ==> q in others || InSomePrint(prints, q))
  }

  lemma SeparateReplace(prints: map<nat, set<nat>>, others: set<nat>, live0: set<nat>, k: nat, mine: set<nat>,
                        live: set<nat>)
    requires Separate(prints, others, live0) && k in prints && mine <= live && live - mine == live0 - prints[k]
    ensures Separate(prints[k := mine], others, live)
  {
    var r := prints[k := mine];
    forall j | j in prints && j != k ensures prints[j] <= live && prints[j] !! mine {
      assert prints[j] <= live0 - prints[k];
    }
    assert others <= live0 - prints[k];
    forall q | q in live && q !in others ensures InSomePrint(r, q) {
      if q in mine {
        assert q in r[k];
      } else {
        assert q in live - mine;
        var j :| j in prints && q in prints[j];
        assert q in r[j];
      }
    }
  }

  lemma SeparateAdd(prints: map<nat, set<nat>>, others: set<nat>, live0: set<nat>, k: nat, mine: set<nat>,
                    live: set<nat>)
    requires Separate(prints, others, live0) && k !in prints && mine !! live0 && live == live0 + mine
    ensures Separate(prints[k := mine], others, live)
  {
    var r := prints[k := mine];
    forall q | q in live && q !in others ensures InSomePrint(r, q) {
      if q in mine {
        assert q in r[k];
      } else {
        var j :| j in prints && q in prints[j];
        assert q in r[j];
      }
    }
  }

  lemma SeparateRemove(prints: map<nat, set<nat>>, others: set<nat>, live0: set<nat>, k: nat, live: set<nat>)
    requires Separate(prints, others, live0) && k in prints && live == live0 - prints[k]
    ensures Separate(prints - {k}, others, live)
  {
    var r := prints - {k};
    forall q | q in live && q !in others ensures InSomePrint(r, q) {
      var j :| j in prints && q in prints[j];
      assert q in r[j];
    }
  }

  /** Frames held elsewhere come and go. */
  lemma SeparateOthers(prints: map<nat, set<nat>>, others0: set<nat>, live0: set<nat>, others: set<nat>,
                       live: set<nat>)
    requires Separate(prints, others0, live0) && others <= live && live - others == live0 - others0
    ensures Separate(prints, others, live)
  {
    forall k | k in prints ensures prints[k] <= live - others {
      assert prints[k] <= live0 - others0;
    }
    forall q | q in live && q !in others ensures InSomePrint(prints, q) {
      assert q in live - others;
    }
  }

  /** No object is used twice. */
  ghost predicate Unshared(spaces: map<nat, MemorySet>) {
    forall i, j :: i in spaces && j in spaces && i != j ==> spaces[i] != spaces[j] && spaces[i].pt != spaces[j].pt
  }

  ghost predicate AllValid(spaces: map<nat, MemorySet>, mem: PhysMem)
    reads mem, spaces.Values, set s | s in spaces.Values :: s.pt
  {
    forall k :: k in spaces ==> spaces[k].Valid(mem)
  }

  ghost predicate System(spaces: map<nat, MemorySet>, others: set<nat>, mem: PhysMem)
    reads mem, spaces.Values, set s | s in spaces.Values :: s.pt
  {
    && mem.Valid() && |mem.pages| <= PPN_LIMIT
    && Unshared(spaces) && AllValid(spaces, mem)
    && Separate(Prints(spaces), others, mem.Live())
  }

  /** The frames `held` are as they were. */
  ghost predicate Kept(held: set<nat>, pages0: seq<Page>, pages: seq<Page>) {
    |pages| == |pages0| && forall q :: q in held && q < |pages0| ==> pages[q] == pages0[q]
  }

  ghost predicate AllValidAt(spaces: map<nat, MemorySet>, live0: set<nat>, pages0: seq<Page>)
    reads spaces.Values, set s | s in spaces.Values :: s.pt
  {
    forall k :: k in spaces ==> ValidAt(spaces[k], live0, pages0)
  }

  lemma AllValidNow(spaces: map<nat, MemorySet>, mem: PhysMem)
    requires AllValid(spaces, mem)
    ensures AllValidAt(spaces, mem.Live(), mem.pages)
  {
    hide ValidAt;
    forall k | k in spaces ensures ValidAt(spaces[k], mem.Live(), mem.pages) {
      ValidNow(spaces[k], mem);
    }
  }

  /** A space whose frames are still live and unwritten is as it was. */
  lemma Undisturbed(ms: MemorySet, live0: set<nat>, pages0: seq<Page>, mem: PhysMem)
    requires ValidAt(ms, live0, pages0) && mem.Valid() && |mem.pages| == |pages0|
    requires ms.Footprint() <= mem.Live()
    requires forall q :: q in ms.Footprint() && q < |pages0| ==> mem.pages[q] == pages0[q]
    ensures ms.Valid(mem) && ImageOf(ms, mem.pages) == ImageOf(ms, pages0)
  {
    hide Refines, AreasOk, PhysMem.Valid, PhysMem.Live;
    TablesInMemory(pages0, ms.pt.root, ElemsOf(ms.pt.frames), ms.pt.view);
    assert forall f :: f in ElemsOf(ms.pt.frames) ==> f in ms.Footprint();
    FrameLemma(pages0, mem.pages, ms.pt.root, ElemsOf(ms.pt.frames), ms.pt.view);
    forall v | v in ms.own ensures ms.own[v] in ms.Footprint() {
      assert ms.own[v] in ms.own.Values;
    }
    assert BytesOf(ms.own, mem.pages) == BytesOf(ms.own, pages0);
  }

  // ---- What one operation leaves behind ----

  /** Space `k` changed, the frames of all others are as they were. */
  lemma OneChanged(spaces: map<nat, MemorySet>, k: nat, others: set<nat>, live0: set<nat>, pages0: seq<Page>,
                   prints0: map<nat, set<nat>>, images0: map<nat, Image>, mem: PhysMem)
    requires k in spaces && Unshared(spaces) && Separate(prints0, others, live0)
    requires prints0.Keys == images0.Keys == spaces.Keys
    requires spaces[k].Valid(mem) && ForeignKept(live0, prints0[k], pages0, spaces[k], mem)
    requires forall j :: j in spaces && j != k ==>
               ValidAt(spaces[j], live0, pages0) && spaces[j].Footprint() == prints0[j]
               && ImageOf(spaces[j], pages0) == images0[j]
    ensures System(spaces, others, mem) && Kept(others, pages0, mem.pages)
    ensures Images(spaces, mem.pages) == images0[k := ImageOf(spaces[k], mem.pages)]
  {
    hide ValidAt, Separate, MemorySet.Valid, MemorySet.Footprint, ImageOf, PhysMem.Live, PhysMem.Valid, Prints, Images;
    MemoryOf(spaces[k], mem);
    PrintIsLive(spaces[k], mem);
    SeparateReplace(prints0, others, live0, k, spaces[k].Footprint(), mem.Live());
    assert Prints(spaces) == prints0[k := spaces[k].Footprint()];
    OthersElsewhere(prints0, others, live0, k);
    forall j | j in spaces && j != k
      ensures spaces[j].Valid(mem) && ImageOf(spaces[j], mem.pages) == images0[j]
    {
      OtherPrint(prints0, others, live0, k, j);
      Undisturbed(spaces[j], live0, pages0, mem);
    }
  }

  lemma PrintIsLive(ms: MemorySet, mem: PhysMem)
    requires ms.Valid(mem)
    ensures ms.Footprint() <= mem.Live()
  {
    hide Refines, AreasOk;
  }

  lemma OtherPrint(prints: map<nat, set<nat>>, others: set<nat>, live: set<nat>, k: nat, j: nat)
    requires Separate(prints, others, live) && k in prints && j in prints && k != j
    ensures prints[j] <= live - prints[k]
  {
    assert prints[k] !! prints[j];
  }

  lemma OthersElsewhere(prints: map<nat, set<nat>>, others: set<nat>, live: set<nat>, k: nat)
    requires Separate(prints, others, live) && k in prints
    ensures others <= live - prints[k]
  {
  }

  /** A space was added, on frames that were not live before. */
  lemma OneAdded(spaces: map<nat, MemorySet>, k: nat, ms: MemorySet, others: set<nat>, live0: set<nat>,
                 pages0: seq<Page>, mem: PhysMem)
    requires k !in spaces && Unshared(spaces[k := ms])
    requires Separate(Prints(spaces), others, live0) && AllValidAt(spaces, live0, pages0)
    requires ms.Valid(mem) && ms.Footprint() !! live0 && mem.Live() == live0 + ms.Footprint()
    requires Kept(live0, pages0, mem.pages)
    ensures System(spaces[k := ms], others, mem) && Kept(others, pages0, mem.pages)
    ensures Images(spaces[k := ms], mem.pages) == Images(spaces, pages0)[k := ImageOf(ms, mem.pages)]
  {
    hide ValidAt, MemorySet.Valid, MemorySet.Footprint, ImageOf, PhysMem.Live, PhysMem.Valid, Prints, Images;
    MemoryOf(ms, mem);
    SeparateAdd(Prints(spaces), others, live0, k, ms.Footprint(), mem.Live());
    var all := spaces[k := ms];
    assert Prints(all) == Prints(spaces)[k := ms.Footprint()];
    forall j | j in spaces ensures spaces[j].Valid(mem) && ImageOf(spaces[j], mem.pages) == ImageOf(spaces[j], pages0) {
      assert Prints(spaces)[j] <= live0;
      Undisturbed(spaces[j], live0, pages0, mem);
    }
  }

  /** Space `k` is gone: its frames are free, or held elsewhere. */
  lemma OneGone(spaces: map<nat, MemorySet>, k: nat, others0: set<nat>, live0: set<nat>, others: set<nat>,
                mem: PhysMem)
    requires k in spaces && Unshared(spaces) && Separate(Prints(spaces), others0, live0)
    requires AllValidAt(spaces, live0, mem.pages) && mem.Valid() && |mem.pages| <= PPN_LIMIT
    requires others0 <= others <= others0 + spaces[k].Footprint()
    requires mem.Live() == live0 - spaces[k].Footprint() + others
    ensures System(spaces - {k}, others, mem)
    ensures Images(spaces - {k}, mem.pages) == Images(spaces, mem.pages) - {k}
  {
    hide ValidAt, MemorySet.Valid, MemorySet.Footprint, ImageOf, PhysMem.Live, PhysMem.Valid, Separate, Prints, Images;
    var prints, mine := Prints(spaces), spaces[k].Footprint();
    OthersElsewhere(prints, others0, live0, k);
    SeparateRemove(prints, others0, live0, k, live0 - mine);
    SeparateOthers(prints - {k}, others0, live0 - mine, others, mem.Live());
    var rest := spaces - {k};
    assert Prints(rest) == prints - {k};
    forall j | j in rest ensures rest[j].Valid(mem) {
      OtherPrint(prints, others0, live0, k, j);
      Undisturbed(spaces[j], live0, mem.pages, mem);
    }
  }

  /** Frames held elsewhere were taken, given back or written: no space is disturbed. */
  lemma NoneChanged(spaces: map<nat, MemorySet>, others0: set<nat>, live0: set<nat>, pages0: seq<Page>,
                    others: set<nat>, mem: PhysMem)
    requires Unshared(spaces) && Separate(Prints(spaces), others0, live0) && AllValidAt(spaces, live0, pages0)
    requires mem.Valid() && |mem.pages| <= PPN_LIMIT
    requires others <= mem.Live() && mem.Live() - others == live0 - others0
    requires Kept(live0 - others0, pages0, mem.pages)
    ensures System(spaces, others, mem)
    ensures Images(spaces, mem.pages) == Images(spaces, pages0)
  {
    hide ValidAt, MemorySet.Valid, MemorySet.Footprint, ImageOf, PhysMem.Live, PhysMem.Valid, Prints, Images;
    SeparateOthers(Prints(spaces), others0, live0, others, mem.Live());
    forall j | j in spaces ensures spaces[j].Valid(mem) && ImageOf(spaces[j], mem.pages) == ImageOf(spaces[j], pages0) {
      assert Prints(spaces)[j] <= live0 - others0;
      assert live0 - others0 <= mem.Live();
      Undisturbed(spaces[j], live0, pages0, mem);
    }
  }

  // ---- Operations on one space ----

  /** `new_bare` and `map_trampoline`: a space on new frames that maps nothing else. */
  method Bare(trampoline: nat, mem: PhysMem) returns (ok: bool, ms: MemorySet)
    requires mem.Valid() && |mem.pages| <= PPN_LIMIT && trampoline < PPN_LIMIT && mem.Free() > 0
    modifies mem
    ensures fresh(ms) && fresh(ms.pt)
    ensures old(mem.Free()) >= 3 ==> ok
    ensures ok ==>
              && ms.Valid(mem) && ms.areas == [] && ms.own == map[]
              && ms.Footprint() !! old(mem.Live()) && mem.Live() == old(mem.Live()) + ms.Footprint()
              && Kept(old(mem.Live()), old(mem.pages), mem.pages)
              && mem.Free() >= old(mem.Free()) - 3
  {
    hide PhysMem.Live, PhysMem.Free, PhysMem.Valid, MemorySet.Valid, Since, Kept;
    ghost var live0, pages0 := mem.Live(), mem.pages;
    ms := new MemorySet(mem);
    ghost var live1, tables1, pages1 := mem.Live(), ElemsOf(ms.pt.frames), mem.pages;
    BarePrint(ms, live0, pages0, mem);
    ok := ms.MapTrampoline(trampoline, mem);
    if ok {
      PrintIsLive(ms, mem);
      AfterTrampoline(ms, live0, pages0, live1, tables1, pages1, mem);
    }
  }

  method Create(spaces: map<nat, MemorySet>, k: nat, ghost others: set<nat>, trampoline: nat, mem: PhysMem)
    returns (ok: bool, ms: MemorySet)
    requires System(spaces, others, mem) && k !in spaces && trampoline < PPN_LIMIT && mem.Free() > 0
    modifies mem
    ensures fresh(ms) && fresh(ms.pt)
    ensures old(mem.Free()) >= 3 ==> ok
    ensures ok ==>
              && System(spaces[k := ms], others, mem) && Kept(others, old(mem.pages), mem.pages)
              && Images(spaces[k := ms], mem.pages) == Images(spaces, old(mem.pages))[k := Image([], map[])]
              && mem.Free() >= old(mem.Free()) - 3
  {
    hide ValidAt, PhysMem.Live, PhysMem.Free, PhysMem.Valid, Separate, MemorySet.Valid, MemorySet.Footprint, Prints,
      Images, Kept;
    ghost var live0, pages0 := mem.Live(), mem.pages;
    AllValidNow(spaces, mem);
    ok, ms := Bare(trampoline, mem);
    if ok {
      OneAdded(spaces, k, ms, others, live0, pages0, mem);
      assert ImageOf(ms, mem.pages) == Image([], map[]);
    }
  }

  lemma BarePrint(ms: MemorySet, live0: set<nat>, pages0: seq<Page>, mem: PhysMem)
    requires ms.own == map[] && Since(live0, {}, pages0, ElemsOf(ms.pt.frames), mem)
    requires mem.Live() == live0 + ms.Footprint()
    ensures ms.Footprint() == ElemsOf(ms.pt.frames) && ms.Footprint() !! live0
    ensures |mem.pages| == |pages0| && forall q :: q in live0 && q < |pages0| ==> mem.pages[q] == pages0[q]
  {
    assert ms.own.Values == {};
  }

  lemma AfterTrampoline(ms: MemorySet, live0: set<nat>, pages0: seq<Page>, live1: set<nat>, tables1: set<nat>,
                        pages1: seq<Page>, mem: PhysMem)
    requires tables1 !! live0 && live1 == live0 + tables1 && |pages1| == |pages0|
    requires forall q :: q in live0 && q < |pages0| ==> pages1[q] == pages0[q]
    requires Since(live1, tables1, pages1, ElemsOf(ms.pt.frames), mem) && ms.own == map[]
    requires mem.Live() - ms.Footprint() == live1 - tables1 && ms.Footprint() <= mem.Live()
    ensures ms.Footprint() !! live0 && mem.Live() == live0 + ms.Footprint()
    ensures Kept(live0, pages0, mem.pages)
  {
    hide PhysMem.Live;
    assert ms.own.Values == {};
    assert live1 - tables1 == live0;
  }

  /** Areas of one space are inserted, extended, shrunk or removed. */
  method Change(spaces: map<nat, MemorySet>, k: nat, op: SpaceOp, ghost others: set<nat>, mem: PhysMem)
    returns (ok: bool)
    requires System(spaces, others, mem) && k in spaces && Enabled(RegionsOf(spaces[k].areas), op)
    modifies spaces[k], spaces[k].pt, mem
    ensures old(mem.Free()) >= Cost(RegionsOf(old(spaces[k].areas)), op) ==> ok
    ensures ok ==>
              && System(spaces, others, mem) && Kept(others, old(mem.pages), mem.pages)
              && Images(spaces, mem.pages)
                 == old(Images(spaces, mem.pages))[k := ApplyImage(old(ImageOf(spaces[k], mem.pages)), op)]
              && mem.Free() >= old(mem.Free()) - Cost(RegionsOf(old(spaces[k].areas)), op)
  {
    hide Refines, AreasOk, ValidAt, PhysMem.Live, PhysMem.Free, PhysMem.Valid, Separate, MemorySet.Valid,
      MemorySet.Footprint, ForeignKept, BytesOf, Enabled, SpaceRuns.Apply, ApplyBytes, Prints, Images, Cost, Kept;
    ghost var live0, pages0, prints0, images0 := mem.Live(), mem.pages, Prints(spaces), Images(spaces, mem.pages);
    AllValidNow(spaces, mem);
    ok := DoOp(spaces[k], op, mem);
    if ok {
      OneChanged(spaces, k, others, live0, pages0, prints0, images0, mem);
    }
  }

  ghost function ApplyImage(im: Image, op: SpaceOp): Image
    requires Enabled(im.regions, op)
  {
    Image(SpaceRuns.Apply(im.regions, op), ApplyBytes(im.bytes, im.regions, op))
  }

  /** A process overwrites one of its pages. */
  method Store(spaces: map<nat, MemorySet>, k: nat, v: nat, page: Page, ghost others: set<nat>, mem: PhysMem)
    requires System(spaces, others, mem) && k in spaces && v in spaces[k].own
    modifies mem`pages
    ensures System(spaces, others, mem) && Kept(others, old(mem.pages), mem.pages)
    ensures Images(spaces, mem.pages)
         == old(Images(spaces, mem.pages))[k := StoreImage(old(ImageOf(spaces[k], mem.pages)), v, page)]
  {
    hide PhysMem.Live, Separate, Images, Prints, Kept, ImageOf, StoreImage, Translate, Refines, AreasOk, NoDup, Holds;
    OwnedLeaf(spaces[k], mem, v);
    assert spaces[k].Valid(mem);
    var e := spaces[k].pt.TranslateVpn(v, mem);
    StoreFrame(spaces, k, v, PpnOf(e.value), page, others, mem);
  }

  /** The frame of page `v` is overwritten. */
  method StoreFrame(spaces: map<nat, MemorySet>, k: nat, ghost v: nat, p: nat, page: Page, ghost others: set<nat>,
                    mem: PhysMem)
    requires System(spaces, others, mem) && k in spaces && v in spaces[k].own && p == spaces[k].own[v]
    modifies mem`pages
    ensures p < |old(mem.pages)| && mem.pages == old(mem.pages)[p := page]
    ensures System(spaces, others, mem) && Kept(others, old(mem.pages), mem.pages)
    ensures Images(spaces, mem.pages)
         == old(Images(spaces, mem.pages))[k := StoreImage(old(ImageOf(spaces[k], mem.pages)), v, page)]
  {
    hide ValidAt, PhysMem.Live, Separate, BytesOf, MemorySet.Valid, MemorySet.Footprint, Prints, Images, Kept,
      ForeignKept, NoDup;
    ghost var live0, pages0, prints0, images0 := mem.Live(), mem.pages, Prints(spaces), Images(spaces, mem.pages);
    AllValidNow(spaces, mem);
    OwnedLeaf(spaces[k], mem, v);
    mem.pages := mem.pages[p := page];
    WriteKeeps(spaces[k], live0, pages0, v, mem);
    StoredBytes(spaces[k], mem, pages0, v, page);
    OneChanged(spaces, k, others, live0, pages0, prints0, images0, mem);
  }

  /** A process, or the kernel for it, reads one of its pages. */
  method ReadPage(spaces: map<nat, MemorySet>, k: nat, v: nat, ghost others: set<nat>, mem: PhysMem)
    returns (page: Page)
    requires System(spaces, others, mem) && k in spaces && v in Images(spaces, mem.pages)[k].bytes
    ensures page == Images(spaces, mem.pages)[k].bytes[v]
  {
    hide Refines, AreasOk, PhysMem.Live, BytesOf, Translate, NoDup, Separate, Prints, PageTable.Valid;
    var ms := spaces[k];
    assert ms.Valid(mem) && v in ms.own;
    OwnedLeaf(ms, mem, v);
    var e := ms.pt.TranslateVpn(v, mem);
    page := mem.pages[PpnOf(e.value)];
  }

  lemma WriteKeeps(ms: MemorySet, live0: set<nat>, pages0: seq<Page>, v: nat, mem: PhysMem)
    requires ValidAt(ms, live0, pages0) && mem.Valid() && mem.Live() == live0 && v in ms.own
    requires ms.own[v] < |pages0| && mem.pages == pages0[ms.own[v] := mem.pages[ms.own[v]]]
    ensures ms.Valid(mem) && ForeignKept(live0, ms.Footprint(), pages0, ms, mem)
  {
    hide Refines, AreasOk, PhysMem.Live, PhysMem.Valid;
    assert ms.own[v] in ms.own.Values;
    WritePage(ms, pages0, mem, ms.own[v]);
  }

  ghost function StoreImage(im: Image, v: nat, page: Page): Image {
    im.(bytes := im.bytes[v := page])
  }

  lemma StoredBytes(ms: MemorySet, mem: PhysMem, pages0: seq<Page>, v: nat, page: Page)
    requires ms.Valid(mem) && v in ms.own && ms.own[v] < |pages0| && mem.pages == pages0[ms.own[v] := page]
    ensures BytesOf(ms.own, mem.pages) == BytesOf(ms.own, pages0)[v := page]
  {
    hide PageTable.Valid, AreasOk, PhysMem.Live, BytesOf;
    assert Holds(ms.own, mem.Live(), ElemsOf(ms.pt.frames));
  }

  /** The space of a forked child. */
  method Fork(spaces: map<nat, MemorySet>, k: nat, c: nat, ghost others: set<nat>, trampoline: nat, mem: PhysMem)
    returns (ok: bool, child: MemorySet)
    requires System(spaces, others, mem) && k in spaces && c !in spaces && trampoline < PPN_LIMIT && mem.Free() > 0
    modifies mem
    ensures old(mem.Free()) >= 3 + 3 * PagesOf(RegionsOf(spaces[k].areas)) ==> ok
    ensures ok ==>
              && fresh(child) && fresh(child.pt)
              && System(spaces[c := child], others, mem) && Kept(others, old(mem.pages), mem.pages)
              && Images(spaces[c := child], mem.pages)
                 == Images(spaces, old(mem.pages))[c := ImageOf(spaces[k], old(mem.pages))]
              && mem.Free() >= old(mem.Free()) - 3 - 3 * PagesOf(RegionsOf(spaces[k].areas))
  {
    hide Refines, AreasOk, ValidAt, PhysMem.Live, PhysMem.Free, PhysMem.Valid, Separate, MemorySet.Valid,
      MemorySet.Footprint, BytesOf, PagesOf, Prints, Images;
    ghost var live0, pages0 := mem.Live(), mem.pages;
    AllValidNow(spaces, mem);
    OwnedExist(spaces[k], mem);
    ok, child := FromExistedUser(spaces[k], trampoline, mem);
    if ok {
      OneAdded(spaces, c, child, others, live0, pages0, mem);
      OwnedExist(child, mem);
      CopiedImage(spaces[k], child, pages0, mem.pages);
    }
  }

  lemma CopiedImage(parent: MemorySet, child: MemorySet, pages0: seq<Page>, pages: seq<Page>)
    requires |child.areas| == |parent.areas| && AllAlike(child.areas, parent.areas, |parent.areas|)
    requires child.own.Keys == parent.own.Keys && forall v :: v in parent.own ==> parent.own[v] < |pages0|
    requires forall v :: v in child.own ==> SameBytes(v, child.own, parent.own, pages, pages0)
    ensures ImageOf(child, pages) == ImageOf(parent, pages0)
  {
    hide BytesOf;
    assert forall i :: 0 <= i < |child.areas| ==> Alike(child.areas[i], parent.areas[i]);
    assert RegionsOf(child.areas) == RegionsOf(parent.areas);
    var a, b := BytesOf(child.own, pages), BytesOf(parent.own, pages0);
    forall v | v in a ensures v in b && a[v] == b[v] {
      assert v in child.own;
      assert v in parent.own.Keys;
      assert SameBytes(v, child.own, parent.own, pages, pages0);
    }
    forall v | v in b ensures v in a {
      assert v in child.own.Keys;
      assert SameBytes(v, child.own, parent.own, pages, pages0);
    }
  }

  // ---- Giving frames back ----

  /** The frames of the given pages. */
  ghost function FramesOf(own: map<nat, nat>, vs: set<nat>): set<nat> {
    set v | v in vs && v in own :: own[v]
  }

  method DropFrames(frames: seq<nat>, mem: PhysMem)
    requires mem.Valid() && NoDup(frames) && ElemsOf(frames) <= mem.Live()
    modifies mem`recycled
    ensures mem.Valid() && mem.Live() == old(mem.Live()) - ElemsOf(frames)
    ensures mem.Free() == old(mem.Free()) + |frames|
  {
    hide PhysMem.Live, PhysMem.Valid, PhysMem.Free;
    for i := 0 to |frames|
      invariant mem.Valid() && mem.Live() == old(mem.Live()) - ElemsOf(frames[..i])
      invariant mem.Free() == old(mem.Free()) + i
    {
      assert frames[i] !in frames[..i];
      assert frames[i] in ElemsOf(frames);
      mem.FrameDealloc(frames[i]);
      assert frames[..i + 1] == frames[..i] + [frames[i]];
      assert ElemsOf(frames[..i + 1]) == ElemsOf(frames[..i]) + {frames[i]};
    }
    assert frames[..|frames|] == frames;
  }

  method DropPages(ms: MemorySet, mem: PhysMem)
    requires ms.Valid(mem)
    modifies mem`recycled
    ensures mem.Valid() && mem.Live() == old(mem.Live()) - ms.own.Values
    ensures mem.Free() == old(mem.Free()) + PagesOf(RegionsOf(ms.areas))
    ensures NoDup(ms.pt.frames) && ElemsOf(ms.pt.frames) <= mem.Live() && ElemsOf(ms.pt.frames) !! ms.own.Values
  {
    hide MemorySet.Valid, PhysMem.Live, PhysMem.Valid, PhysMem.Free, ElemsOf, NoDup, PagesOf, RegionsOf;
    ghost var live0 := mem.Live();
    FramesAccounted(ms, mem);
    MemoryOf(ms, mem);
    Conservation(mem);
    DropAreas(ms, mem);
    FreedCount(mem, live0, ms.own.Values);
  }

  method DropAreas(ms: MemorySet, mem: PhysMem)
    requires ms.Valid(mem)
    modifies mem`recycled
    ensures mem.Valid() && mem.Live() == old(mem.Live()) - ms.own.Values
    ensures NoDup(ms.pt.frames) && ElemsOf(ms.pt.frames) <= mem.Live()
  {
    hide Refines, AreasOk, PhysMem.Live, PhysMem.Valid, Covered, FramesOf, ElemsOf, NoDup, Holds;
    ghost var live0 := mem.Live();
    AreaBounds(ms, mem);
    NoFrames(ms);
    for i := 0 to |ms.areas|
      invariant mem.Valid() && mem.Live() == live0 - FramesOf(ms.own, Covered(ms.areas, i))
    {
      DropArea(ms, i, live0, mem);
    }
    AllCovered(ms, live0);
    TablesLive(ms, live0);
  }

  lemma NoFrames(ms: MemorySet)
    requires forall i :: 0 <= i < |ms.areas| ==> ms.areas[i].start <= ms.areas[i].end
    ensures FramesOf(ms.own, Covered(ms.areas, 0)) == {}
  {
  }

  lemma TablesLive(ms: MemorySet, live: set<nat>)
    requires Holds(ms.own, live, ElemsOf(ms.pt.frames)) && ElemsOf(ms.pt.frames) <= live
    requires ms.own.Values !! ElemsOf(ms.pt.frames)
    ensures ElemsOf(ms.pt.frames) <= live - ms.own.Values
  {
  }

  lemma AreaBounds(ms: MemorySet, mem: PhysMem)
    requires ms.Valid(mem)
    ensures forall i :: 0 <= i < |ms.areas| ==> ms.areas[i].start <= ms.areas[i].end
  {
    hide PageTable.Valid, Holds;
    assert forall i :: 0 <= i < |ms.areas| ==> AreaOk(ms.areas[i], ms.own, ms.pt.view);
  }

  lemma AllCovered(ms: MemorySet, live: set<nat>)
    requires AreasOk(ms.areas, ms.own, ms.pt.view) && Holds(ms.own, live, ElemsOf(ms.pt.frames))
    requires forall i :: 0 <= i < |ms.areas| ==> ms.areas[i].start <= ms.areas[i].end
    ensures FramesOf(ms.own, Covered(ms.areas, |ms.areas|)) == ms.own.Values
    ensures ms.own.Values !! ElemsOf(ms.pt.frames)
  {
    hide AreaOk, WithV;
    var s := Covered(ms.areas, |ms.areas|);
    forall x | x in ms.own.Values ensures x in FramesOf(ms.own, s) {
      var v :| v in ms.own && ms.own[v] == x;
      CoveredIs(ms.areas, |ms.areas|, v);
      var j :| 0 <= j < |ms.areas| && Covers(ms.areas[j], v);
      assert InFirst(ms.areas, |ms.areas|, v);
    }
  }

  method DropArea(ms: MemorySet, i: nat, ghost live0: set<nat>, mem: PhysMem)
    requires AreasOk(ms.areas, ms.own, ms.pt.view) && Holds(ms.own, live0, ElemsOf(ms.pt.frames))
    requires i < |ms.areas| && forall j :: 0 <= j < |ms.areas| ==> ms.areas[j].start <= ms.areas[j].end
    requires mem.Valid() && mem.Live() == live0 - FramesOf(ms.own, Covered(ms.areas, i))
    modifies mem`recycled
    ensures mem.Valid() && mem.Live() == live0 - FramesOf(ms.own, Covered(ms.areas, i + 1))
  {
    hide PhysMem.Live, PhysMem.Valid, AreasOk, Covered, Range, Holds, FramesOf;
    var a := ms.areas[i];
    ghost var before := Covered(ms.areas, i);
    assert before + Range(a.start, a.start) == before by { NoRange(a.start); }
    var v := a.start;
    while v < a.end
      invariant a.start <= v <= a.end
      invariant mem.Valid() && mem.Live() == live0 - FramesOf(ms.own, before + Range(a.start, v))
    {
      OnePageMore(ms, i, live0, before, v);
      mem.FrameDealloc(a.frames[v]);
      v := v + 1;
    }
    NextCovered(ms.areas, i);
  }

  lemma NoRange(l: nat)
    ensures Range(l, l) == {}
  {
  }

  /** The next page's frame has not been given back yet. */
  lemma OnePageMore(ms: MemorySet, i: nat, live0: set<nat>, before: set<nat>, v: nat)
    requires AreasOk(ms.areas, ms.own, ms.pt.view) && Holds(ms.own, live0, ElemsOf(ms.pt.frames))
    requires i < |ms.areas| && forall j :: 0 <= j < |ms.areas| ==> ms.areas[j].start <= ms.areas[j].end
    requires Covers(ms.areas[i], v) && before == Covered(ms.areas, i)
    ensures v in ms.areas[i].frames && v in ms.own && ms.areas[i].frames[v] == ms.own[v]
    ensures var a := ms.areas[i];
            && ms.own[v] in live0 - FramesOf(ms.own, before + Range(a.start, v))
            && FramesOf(ms.own, before + Range(a.start, v + 1))
               == FramesOf(ms.own, before + Range(a.start, v)) + {ms.own[v]}
  {
    hide Range, Covered, WithV, AreaOk, FramesOf, Holds;
    var a := ms.areas[i];
    CoveredIsMapped(a, ms.own, ms.pt.view, v);
    CoveredIs(ms.areas, i, v);
    forall j | 0 <= j < i ensures !Covers(ms.areas[j], v) {
      assert Apart(ms.areas[j], ms.areas[i]);
    }
    assert v !in before;
    var x, y := before + Range(a.start, v), before + Range(a.start, v + 1);
    assert y == x + {v};
    OneFrameMore(ms.own, live0, ElemsOf(ms.pt.frames), x, v);
  }

  lemma OneFrameMore(own: map<nat, nat>, live: set<nat>, tables: set<nat>, vs: set<nat>, v: nat)
    requires Holds(own, live, tables) && v in own && v !in vs
    ensures own[v] in live - FramesOf(own, vs)
    ensures FramesOf(own, vs + {v}) == FramesOf(own, vs) + {own[v]}
  {
  }

  /** Every tracker given back is one more free frame. */
  lemma FreedCount(mem: PhysMem, live0: set<nat>, gone: set<nat>)
    requires mem.Valid() && mem.Live() == live0 - gone && gone <= live0
    ensures |live0| == |mem.Live()| + |gone|
    ensures mem.end - mem.first - |live0| == mem.Free() - |gone|
  {
    hide PhysMem.Valid, PhysMem.Live, PhysMem.Free;
    Conservation(mem);
    assert live0 == mem.Live() + gone;
  }

  /** Dropping a memory set: every tracker of its areas and of its page table gives its
      frame back. */
  method DropSpace(ms: MemorySet, mem: PhysMem)
    requires ms.Valid(mem)
    modifies mem`recycled
    ensures mem.Valid() && mem.Live() == old(mem.Live()) - ms.Footprint()
    ensures mem.Free() == old(mem.Free()) + PagesOf(RegionsOf(ms.areas)) + |ms.pt.frames|
  {
    hide Refines, AreasOk, PhysMem.Live, PhysMem.Valid, PhysMem.Free;
    DropPages(ms, mem);
    DropFrames(ms.pt.frames, mem);
  }

  method Drop(spaces: map<nat, MemorySet>, k: nat, ghost others: set<nat>, mem: PhysMem)
    requires System(spaces, others, mem) && k in spaces
    modifies mem`recycled
    ensures System(spaces - {k}, others, mem)
    ensures Images(spaces - {k}, mem.pages) == Images(spaces, mem.pages) - {k}
    ensures mem.Live() == old(mem.Live()) - spaces[k].Footprint()
    ensures mem.Free() == old(mem.Free()) + PagesOf(RegionsOf(spaces[k].areas)) + |spaces[k].pt.frames|
  {
    hide Refines, AreasOk, ValidAt, PhysMem.Live, PhysMem.Valid, PhysMem.Free, Separate, MemorySet.Valid,
      MemorySet.Footprint, Images, Prints;
    ghost var live0, prints := mem.Live(), Prints(spaces);
    AllValidNow(spaces, mem);
    DropSpace(spaces[k], mem);
    OthersElsewhere(prints, others, live0, k);
    OneGone(spaces, k, others, live0, others, mem);
  }

  /** `recycle_data_pages`: the frames of the pages are given back, the page table keeps
      its own. */
  method Recycle(spaces: map<nat, MemorySet>, k: nat, ghost others: set<nat>, mem: PhysMem)
    requires System(spaces, others, mem) && k in spaces
    modifies mem`recycled
    ensures System(spaces - {k}, others + ElemsOf(spaces[k].pt.frames), mem)
    ensures ElemsOf(spaces[k].pt.frames) !! others && NoDup(spaces[k].pt.frames) && spaces[k].pt.frames != []
    ensures Images(spaces - {k}, mem.pages) == Images(spaces, mem.pages) - {k}
    ensures mem.Live() == old(mem.Live()) - spaces[k].own.Values
    ensures mem.Free() == old(mem.Free()) + PagesOf(RegionsOf(spaces[k].areas))
  {
    hide Refines, AreasOk, ValidAt, PhysMem.Live, PhysMem.Valid, PhysMem.Free, Separate, Images, Prints;
    ghost var live0, prints := mem.Live(), Prints(spaces);
    AllValidNow(spaces, mem);
    RootHeld(spaces[k], mem);
    DropPages(spaces[k], mem);
    OthersElsewhere(prints, others, live0, k);
    OneGone(spaces, k, others, live0, others + ElemsOf(spaces[k].pt.frames), mem);
  }

  lemma RootHeld(ms: MemorySet, mem: PhysMem)
    requires ms.Valid(mem)
    ensures ms.pt.frames != []
  {
    hide AreasOk;
    TablesInMemory(mem.pages, ms.pt.root, ElemsOf(ms.pt.frames), ms.pt.view);
  }

  /** A space gets another name. */
  lemma Renamed(spaces: map<nat, MemorySet>, t: nat, k: nat, r: map<nat, MemorySet>, others: set<nat>, mem: PhysMem)
    requires t in spaces && k !in spaces && r == (spaces - {t})[k := spaces[t]]
    requires System(spaces, others, mem)
    ensures System(r, others, mem)
    ensures Images(r, mem.pages) == (Images(spaces, mem.pages) - {t})[k := ImageOf(spaces[t], mem.pages)]
  {
    hide MemorySet.Valid, MemorySet.Footprint, ImageOf, PhysMem.Live, PhysMem.Valid, Prints, Images, Separate;
    var prints := Prints(spaces);
    SeparateRename(prints, t, k, others, mem.Live());
    RenamedPrints(spaces, t, k, r);
  }

  lemma RenamedPrints(spaces: map<nat, MemorySet>, t: nat, k: nat, r: map<nat, MemorySet>)
    requires t in spaces && k !in spaces && r == (spaces - {t})[k := spaces[t]]
    ensures Prints(r) == (Prints(spaces) - {t})[k := Prints(spaces)[t]]
  {
    hide Prints, MemorySet.Footprint;
  }

  lemma SeparateRename(prints: map<nat, set<nat>>, t: nat, k: nat, others: set<nat>, live: set<nat>)
    requires Separate(prints, others, live) && t in prints && k !in prints
    ensures Separate((prints - {t})[k := prints[t]], others, live)
  {
    var mine := prints[t];
    OthersElsewhere(prints, others, live, t);
    SeparateRemove(prints, others, live, t, live - mine);
    assert live - mine + mine == live;
    SeparateAdd(prints - {t}, others, live - mine, k, mine, live);
  }

  /** `exec`: space `t` takes the place of space `k`, which is dropped. */
  method Replace(spaces: map<nat, MemorySet>, k: nat, t: nat, ghost others: set<nat>, mem: PhysMem)
    returns (after: map<nat, MemorySet>)
    requires System(spaces, others, mem) && k in spaces && t in spaces && k != t
    modifies mem`recycled
    ensures after == (spaces - {t})[k := spaces[t]]
    ensures System(after, others, mem)
    ensures Images(after, mem.pages) == (Images(spaces, mem.pages) - {t})[k := ImageOf(spaces[t], mem.pages)]
    ensures mem.Live() == old(mem.Live()) - spaces[k].Footprint()
    ensures mem.Free() == old(mem.Free()) + PagesOf(RegionsOf(spaces[k].areas)) + |spaces[k].pt.frames|
  {
    hide System, Images, ImageOf, MemorySet.Footprint, PhysMem.Live, PhysMem.Free, PagesOf, RegionsOf;
    Drop(spaces, k, others, mem);
    after := (spaces - {t})[k := spaces[t]];
    Renamed(spaces - {k}, t, k, after, others, mem);
  }

  // ---- Frames of the kernel ----

  /** The kernel takes `n` frames for itself. */
  method Take(spaces: map<nat, MemorySet>, n: nat, ghost others: set<nat>, mem: PhysMem)
    returns (ok: bool, frames: seq<nat>)
    requires System(spaces, others, mem)
    modifies mem
    ensures ok <==> old(mem.Free()) >= n
    ensures ok ==>
              && |frames| == n && NoDup(frames) && ElemsOf(frames) !! others
              && System(spaces, others + ElemsOf(frames), mem)
              && Images(spaces, mem.pages) == Images(spaces, old(mem.pages))
              && Kept(others, old(mem.pages), mem.pages)
              && (forall i :: 0 <= i < n ==> frames[i] < |mem.pages| && mem.pages[frames[i]] == ZeroPage())
              && mem.Free() == old(mem.Free()) - n
  {
    hide Refines, AreasOk, ValidAt, PhysMem.Live, PhysMem.Valid, PhysMem.Free, Separate, MemorySet.Valid,
      MemorySet.Footprint, Images, Prints, ZeroPage;
    ghost var live0, pages0 := mem.Live(), mem.pages;
    AllValidNow(spaces, mem);
    frames := [];
    while |frames| < n
      invariant |frames| <= n && NoDup(frames) && ElemsOf(frames) !! live0
      invariant mem.Valid() && mem.Live() == live0 + ElemsOf(frames) && mem.Free() == old(mem.Free()) - |frames|
      invariant Kept(live0, pages0, mem.pages)
      invariant forall i :: 0 <= i < |frames| ==> frames[i] < |mem.pages| && mem.pages[frames[i]] == ZeroPage()
      decreases n - |frames|
    {
      var p;
      InMemory(mem);
      ok, p := mem.FrameAlloc();
      if !ok {
        return;
      }
      InMemory(mem);
      assert forall i :: 0 <= i < |frames| ==> frames[i] in ElemsOf(frames);
      assert ElemsOf(frames + [p]) == ElemsOf(frames) + {p};
      frames := frames + [p];
    }
    FreeNonneg(mem);
    ok := true;
    LiveOthers(Prints(spaces), others, live0);
    NoneChanged(spaces, others, live0, pages0, others + ElemsOf(frames), mem);
  }

  lemma LiveOthers(prints: map<nat, set<nat>>, others: set<nat>, live: set<nat>)
    requires Separate(prints, others, live)
    ensures others <= live
  {
  }

  lemma InMemory(mem: PhysMem)
    requires mem.Valid()
    ensures forall p :: p in mem.Live() ==> p < |mem.pages|
    ensures mem.end <= |mem.pages|
  {
  }

  lemma FreeNonneg(mem: PhysMem)
    requires mem.Valid()
    ensures mem.Free() >= 0
  {
  }

  /** The kernel gives some of its frames back. */
  method Give(spaces: map<nat, MemorySet>, frames: seq<nat>, ghost others: set<nat>, mem: PhysMem)
    requires System(spaces, others, mem) && NoDup(frames) && ElemsOf(frames) <= others
    modifies mem`recycled
    ensures System(spaces, others - ElemsOf(frames), mem)
    ensures Images(spaces, mem.pages) == Images(spaces, old(mem.pages))
    ensures mem.Live() == old(mem.Live()) - ElemsOf(frames)
    ensures mem.Free() == old(mem.Free()) + |frames|
  {
    hide Refines, AreasOk, ValidAt, PhysMem.Live, PhysMem.Valid, PhysMem.Free, Separate, MemorySet.Valid,
      MemorySet.Footprint, Images, Prints;
    ghost var live0 := mem.Live();
    AllValidNow(spaces, mem);
    LiveOthers(Prints(spaces), others, live0);
    DropFrames(frames, mem);
    NoneChanged(spaces, others, live0, mem.pages, others - ElemsOf(frames), mem);
  }

  /** The kernel writes to a frame of its own. */
  method Write(spaces: map<nat, MemorySet>, p: nat, page: Page, ghost others: set<nat>, mem: PhysMem)
    requires System(spaces, others, mem) && p in others
    modifies mem`pages
    ensures System(spaces, others, mem)
    ensures Images(spaces, mem.pages) == Images(spaces, old(mem.pages))
    ensures p < |old(mem.pages)| && mem.pages == old(mem.pages)[p := page]
  {
    hide Refines, AreasOk, ValidAt, PhysMem.Live, Separate, MemorySet.Valid, MemorySet.Footprint, Images, Prints, NoDup;
    ghost var live0, pages0 := mem.Live(), mem.pages;
    AllValidNow(spaces, mem);
    LiveOthers(Prints(spaces), others, live0);
    InMemory(mem);
    mem.pages := mem.pages[p := page];
    NoneChanged(spaces, others, live0, pages0, others, mem);
  }

}
