/**
 * The kernel's own code on processes and memory, step by step.
 */
module MachineRuns {
  import opened Basics
  import opened PhysMemory
  import opened Sv39
  import opened AddressSpace
  import opened Spaces
  import opened SystemRuns
  import opened Machine
  import SR = SpaceRuns
  import PS = ProcessState
  import PI = ProcessInvariant
  import KP = KernelProcesses
  import PR = ProcessRuns

  /** The operations on memory that a call leads to. */
  method Plan(k: KP.Kernel, spaces: map<nat, MemorySet>, held: Holding, j: MachineOp, mem: PhysMem)
    returns (ops: seq<SystemOp>)
    requires PS.Inv(k.State()) && Whole(spaces, held, mem)
    requires Joined(k.State(), WorldOf(spaces, held, mem.pages))
    requires Allowed(k.State(), WorldOf(spaces, held, mem.pages), j) && !Exits(k.State(), j) && !Collects(k.State(), j)
    ensures ops == MemoryOps(k.State(), WorldOf(spaces, held, mem.pages), j)
  {
    hide PS.Inv, Whole, WorldOf, Joined, Allowed, Collectable, ForkOps, Load, WithCode, PS.AllocatedPid;
    ghost var s, w := k.State(), WorldOf(spaces, held, mem.pages);
    RunningLives(s);
    if j.Own? {
      return [j.step];
    }
    if k.halted || k.current.None? || k.current.value !in k.procs {
      return [];
    }
    var me := k.current.value;
    LivesHere(s, w, me);
    match j
    case Call(op) =>
      if op.Fork? {
        var trap := Peek(spaces, held, me, TRAP_VPN, mem);
        return ForkOps(me, k.nextHandle, PS.AllocatedPid(PS.Pids(k.pidNext, k.pidRecycled)), trap);
      }
      return [];
    case Collect(_, _) => return [];
    case Change(o) => return [ChangeSpace(me, o)];
    case Write(v, page) => return [StorePage(me, v, page)];
    case Exec(areas) => return Load(k.nextHandle, areas) + [ReplaceSpace(me, k.nextHandle)];
  }

  method Peek(spaces: map<nat, MemorySet>, held: Holding, me: nat, v: nat, mem: PhysMem) returns (page: Page)
    requires Whole(spaces, held, mem)
    requires var w := WorldOf(spaces, held, mem.pages); me in w.images && v in w.images[me].bytes
    ensures page == WorldOf(spaces, held, mem.pages).images[me].bytes[v]
  {
    hide System, Images, AllHeld, HeldOnce, KeptOf;
    page := ReadPage(spaces, me, v, AllHeld(held), mem);
  }

  /** The call as the process subsystem sees it. */
  method CallKernel(k: KP.Kernel, j: MachineOp)
    requires PS.Inv(k.State())
    modifies k
    ensures k.State() == After(old(k.State()), j) && PS.Inv(k.State())
  {
    hide PS.Inv, PS.Step;
    if j.Call? {
      PR.Call(k, j.call);
    } else if j.Collect? {
      PR.Call(k, PS.Wait(j.pid));
    }
  }

  lemma NoSpace(k: KP.Kernel, spaces: map<nat, MemorySet>)
    ensures k !in Objects(spaces)
  {
  }

  /** Memory has followed the call `j`, or has run out. */
  ghost predicate Followed(s: PS.KState, w: World, j: MachineOp, free0: int, ok: bool, after: map<nat, MemorySet>,
                           heldAfter: Holding, mem: PhysMem)
    requires Joined(s, w) && Allowed(s, w, j)
    reads mem, after.Values, set ms | ms in after.Values :: ms.pt
  {
    var ops := MemoryOps(s, w, j);
    && RunPossible(w, ops)
    && (free0 >= SystemNeeded(w, ops) ==> ok)
    && (ok ==>
          && Whole(after, heldAfter, mem)
          && WorldOf(after, heldAfter, mem.pages) == RunEffect(w, ops)
          && Joined(After(s, j), RunEffect(w, ops))
          && mem.Free() >= free0 - TotalCost(w, ops))
  }

  /** The pages of `ms` are free, its tables are held. */
  ghost predicate ExitExact(k: nat, ms: MemorySet, held: Holding, heldAfter: Holding, live0: set<nat>, mem: PhysMem)
    reads ms, ms.pt, mem
  {
    heldAfter == held[Husk(k) := ms.pt.frames] && mem.Live() == live0 - ms.own.Values
  }

  /** What was held for the child is free. */
  ghost predicate CollectExact(child: Option<nat>, held: Holding, heldAfter: Holding, live0: set<nat>, mem: PhysMem)
    reads mem
  {
    && child.Some? && Stack(child.value) in held && Husk(child.value) in held
    && |held[Stack(child.value)]| == STACK_PAGES
    && heldAfter == held - {Stack(child.value)} - {Husk(child.value)}
    && mem.Live() == live0 - ElemsOf(held[Stack(child.value)]) - ElemsOf(held[Husk(child.value)])
  }

  ghost predicate Exits(s: PS.KState, j: MachineOp) {
    j.Call? && j.call.Exit? && Acts(s) && s.procs[s.current.value].pid != 0
  }

  ghost predicate Collects(s: PS.KState, j: MachineOp) {
    j.Collect? && Acts(s) && Collectable(s, j.pid).Some?
  }

  /** One call on processes and memory.  An exit frees exactly the frames of the pages, a
      collection exactly those of the child's page table and of its kernel stack. */
  method StepMachine(k: KP.Kernel, spaces: map<nat, MemorySet>, held: Holding, j: MachineOp, trampoline: nat,
                     mem: PhysMem)
    returns (ok: bool, after: map<nat, MemorySet>, heldAfter: Holding)
    requires PS.Inv(k.State()) && Whole(spaces, held, mem) && trampoline < PPN_LIMIT
    requires Joined(k.State(), WorldOf(spaces, held, mem.pages))
    requires Allowed(k.State(), WorldOf(spaces, held, mem.pages), j)
    modifies k, mem, Objects(spaces)
    ensures k.State() == After(old(k.State()), j) && PS.Inv(k.State())
    ensures fresh(Objects(after) - Objects(spaces))
    ensures Followed(old(k.State()), old(WorldOf(spaces, held, mem.pages)), j, old(mem.Free()), ok, after, heldAfter,
                     mem)
    ensures Exits(old(k.State()), j) ==>
              && ok && old(k.current.value) in spaces
              && ExitExact(old(k.current.value), spaces[old(k.current.value)], held, heldAfter, old(mem.Live()), mem)
    ensures Collects(old(k.State()), j) ==>
              ok && CollectExact(Collectable(old(k.State()), j.pid), held, heldAfter, old(mem.Live()), mem)
  {
    hide PS.Inv, Whole, WorldOf, Joined, Allowed, Followed, PhysMem.Free, PhysMem.Live, ExitExact, CollectExact,
      Collectable;
    RunningLives(k.State());
    var acts := !k.halted && k.current.Some? && k.current.value in k.procs;
    var ended := None;
    if acts && j.Collect? {
      ended := FindChild(k, j.pid);
    }
    NoSpace(k, spaces);
    if acts && j.Call? && j.call.Exit? && k.procs[k.current.value].pid != 0 {
      ok := true;
      after, heldAfter := DoExit(k, spaces, held, j.call.code, mem);
    } else if ended.Some? {
      ok, after := true, spaces;
      heldAfter := DoCollect(k, spaces, held, j.pid, j.ptr, ended.value, mem);
    } else {
      ok, after, heldAfter := DoOther(k, spaces, held, j, trampoline, mem);
    }
  }

  method FindChild(k: KP.Kernel, pid: int) returns (r: Option<nat>)
    requires PS.Inv(k.State()) && PS.Runs(k.State())
    ensures r == Collectable(k.State(), pid)
  {
    hide PS.Inv, PS.FirstEnded;
    KP.Family(k.State());
    var kids := k.procs[k.current.value].children;
    var i := k.FindEnded(kids, pid);
    r := if i < |kids| then Some(kids[i]) else None;
  }

  method DoExit(k: KP.Kernel, spaces: map<nat, MemorySet>, held: Holding, code: int, mem: PhysMem)
    returns (after: map<nat, MemorySet>, heldAfter: Holding)
    requires PS.Inv(k.State()) && Whole(spaces, held, mem) && Exits(k.State(), Call(PS.Exit(code)))
    requires Joined(k.State(), WorldOf(spaces, held, mem.pages))
    modifies k, mem
    ensures k.State() == After(old(k.State()), Call(PS.Exit(code))) && PS.Inv(k.State())
    ensures Objects(after) <= Objects(spaces)
    ensures Followed(old(k.State()), old(WorldOf(spaces, held, mem.pages)), Call(PS.Exit(code)), old(mem.Free()), true,
                     after, heldAfter, mem)
    ensures old(k.current.value) in spaces
    ensures ExitExact(old(k.current.value), spaces[old(k.current.value)], held, heldAfter, old(mem.Live()), mem)
  {
    hide PS.Inv, PS.Step, Whole, WorldOf, Joined, MemoryOps, RunPossible, RunEffect, SystemNeeded, TotalCost,
      PhysMem.Free, PhysMem.Live, Objects, Possible;
    ghost var s, w := k.State(), WorldOf(spaces, held, mem.pages);
    var me := k.current.value;
    ExitOps(s, w, code);
    SpaceOf(spaces, held, mem.pages);
    LivesHere(s, w, me);
    ExitJoined(s, w, code);
    PR.Call(k, PS.Exit(code));
    after, heldAfter := ExitOne(spaces, held, me, mem);
  }

  lemma ExitOps(s: PS.KState, w: World, code: int)
    requires Joined(s, w) && Exits(s, Call(PS.Exit(code)))
    ensures MemoryOps(s, w, Call(PS.Exit(code))) == [ExitSpace(s.current.value)]
    ensures Possible(w, ExitSpace(s.current.value))
  {
    hide Collectable, ForkOps;
    assert !Ended(s, s.current.value);
  }

  lemma SpaceOf(spaces: map<nat, MemorySet>, held: Holding, pages: seq<Page>)
    ensures WorldOf(spaces, held, pages).images.Keys == spaces.Keys
  {
    hide Images, KeptOf;
  }

  method DoCollect(k: KP.Kernel, spaces: map<nat, MemorySet>, held: Holding, pid: int, ptr: nat, c: nat, mem: PhysMem)
    returns (heldAfter: Holding)
    requires PS.Inv(k.State()) && Acts(k.State()) && Collectable(k.State(), pid) == Some(c) && Whole(spaces, held, mem)
    requires Joined(k.State(), WorldOf(spaces, held, mem.pages))
    requires Allowed(k.State(), WorldOf(spaces, held, mem.pages), Collect(pid, ptr))
    modifies k, mem
    ensures k.State() == After(old(k.State()), Collect(pid, ptr)) && PS.Inv(k.State())
    ensures Followed(old(k.State()), old(WorldOf(spaces, held, mem.pages)), Collect(pid, ptr), old(mem.Free()), true,
                     spaces, heldAfter, mem)
    ensures CollectExact(Some(c), held, heldAfter, old(mem.Live()), mem)
  {
    hide PS.Inv, PS.Step, Whole, WorldOf, Joined, Allowed, MemoryOps, RunPossible, RunEffect, SystemNeeded, TotalCost,
      PhysMem.Free, PhysMem.Live, WithCode, Collectable, Possible, ElemsOf;
    ghost var s, w := k.State(), WorldOf(spaces, held, mem.pages);
    var me, v := k.current.value, PageOfPtr(ptr);
    CollectOps(s, w, pid, ptr);
    CollectHeld(s, spaces, held, mem.pages, me, v, c);
    CollectJoined(s, w, pid, ptr);
    var page := Peek(spaces, held, me, v, mem);
    var code := k.procs[c].exitCode;
    PR.Call(k, PS.Wait(pid));
    heldAfter := CollectOne(spaces, held, me, v, WithCode(page, ptr % PAGE_SIZE, code), c, mem);
  }

  lemma CollectHeld(s: PS.KState, spaces: map<nat, MemorySet>, held: Holding, pages: seq<Page>, me: nat, v: nat, c: nat)
    requires Joined(s, WorldOf(spaces, held, pages)) && Ended(s, c)
    ensures Stack(c) in held && Husk(c) in held && |held[Stack(c)]| == STACK_PAGES
    ensures var w := WorldOf(spaces, held, pages);
            me in w.images && v in w.images[me].bytes ==> forall page :: Possible(w, StorePage(me, v, page))
  {
    hide Images;
  }

  lemma CollectOps(s: PS.KState, w: World, pid: int, ptr: nat)
    requires Joined(s, w) && Acts(s) && Allowed(s, w, Collect(pid, ptr))
    ensures s.current.value in w.images
    ensures Collectable(s, pid).None? ==> MemoryOps(s, w, Collect(pid, ptr)) == []
    ensures Collectable(s, pid).Some? ==>
              var me, c, v := s.current.value, Collectable(s, pid).value, PageOfPtr(ptr);
              && v in w.images[me].bytes && ptr % PAGE_SIZE + 4 <= PAGE_SIZE && c in s.procs
              && MemoryOps(s, w, Collect(pid, ptr))
                 == [StorePage(me, v, WithCode(w.images[me].bytes[v], ptr % PAGE_SIZE, s.procs[c].exitCode)),
                     KernelGive(Stack(c)), KernelGive(Husk(c))]
  {
    hide Collectable, WithCode;
  }

  method DoOther(k: KP.Kernel, spaces: map<nat, MemorySet>, held: Holding, j: MachineOp, trampoline: nat, mem: PhysMem)
    returns (ok: bool, after: map<nat, MemorySet>, heldAfter: Holding)
    requires PS.Inv(k.State()) && Whole(spaces, held, mem) && trampoline < PPN_LIMIT
    requires Joined(k.State(), WorldOf(spaces, held, mem.pages))
    requires Allowed(k.State(), WorldOf(spaces, held, mem.pages), j) && !Exits(k.State(), j) && !Collects(k.State(), j)
    modifies k, mem, Objects(spaces)
    ensures k.State() == After(old(k.State()), j) && PS.Inv(k.State())
    ensures fresh(Objects(after) - Objects(spaces))
    ensures Followed(old(k.State()), old(WorldOf(spaces, held, mem.pages)), j, old(mem.Free()), ok, after, heldAfter,
                     mem)
  {
    hide PS.Inv, Whole, WorldOf, Joined, Allowed, MemoryOps, RunPossible, RunEffect, SystemNeeded, TotalCost,
      PhysMem.Free, After, Exits, Collects;
    ghost var s, w := k.State(), WorldOf(spaces, held, mem.pages);
    StepJoined(s, w, j);
    var ops := Plan(k, spaces, held, j, mem);
    CallKernel(k, j);
    NoSpace(k, spaces);
    ok, after, heldAfter := RunSystem(spaces, held, ops, trampoline, mem);
  }

  /** All runs: the processes follow their steps, memory follows the processes, and every
      live frame is held once.  The run goes through if there are frames enough. */
  method RunMachine(k: KP.Kernel, start: map<nat, MemorySet>, heldStart: Holding, js: seq<MachineOp>, trampoline: nat,
                    mem: PhysMem)
    returns (ok: bool, spaces: map<nat, MemorySet>, held: Holding)
    requires PS.Inv(k.State()) && Whole(start, heldStart, mem) && trampoline < PPN_LIMIT
    requires Joined(k.State(), WorldOf(start, heldStart, mem.pages))
    requires Runnable(k.State(), WorldOf(start, heldStart, mem.pages), js)
    modifies k, mem, Objects(start)
    ensures var s, w := old(k.State()), old(WorldOf(start, heldStart, mem.pages));
            && (old(mem.Free()) >= Frames(s, w, js) ==> ok)
            && (ok ==> k.State() == RunState(s, js) && WorldOf(spaces, held, mem.pages) == RunWorld(s, w, js))
    ensures ok ==>
              PS.Inv(k.State()) && Whole(spaces, held, mem) && Joined(k.State(), WorldOf(spaces, held, mem.pages))
  {
    hide PS.Inv, Whole, WorldOf, Joined, Allowed, MemoryOps, RunPossible, RunEffect, SystemNeeded, TotalCost,
      PhysMem.Free, After, Exits, Collects, ExitExact, CollectExact;
    spaces, held := start, heldStart;
    ghost var s0, w0 := k.State(), WorldOf(start, heldStart, mem.pages);
    ghost var enough := mem.Free() >= Frames(s0, w0, js);
    assert js[0..] == js;
    for i := 0 to |js|
      invariant PS.Inv(k.State()) && Whole(spaces, held, mem) && Joined(k.State(), WorldOf(spaces, held, mem.pages))
      invariant Runnable(k.State(), WorldOf(spaces, held, mem.pages), js[i..])
      invariant RunState(k.State(), js[i..]) == RunState(s0, js)
      invariant RunWorld(k.State(), WorldOf(spaces, held, mem.pages), js[i..]) == RunWorld(s0, w0, js)
      invariant enough ==> mem.Free() >= Frames(k.State(), WorldOf(spaces, held, mem.pages), js[i..])
      invariant fresh(Objects(spaces) - Objects(start))
    {
      assert js[i..][0] == js[i] && js[i..][1..] == js[i + 1..];
      NoSpace(k, spaces);
      var next;
      ok, next, held := StepMachine(k, spaces, held, js[i], trampoline, mem);
      if !ok {
        return;
      }
      spaces := next;
    }
    assert js[|js|..] == [];
    ok := true;
  }

  // ---- Start-up ----

  /** The kernel space takes `n` frames, the initial process is loaded and gets its kernel stack. */
  function BootOps(n: nat, areas: seq<SR.SpaceOp>): seq<SystemOp> {
    [KernelTake(KernelSpace(0), n)] + Load(PS.INIT, areas) + [KernelTake(Stack(PS.INIT), STACK_PAGES)]
  }

  lemma BootJoined(n: nat, areas: seq<SR.SpaceOp>)
    requires SR.RunEnabled([], areas) && TRAP_VPN in SR.RunBytes(map[], [], areas)
    ensures var w := World(map[], map[]);
            RunPossible(w, BootOps(n, areas)) && Joined(PS.Boot(), RunEffect(w, BootOps(n, areas)))
  {
    hide SR.RunEnabled, SR.RunBytes, SR.Run, Load, RunPossible, RunEffect, TotalCost, ZeroPage;
    var w := World(map[], map[]);
    var a, b, c := [KernelTake(KernelSpace(0), n)], Load(PS.INIT, areas), [KernelTake(Stack(PS.INIT), STACK_PAGES)];
    SingleCost(w, a[0]);
    var w1 := RunEffect(w, a);
    LoadRun(w1, PS.INIT, areas);
    var w2 := RunEffect(w1, b);
    SingleCost(w2, c[0]);
    RunConcat(w1, b, c);
    RunConcat(w, a, b + c);
    assert a + (b + c) == BootOps(n, areas);
  }

  ghost function BootWorld(n: nat, areas: seq<SR.SpaceOp>): (w: World)
    requires SR.RunEnabled([], areas) && TRAP_VPN in SR.RunBytes(map[], [], areas)
    ensures Joined(PS.Boot(), w) && PS.Inv(PS.Boot())
    ensures RunPossible(World(map[], map[]), BootOps(n, areas))
    ensures w == RunEffect(World(map[], map[]), BootOps(n, areas))
  {
    hide PS.Inv, PS.Boot, Joined, RunPossible, RunEffect, BootOps;
    BootJoined(n, areas);
    PI.BootInv();
    RunEffect(World(map[], map[]), BootOps(n, areas))
  }

  /** From power-on: whatever the frames are used for, processes and memory stay together. */
  method BootAndRun(memory: seq<Page>, l: nat, r: nat, n: nat, areas: seq<SR.SpaceOp>, js: seq<MachineOp>,
                    trampoline: nat)
    returns (ok: bool, k: KP.Kernel, spaces: map<nat, MemorySet>, held: Holding, mem: PhysMem)
    requires l <= r <= |memory| <= PPN_LIMIT && trampoline < PPN_LIMIT
    requires SR.RunEnabled([], areas) && TRAP_VPN in SR.RunBytes(map[], [], areas)
    requires Runnable(PS.Boot(), BootWorld(n, areas), js)
    ensures var w0, w, ops := World(map[], map[]), BootWorld(n, areas), BootOps(n, areas);
            r - l >= SystemNeeded(w0, ops) && r - l >= TotalCost(w0, ops) + Frames(PS.Boot(), w, js) ==> ok
    ensures ok ==>
              && k.State() == RunState(PS.Boot(), js)
              && WorldOf(spaces, held, mem.pages) == RunWorld(PS.Boot(), BootWorld(n, areas), js)
              && PS.Inv(k.State()) && Whole(spaces, held, mem) && Joined(k.State(), WorldOf(spaces, held, mem.pages))
  {
    hide PS.Inv, PS.Boot, Whole, WorldOf, Joined, RunPossible, RunEffect, SystemNeeded, TotalCost, PhysMem.Free,
      BootOps, SR.RunEnabled, SR.RunBytes, Runnable, RunState, RunWorld, Frames;
    ghost var w := BootWorld(n, areas);
    k := new KP.Kernel();
    ok, spaces, held, mem := RunFromStart(memory, l, r, BootOps(n, areas), trampoline);
    if ok {
      ok, spaces, held := RunMachine(k, spaces, held, js, trampoline, mem);
    }
  }

  /** No frame is lost: a live frame is in the address space of a process that has not
      ended, in the page table of one that has, in the kernel stack of one of them, or is
      the kernel's own. */
  lemma NoLeak(s: PS.KState, spaces: map<nat, MemorySet>, held: Holding, mem: PhysMem, q: nat)
    requires Whole(spaces, held, mem) && Joined(s, WorldOf(spaces, held, mem.pages)) && q in mem.Live()
    ensures (exists h :: h in spaces && Lives(s, h) && q in spaces[h].Footprint())
         || (exists h: nat :: Ended(s, h) && Husk(h) in held && q in held[Husk(h)])
         || (exists h: nat ::
               h in s.procs && Stack(h) in held && |held[Stack(h)]| == STACK_PAGES && q in held[Stack(h)])
         || (exists i :: KernelSpace(i) in held && q in held[KernelSpace(i)])
  {
    hide MemorySet.Valid, MemorySet.Footprint, PhysMem.Valid, PhysMem.Live, Unshared, AllValid, Images, KeptOf, Prints;
    var w := WorldOf(spaces, held, mem.pages);
    if q in AllHeld(held) {
      var o :| o in held && q in held[o];
      assert o in w.kept;
      if o.Stack? {
        assert o == Stack(o.h);
      } else if o.Husk? {
        assert o == Husk(o.h);
      } else {
        assert o == KernelSpace(o.n);
      }
    } else {
      assert InSomePrint(Prints(spaces), q);
      var h :| h in Prints(spaces) && q in Prints(spaces)[h];
      assert h in w.images;
    }
  }
}
