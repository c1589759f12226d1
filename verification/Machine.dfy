/**
 * Processes and their memory in one run.
 *
 * Fork copies the address space of the running process and takes two frames for the
 * child's kernel stack; exec puts a new space in the place of the old one; exit gives
 * the frames of all pages back and leaves the page table; collecting a child frees
 * the frames of that page table and of the kernel stack.
 */
module Machine {
  import opened Basics
  import opened LittleEndian
  import opened PhysMemory
  import opened Sv39
  import opened AddressSpace
  import SR = SpaceRuns
  import opened Spaces
  import opened SystemRuns
  import PS = ProcessState
  import PI = ProcessInvariant
  import KP = KernelProcesses
  import PR = ProcessRuns
  import PM = PipeMemory

  /** The page of the trap context, just below the trampoline. */
  const TRAP_VPN := TRAMPOLINE_VPN - 1
  const STACK_PAGES := 2

  /** The trap context of a forked child: register a0 is zero, and the kernel stack is its own. */
  function ForkedTrap(page: Page, pid: nat): Page {
    SetWord(SetWord(page, 80, 8, 0), 280, 8, PS.StackTop(pid) % PS.USIZE)
  }

  /** An exit code stored at `off`. */
  function WithCode(page: Page, off: nat, code: int): Page
    requires off + 4 <= PAGE_SIZE
  {
    SetWord(page, off, 4, code % 0x1_0000_0000)
  }

  datatype MachineOp =
    | Call(call: PS.Op)                      // any but waitpid
    | Collect(pid: int, ptr: nat)            // waitpid, with the place for the exit code
    | Change(change: SR.SpaceOp)             // the running process changes its areas
    | Write(v: nat, page: Page)              // the running process writes to a page
    | Exec(areas: seq<SR.SpaceOp>)
    | Own(step: SystemOp)                    // the kernel uses frames of its own

  predicate Lives(s: PS.KState, h: PS.Handle) {
    h in s.procs && s.procs[h].status != PS.Zombie
  }

  predicate Ended(s: PS.KState, h: PS.Handle) {
    h in s.procs && s.procs[h].status == PS.Zombie
  }

  /** Processes that have not ended have an address space, ended ones have left their
      page table, and each has a kernel stack of two pages. */
  ghost predicate Joined(s: PS.KState, w: World) {
    && (forall h: nat :: h in w.images <==> Lives(s, h))
    && (forall h: nat :: Husk(h) in w.kept <==> Ended(s, h))
    && (forall h: nat :: Stack(h) in w.kept <==> h in s.procs)
    && (forall h: nat :: Stack(h) in w.kept ==> w.kept[Stack(h)].Pages? && |w.kept[Stack(h)].pages| == STACK_PAGES)
    && (forall h :: h in w.images ==> TRAP_VPN in w.images[h].bytes)
  }

  /** Some process runs and has not ended. */
  predicate Acts(s: PS.KState) {
    PS.Runs(s) && Lives(s, s.current.value)
  }

  lemma RunningLives(s: PS.KState)
    requires PS.Inv(s)
    ensures Acts(s) <==> PS.Runs(s)
  {
    hide PS.TreeInv, PS.PidInv, PS.PoolInv, PS.HistoryInv, PS.StackMap, PS.Waiting;
  }

  /** The child a waitpid collects, if any. */
  function Collectable(s: PS.KState, pid: int): (r: Option<PS.Handle>)
    ensures r.Some? ==> Ended(s, r.value)
  {
    if !PS.Runs(s) || !PS.KidsKnown(s) then None
    else
      var kids := s.procs[s.current.value].children;
      var i := PS.FirstEnded(s.procs, kids, pid);
      if i < |kids| then Some(kids[i]) else None
  }

  function PageOfPtr(ptr: nat): nat { ptr % 0x80_0000_0000 / PAGE_SIZE }

  /** What a caller has to see to: ranges are free, pages are there, the trap context stays. */
  ghost predicate Allowed(s: PS.KState, w: World, j: MachineOp)
    requires Joined(s, w)
  {
    match j
    case Call(op) => !op.Wait?
    case Collect(pid, ptr) =>
      Acts(s) && Collectable(s, pid).Some? ==> ptr % 4 == 0 && PageOfPtr(ptr) in w.images[s.current.value].bytes
    case Change(o) =>
      Acts(s) ==> var im := w.images[s.current.value];
                  SR.Enabled(im.regions, o) && TRAP_VPN in SR.ApplyBytes(im.bytes, im.regions, o)
    case Write(v, _) => Acts(s) ==> v in w.images[s.current.value].bytes
    case Exec(areas) => SR.RunEnabled([], areas) && TRAP_VPN in SR.RunBytes(map[], [], areas)
    case Own(op) =>
      && Possible(w, op)
      && (op.KernelStore? || (op.KernelTake? && op.o.KernelSpace?) || (op.KernelGive? && op.o.KernelSpace?))
  }

  function Changes(k: nat, areas: seq<SR.SpaceOp>): seq<SystemOp> {
    if areas == [] then [] else [ChangeSpace(k, areas[0])] + Changes(k, areas[1..])
  }

  /** A new space with its areas. */
  function Load(k: nat, areas: seq<SR.SpaceOp>): seq<SystemOp> {
    [NewSpace(k)] + Changes(k, areas)
  }

  function ForkOps(me: PS.Handle, child: PS.Handle, pid: nat, trap: Page): seq<SystemOp> {
    [CopySpace(me, child), KernelTake(Stack(child), STACK_PAGES), StorePage(child, TRAP_VPN, ForkedTrap(trap, pid))]
  }

  /** What a step does to memory. */
  ghost function MemoryOps(s: PS.KState, w: World, j: MachineOp): seq<SystemOp>
    requires Joined(s, w) && Allowed(s, w, j)
  {
    if j.Own? then [j.step]
    else if !Acts(s) then []
    else
      var me := s.current.value;
      match j
      case Call(op) =>
        if op.Fork? then ForkOps(me, s.nextHandle, PS.AllocatedPid(s.pids), w.images[me].bytes[TRAP_VPN])
        else if op.Exit? && s.procs[me].pid != 0 then [ExitSpace(me)]
        else []
      case Collect(pid, ptr) =>
        var r := Collectable(s, pid);
        if r.None? then []
        else
          var v := PageOfPtr(ptr);
          [StorePage(me, v, WithCode(w.images[me].bytes[v], ptr % PAGE_SIZE, s.procs[r.value].exitCode)),
           KernelGive(Stack(r.value)), KernelGive(Husk(r.value))]
      case Change(o) => [ChangeSpace(me, o)]
      case Write(v, page) => [StorePage(me, v, page)]
      case Exec(areas) => Load(s.nextHandle, areas) + [ReplaceSpace(me, s.nextHandle)]
  }

  /** What a step does to the processes. */
  function After(s: PS.KState, j: MachineOp): PS.KState {
    match j
    case Call(op) => PS.Step(s, op)
    case Collect(pid, _) => PS.Step(s, PS.Wait(pid))
    case _ => s
  }

  // ---- Every step keeps processes and memory together ----

  ghost predicate SameLives(s: PS.KState, t: PS.KState) {
    && t.procs.Keys == s.procs.Keys
    && forall h :: h in s.procs ==> (t.procs[h].status == PS.Zombie <==> s.procs[h].status == PS.Zombie)
  }

  lemma SameJoined(s: PS.KState, t: PS.KState, w: World)
    requires Joined(s, w) && SameLives(s, t)
    ensures Joined(t, w)
  {
    assert forall h: nat :: (h in t.procs <==> h in s.procs) && (Lives(t, h) <==> Lives(s, h))
                            && (Ended(t, h) <==> Ended(s, h));
  }

  lemma QuietStep(s: PS.KState, op: PS.Op)
    requires PS.Inv(s) && (op.Schedule? || op.Suspend? || op.Open?)
    ensures SameLives(s, PS.Step(s, op))
  {
    hide PS.TreeInv, PS.PidInv, PS.PoolInv, PS.HistoryInv, PS.StackMap, PS.Enqueued, PS.WithFile;
    ReadyLives(s);
  }

  /** Who waits in a queue has not ended. */
  lemma ReadyLives(s: PS.KState)
    requires PS.Inv(s)
    ensures var q := PS.FirstReady(s.queues); q < |s.queues| ==> Lives(s, s.queues[q][0])
  {
    hide PS.TreeInv, PS.PidInv, PS.PoolInv, PS.HistoryInv, PS.StackMap;
    var q := PS.FirstReady(s.queues);
    if q < |s.queues| && !PS.IsReady(s.procs, s.queues[q][0]) {
      PR.NotWaiting(s.queues, s.queues[q][0], q, 0);
    }
  }

  lemma NextIsNew(s: PS.KState)
    requires PS.Inv(s)
    ensures s.nextHandle !in s.procs
  {
    hide PS.TreeInv, PS.SchedInv, PS.PidInv, PS.PoolInv, PS.StackMap;
  }

  /** Who lives and who has ended in `t`, beside `s`. */
  ghost predicate Relives(s: PS.KState, t: PS.KState, born: set<nat>, ended: set<nat>, gone: set<nat>) {
    forall h: nat ::
      && (h in t.procs <==> (h in s.procs || h in born) && h !in gone)
      && (Lives(t, h) <==> (Lives(s, h) || h in born) && h !in ended)
      && (Ended(t, h) <==> (Ended(s, h) || h in ended) && h !in gone)
  }

  /** The memory of a child: that of its parent, but for two words of the trap context. */
  ghost function ForkImage(im: Image, pid: nat): Image
    requires TRAP_VPN in im.bytes
  {
    StoreImage(im, TRAP_VPN, ForkedTrap(im.bytes[TRAP_VPN], pid))
  }

  ghost function ForkWorld(w: World, me: nat, c: nat, pid: nat): World
    requires me in w.images && TRAP_VPN in w.images[me].bytes
  {
    World(w.images[c := ForkImage(w.images[me], pid)],
          w.kept[Stack(c) := Pages(seq(STACK_PAGES, i => ZeroPage()))])
  }

  lemma ForkRun(w: World, me: nat, c: nat, pid: nat)
    requires me in w.images && c !in w.images && Stack(c) !in w.kept && TRAP_VPN in w.images[me].bytes
    ensures var ops := ForkOps(me, c, pid, w.images[me].bytes[TRAP_VPN]);
            RunPossible(w, ops) && RunEffect(w, ops) == ForkWorld(w, me, c, pid)
  {
    hide RunPossible, RunEffect, ForkedTrap, ZeroPage;
    var ops := ForkOps(me, c, pid, w.images[me].bytes[TRAP_VPN]);
    ThreeCost(w, ops[0], ops[1], ops[2]);
    assert RunEffect(w, ops).images == ForkWorld(w, me, c, pid).images;
  }

  lemma ForkLives(s: PS.KState)
    requires Acts(s)
    ensures Relives(s, PS.Step(s, PS.Fork), {s.nextHandle}, {}, {}) || s.nextHandle in s.procs
  {
    hide PS.AllocatedPid, PS.AfterAlloc, PS.Enqueued;
  }

  lemma ForkJoined(s: PS.KState, w: World)
    requires PS.Inv(s) && Joined(s, w) && Acts(s)
    ensures var ops := MemoryOps(s, w, Call(PS.Fork));
            && RunPossible(w, ops)
            && RunEffect(w, ops) == ForkWorld(w, s.current.value, s.nextHandle, PS.AllocatedPid(s.pids))
            && Joined(PS.Step(s, PS.Fork), RunEffect(w, ops))
  {
    hide PS.Inv, PS.AllocatedPid, ForkImage, ForkOps, PS.Step, RunPossible, RunEffect, ZeroPage;
    var me, c := s.current.value, s.nextHandle;
    NextIsNew(s);
    assert !Lives(s, c);
    ForkRun(w, me, c, PS.AllocatedPid(s.pids));
    ForkLives(s);
    assert TRAP_VPN in ForkImage(w.images[me], PS.AllocatedPid(s.pids)).bytes by {
      TrapStays(w.images[me], PS.AllocatedPid(s.pids));
    }
  }

  lemma TrapStays(im: Image, pid: nat)
    requires TRAP_VPN in im.bytes
    ensures TRAP_VPN in ForkImage(im, pid).bytes && ForkImage(im, pid).regions == im.regions
  {
    hide ForkedTrap;
  }

  lemma ExitLives(s: PS.KState, code: int)
    requires Acts(s) && s.procs[s.current.value].pid != 0
    ensures Relives(s, PS.Step(s, PS.Exit(code)), {}, {s.current.value}, {})
  {
  }

  lemma ExitJoined(s: PS.KState, w: World, code: int)
    requires PS.Inv(s) && Joined(s, w) && Acts(s) && s.procs[s.current.value].pid != 0
    ensures var ops := [ExitSpace(s.current.value)];
            && RunPossible(w, ops)
            && RunEffect(w, ops) == World(w.images - {s.current.value}, w.kept[Husk(s.current.value) := Tables])
            && Joined(PS.Step(s, PS.Exit(code)), RunEffect(w, ops))
  {
    hide PS.Inv, PS.Step, RunPossible, RunEffect, Relives;
    var me := s.current.value;
    assert !Ended(s, me);
    SingleCost(w, ExitSpace(me));
    ExitLives(s, code);
    AfterExit(s, PS.Step(s, PS.Exit(code)), w, me);
  }

  lemma AfterExit(s: PS.KState, t: PS.KState, w: World, me: nat)
    requires Joined(s, w) && Lives(s, me) && Relives(s, t, {}, {me}, {})
    ensures Joined(t, World(w.images - {me}, w.kept[Husk(me) := Tables]))
  {
    hide Lives, Ended;
  }

  lemma CollectLives(s: PS.KState, pid: int)
    requires Acts(s) && Collectable(s, pid).Some?
    ensures Collectable(s, pid).value != s.current.value
    ensures Relives(s, PS.Step(s, PS.Wait(pid)), {}, {}, {Collectable(s, pid).value})
  {
    hide PS.FirstEnded, PS.StackBottom;
    assert Ended(s, Collectable(s, pid).value);
  }

  ghost function CollectWorld(w: World, me: nat, c: nat, v: nat, page: Page): World
    requires me in w.images
  {
    World(w.images[me := StoreImage(w.images[me], v, page)], w.kept - {Stack(c)} - {Husk(c)})
  }

  lemma CollectRun(w: World, me: nat, c: nat, v: nat, page: Page)
    requires me in w.images && v in w.images[me].bytes && Stack(c) in w.kept && Husk(c) in w.kept
    ensures var ops := [StorePage(me, v, page), KernelGive(Stack(c)), KernelGive(Husk(c))];
            RunPossible(w, ops) && RunEffect(w, ops) == CollectWorld(w, me, c, v, page)
  {
    hide RunPossible, RunEffect;
    ThreeCost(w, StorePage(me, v, page), KernelGive(Stack(c)), KernelGive(Husk(c)));
  }

  lemma CollectJoined(s: PS.KState, w: World, pid: int, ptr: nat)
    requires PS.Inv(s) && Joined(s, w) && Acts(s) && Collectable(s, pid).Some? && Allowed(s, w, Collect(pid, ptr))
    ensures var ops, c := MemoryOps(s, w, Collect(pid, ptr)), Collectable(s, pid).value;
            && c != s.current.value
            && RunPossible(w, ops) && |ops| == 3 && ops[0].StorePage?
            && RunEffect(w, ops) == CollectWorld(w, s.current.value, c, PageOfPtr(ptr), ops[0].page)
            && Joined(PS.Step(s, PS.Wait(pid)), RunEffect(w, ops))
  {
    hide PS.Inv, PS.Step, WithCode, RunPossible, RunEffect, Collectable;
    var ops, c := MemoryOps(s, w, Collect(pid, ptr)), Collectable(s, pid).value;
    assert Ended(s, c);
    CollectRun(w, s.current.value, c, PageOfPtr(ptr), ops[0].page);
    CollectLives(s, pid);
  }

  lemma {:induction false} ChangesRun(w: World, k: nat, areas: seq<SR.SpaceOp>)
    requires k in w.images && SR.RunEnabled(w.images[k].regions, areas)
    ensures RunPossible(w, Changes(k, areas))
    ensures var im := w.images[k];
            RunEffect(w, Changes(k, areas))
            == w.(images := w.images[k := Image(SR.Run(im.regions, areas), SR.RunBytes(im.bytes, im.regions, areas))])
    decreases |areas|
  {
    hide SR.Apply, SR.ApplyBytes, SR.Enabled;
    if areas == [] {
      assert w.images[k := w.images[k]] == w.images;
    } else {
      var op := ChangeSpace(k, areas[0]);
      var w1 := Effect(w, op);
      ChangesRun(w1, k, areas[1..]);
      assert Changes(k, areas)[1..] == Changes(k, areas[1..]);
      var last := RunEffect(w1, Changes(k, areas[1..]));
      assert last.images == w.images[k := last.images[k]];
    }
  }

  /** What a new space holds. */
  ghost function Loaded(areas: seq<SR.SpaceOp>): Image
    requires SR.RunEnabled([], areas)
  {
    Image(SR.Run([], areas), SR.RunBytes(map[], [], areas))
  }

  lemma LoadRun(w: World, k: nat, areas: seq<SR.SpaceOp>)
    requires k !in w.images && SR.RunEnabled([], areas)
    ensures RunPossible(w, Load(k, areas)) && RunEffect(w, Load(k, areas)) == w.(images := w.images[k := Loaded(areas)])
  {
    var w1 := Effect(w, NewSpace(k));
    ChangesRun(w1, k, areas);
    assert Load(k, areas)[1..] == Changes(k, areas);
    assert w1.images[k := Loaded(areas)] == w.images[k := Loaded(areas)];
  }

  lemma ExecRun(w: World, me: nat, t: nat, areas: seq<SR.SpaceOp>)
    requires me in w.images && t !in w.images && SR.RunEnabled([], areas)
    ensures var ops := Load(t, areas) + [ReplaceSpace(me, t)];
            RunPossible(w, ops) && RunEffect(w, ops) == w.(images := w.images[me := Loaded(areas)])
  {
    hide Load, Loaded, SR.RunEnabled, RunPossible, RunEffect, TotalCost;
    LoadRun(w, t, areas);
    var w1 := RunEffect(w, Load(t, areas));
    SingleCost(w1, ReplaceSpace(me, t));
    RunConcat(w, Load(t, areas), [ReplaceSpace(me, t)]);
    assert (w1.images - {t})[me := w1.images[t]] == w.images[me := Loaded(areas)];
  }

  lemma CanLoad(s: PS.KState, w: World, areas: seq<SR.SpaceOp>)
    requires Joined(s, w) && Allowed(s, w, Exec(areas))
    ensures SR.RunEnabled([], areas)
  {
  }

  lemma ExecJoined(s: PS.KState, w: World, areas: seq<SR.SpaceOp>)
    requires PS.Inv(s) && Joined(s, w) && Acts(s)
    requires SR.RunEnabled([], areas) && Allowed(s, w, Exec(areas))
    ensures var ops := MemoryOps(s, w, Exec(areas));
            && RunPossible(w, ops)
            && RunEffect(w, ops) == w.(images := w.images[s.current.value := Loaded(areas)])
            && Joined(s, RunEffect(w, ops))
  {
    hide PS.Inv, Load, SR.Run, SR.RunBytes, SR.RunEnabled, RunPossible, RunEffect;
    NextIsNew(s);
    assert !Lives(s, s.nextHandle);
    ExecRun(w, s.current.value, s.nextHandle, areas);
  }

  /** The kernel on its own frames. */
  lemma OwnJoined(s: PS.KState, w: World, op: SystemOp)
    requires Joined(s, w) && Allowed(s, w, Own(op))
    ensures var ops := MemoryOps(s, w, Own(op));
            && RunPossible(w, ops) && Joined(s, RunEffect(w, ops)) && RunEffect(w, ops).images == w.images
  {
    hide RunPossible, RunEffect, TotalCost, ZeroPage, Lives, Ended;
    SingleCost(w, op);
  }

  /** The running process on its own memory. */
  lemma MineJoined(s: PS.KState, w: World, j: MachineOp)
    requires Joined(s, w) && Allowed(s, w, j) && Acts(s) && (j.Change? || j.Write?)
    ensures var ops := MemoryOps(s, w, j);
            && RunPossible(w, ops) && Joined(s, RunEffect(w, ops))
            && var im, me := w.images[s.current.value], s.current.value;
               RunEffect(w, ops)
               == w.(images := w.images[me := if j.Change? then ApplyImage(im, j.change)
                                              else im.(bytes := im.bytes[j.v := j.page])])
  {
    hide RunPossible, RunEffect, TotalCost, Ended, SR.Enabled, SR.ApplyBytes, SR.Apply;
    SingleCost(w, MemoryOps(s, w, j)[0]);
  }

  /** Fork, exit and waitpid always find the memory they need to work on, and every step
      keeps processes and memory together. */
  lemma StepJoined(s: PS.KState, w: World, j: MachineOp)
    requires PS.Inv(s) && Joined(s, w) && Allowed(s, w, j)
    ensures PS.Inv(After(s, j))
    ensures RunPossible(w, MemoryOps(s, w, j)) && Joined(After(s, j), RunEffect(w, MemoryOps(s, w, j)))
  {
    hide PS.Inv, PS.Step, Joined, Allowed, RunPossible, RunEffect, Collectable, ForkOps, Load;
    RunningLives(s);
    KernelStep(s, j);
    if j.Own? {
      OwnJoined(s, w, j.step);
    } else if !Acts(s) {
      StaysJoined(s, w, j);
    } else if j.Change? || j.Write? {
      MineJoined(s, w, j);
    } else if j.Exec? {
      CanLoad(s, w, j.areas);
      ExecJoined(s, w, j.areas);
    } else if j.Collect? {
      if Collectable(s, j.pid).Some? {
        CollectJoined(s, w, j.pid, j.ptr);
      } else {
        StaysJoined(s, w, j);
      }
    } else if j.call.Fork? {
      ForkJoined(s, w);
    } else if j.call.Exit? && s.procs[s.current.value].pid != 0 {
      ExitJoined(s, w, j.call.code);
    } else {
      StaysJoined(s, w, j);
    }
  }

  lemma KernelStep(s: PS.KState, j: MachineOp)
    requires PS.Inv(s)
    ensures PS.Inv(After(s, j))
  {
    hide PS.Inv, PS.Step;
    if j.Call? {
      PI.StepKeeps(s, j.call);
    } else if j.Collect? {
      PI.StepKeeps(s, PS.Wait(j.pid));
    }
  }

  /** Steps that neither create nor end nor collect a process. */
  lemma StaysJoined(s: PS.KState, w: World, j: MachineOp)
    requires PS.Inv(s) && Joined(s, w) && Allowed(s, w, j)
    requires !Acts(s) || (j.Collect? && Collectable(s, j.pid).None?)
          || (j.Call? && !j.call.Fork? && (j.call.Exit? ==> s.procs[s.current.value].pid == 0))
    requires !j.Own?
    ensures MemoryOps(s, w, j) == [] && RunPossible(w, []) && RunEffect(w, []) == w && Joined(After(s, j), w)
  {
    hide PS.Inv, Joined, PS.FirstEnded, PS.Enqueued, PS.WithFile, PS.FirstReady, PS.ScheduleStep;
    RunningLives(s);
    if j.Call? && (j.call.Schedule? || j.call.Suspend? || j.call.Open?) {
      QuietStep(s, j.call);
    }
    assert SameLives(s, After(s, j));
    SameJoined(s, After(s, j), w);
  }

  // ---- Runs ----

  ghost predicate Runnable(s: PS.KState, w: World, js: seq<MachineOp>)
    requires PS.Inv(s) && Joined(s, w)
    decreases |js|
  {
    js == [] || (Allowed(s, w, js[0]) && (StepJoined(s, w, js[0]);
                 Runnable(After(s, js[0]), RunEffect(w, MemoryOps(s, w, js[0])), js[1..])))
  }

  ghost function RunWorld(s: PS.KState, w: World, js: seq<MachineOp>): World
    requires PS.Inv(s) && Joined(s, w) && Runnable(s, w, js)
    decreases |js|
  {
    if js == [] then w
    else
      StepJoined(s, w, js[0]);
      RunWorld(After(s, js[0]), RunEffect(w, MemoryOps(s, w, js[0])), js[1..])
  }

  function RunState(s: PS.KState, js: seq<MachineOp>): PS.KState
    decreases |js|
  {
    if js == [] then s else RunState(After(s, js[0]), js[1..])
  }

  /** Free frames that are enough for a run. */
  ghost function Frames(s: PS.KState, w: World, js: seq<MachineOp>): (n: int)
    requires PS.Inv(s) && Joined(s, w) && Runnable(s, w, js)
    decreases |js|
  {
    if js == [] then 0
    else
      StepJoined(s, w, js[0]);
      var ops := MemoryOps(s, w, js[0]);
      var rest := TotalCost(w, ops) + Frames(After(s, js[0]), RunEffect(w, ops), js[1..]);
      if rest < SystemNeeded(w, ops) then SystemNeeded(w, ops) else rest
  }

  // ---- Isolation ----

  /** While another process runs, the memory of a process stays what it is. */
  lemma StepIsolated(s: PS.KState, w: World, j: MachineOp, h: PS.Handle)
    requires PS.Inv(s) && Joined(s, w) && Allowed(s, w, j) && Lives(s, h) && s.current != Some(h)
    ensures Lives(After(s, j), h)
    ensures RunPossible(w, MemoryOps(s, w, j))
    ensures var r := RunEffect(w, MemoryOps(s, w, j)); h in r.images && r.images[h] == w.images[h]
  {
    hide PS.Inv, PS.Step, Allowed, RunPossible, RunEffect, Collectable, ForkOps, Load, ForkImage;
    RunningLives(s);
    StepJoined(s, w, j);
    NextIsNew(s);
    if j.Own? {
      OwnJoined(s, w, j.step);
    } else if !Acts(s) {
      StaysJoined(s, w, j);
    } else if j.Change? || j.Write? {
      MineJoined(s, w, j);
    } else if j.Exec? {
      CanLoad(s, w, j.areas);
      ExecJoined(s, w, j.areas);
    } else if j.Collect? {
      if Collectable(s, j.pid).Some? {
        CollectJoined(s, w, j.pid, j.ptr);
      } else {
        StaysJoined(s, w, j);
      }
    } else if j.call.Fork? {
      ForkJoined(s, w);
    } else if j.call.Exit? && s.procs[s.current.value].pid != 0 {
      ExitJoined(s, w, j.call.code);
    } else {
      StaysJoined(s, w, j);
    }
  }

  /** `h` is never the running process. */
  ghost predicate Sleeps(s: PS.KState, js: seq<MachineOp>, h: PS.Handle)
    decreases |js|
  {
    js == [] || (s.current != Some(h) && Sleeps(After(s, js[0]), js[1..], h))
  }

  /** Isolation over all runs: a process finds its areas and every byte of its memory as it
      left them, whatever the others and the kernel did in the meantime. */
  lemma {:induction false} MemoryKept(s: PS.KState, w: World, js: seq<MachineOp>, h: PS.Handle)
    requires PS.Inv(s) && Joined(s, w) && Runnable(s, w, js) && Lives(s, h) && Sleeps(s, js, h)
    ensures Lives(RunState(s, js), h) && h in w.images
    ensures h in RunWorld(s, w, js).images && RunWorld(s, w, js).images[h] == w.images[h]
    decreases |js|
  {
    hide PS.Inv, After, Allowed, RunPossible, RunEffect, MemoryOps, Lives;
    LivesHere(s, w, h);
    if js != [] {
      StepJoined(s, w, js[0]);
      StepIsolated(s, w, js[0], h);
      MemoryKept(After(s, js[0]), RunEffect(w, MemoryOps(s, w, js[0])), js[1..], h);
    }
  }

  lemma LivesHere(s: PS.KState, w: World, h: PS.Handle)
    requires Joined(s, w)
    ensures Lives(s, h) <==> h in w.images
    ensures Lives(s, h) ==> TRAP_VPN in w.images[h].bytes
  {
  }

  /** The two words a forked child's trap context differs in. */
  lemma ForkedTrapWords(page: Page, pid: nat, off: nat)
    requires off % 8 == 0 && off + 8 <= PAGE_SIZE
    ensures Word(ForkedTrap(page, pid), off, 8)
         == if off == 80 then 0 else if off == 280 then PS.StackTop(pid) % PS.USIZE else Word(page, off, 8)
  {
    hide SetWord, Word;
    Pow256Values();
    var top := PS.StackTop(pid) % PS.USIZE;
    var p1 := SetWord(page, 80, 8, 0);
    if off == 280 {
      WordOfSetWord(p1, 280, 8, top);
    } else {
      OtherWordOfSetWord(p1, 280, 8, top, off, 8);
      if off == 80 {
        WordOfSetWord(page, 80, 8, 0);
      } else {
        OtherWordOfSetWord(page, 80, 8, 0, off, 8);
      }
    }
  }

  /** `waitpid` leaves the child's exit code where the caller asked for it, in four bytes with
      the lowest first, and every other byte of the caller's memory as it was. */
  lemma ExitCodeStored(s: PS.KState, w: World, pid: int, ptr: nat)
    requires PS.Inv(s) && Joined(s, w) && Acts(s) && Collectable(s, pid).Some? && Allowed(s, w, Collect(pid, ptr))
    ensures var ops, me := MemoryOps(s, w, Collect(pid, ptr)), s.current.value;
            var va, code := ptr % 0x80_0000_0000, s.procs[Collectable(s, pid).value].exitCode;
            && RunPossible(w, ops) && me in w.images && me in RunEffect(w, ops).images
            && var im, after := w.images[me], RunEffect(w, ops).images[me];
               && after.regions == im.regions && after.bytes.Keys == im.bytes.Keys
               && PM.Mapped(im, va, 4)
               && forall x: nat :: PM.Vpn(x) in im.bytes ==>
                    PM.ByteAt(after, x) == if va <= x < va + 4 then code % 0x1_0000_0000 / Pow256(x - va) % 256
                                           else PM.ByteAt(im, x)
  {
    hide PS.Inv, PS.Step, RunPossible, RunEffect, Collectable, PM.ByteAt, PM.Vpn, PM.Mapped, WithCode,
      PageOfPtr, StoreImage;
    CollectJoined(s, w, pid, ptr);
    CodeAt(w.images[s.current.value], ptr, s.procs[Collectable(s, pid).value].exitCode);
  }

  lemma CodeAt(im: Image, ptr: nat, code: int)
    requires ptr % 4 == 0 && PageOfPtr(ptr) in im.bytes
    ensures ptr % PAGE_SIZE + 4 <= PAGE_SIZE
    ensures var va, v := ptr % 0x80_0000_0000, PageOfPtr(ptr);
            var after := StoreImage(im, v, WithCode(im.bytes[v], ptr % PAGE_SIZE, code));
            && after.regions == im.regions && after.bytes.Keys == im.bytes.Keys
            && PM.Mapped(im, va, 4)
            && forall x: nat :: PM.Vpn(x) in im.bytes ==>
                 PM.ByteAt(after, x) == if va <= x < va + 4 then code % 0x1_0000_0000 / Pow256(x - va) % 256
                                        else PM.ByteAt(im, x)
  {
    hide Pow256, WithCode, PageOfPtr;
    var va, off := ptr % 0x80_0000_0000, ptr % PAGE_SIZE;
    var v: nat := PageOfPtr(ptr);
    InOnePage(ptr);
    var after := StoreImage(im, v, WithCode(im.bytes[v], off, code));
    forall x: nat | PM.Vpn(x) in im.bytes
      ensures PM.ByteAt(after, x) == if va <= x < va + 4 then code % 0x1_0000_0000 / Pow256(x - va) % 256
                                     else PM.ByteAt(im, x)
    {
      SamePlace(v, off, va, x);
      if PM.Vpn(x) == v {
        CodeInPage(im.bytes[v], off, code, x % PAGE_SIZE);
      }
    }
    forall x | va <= x < va + 4 ensures PM.Vpn(x) == v {
      SamePlace(v, off, va, x);
    }
  }

  lemma InOnePage(ptr: nat)
    requires ptr % 4 == 0
    ensures var va, off := ptr % 0x80_0000_0000, ptr % PAGE_SIZE;
            va == PageOfPtr(ptr) * PAGE_SIZE + off && off + 4 <= PAGE_SIZE
  {
    var va := ptr % 0x80_0000_0000;
    assert ptr == 0x800_0000 * (ptr / 0x80_0000_0000) * PAGE_SIZE + va;
    LowBits(0x800_0000 * (ptr / 0x80_0000_0000), va);
    assert va == va / PAGE_SIZE * PAGE_SIZE + va % PAGE_SIZE;
    FourAligned(ptr);
  }

  lemma LowBits(q: nat, va: nat)
    ensures (q * PAGE_SIZE + va) % PAGE_SIZE == va % PAGE_SIZE
  {
  }

  lemma FourAligned(p: nat)
    requires p % 4 == 0
    ensures p % PAGE_SIZE + 4 <= PAGE_SIZE
  {
    assert p == p / PAGE_SIZE * PAGE_SIZE + p % PAGE_SIZE;
  }

  lemma SamePlace(v: nat, off: nat, va: nat, x: nat)
    requires va == v * PAGE_SIZE + off && off + 4 <= PAGE_SIZE
    ensures va <= x < va + 4 <==> PM.Vpn(x) == v && off <= x % PAGE_SIZE < off + 4
    ensures PM.Vpn(x) == v ==> x - va == x % PAGE_SIZE - off
  {
    assert x == x / PAGE_SIZE * PAGE_SIZE + x % PAGE_SIZE;
  }

  lemma CodeInPage(page: Page, off: nat, code: int, i: nat)
    requires off + 4 <= PAGE_SIZE && i < PAGE_SIZE
    ensures WithCode(page, off, code)[i]
         == if off <= i < off + 4 then code % 0x1_0000_0000 / Pow256(i - off) % 256 else page[i]
  {
    hide Encode, Pow256;
    if off <= i < off + 4 {
      EncodeAt(code % 0x1_0000_0000, 4, i - off);
    }
  }

  /** When the child runs for the first time, it finds the memory its parent had at the
      fork, whatever the parent has written since. */
  lemma ChildSeesFork(s: PS.KState, w: World, js: seq<MachineOp>)
    requires PS.Inv(s) && Joined(s, w) && Acts(s) && Runnable(s, w, [Call(PS.Fork)] + js)
    requires Sleeps(After(s, Call(PS.Fork)), js, s.nextHandle)
    ensures s.current.value in w.images && TRAP_VPN in w.images[s.current.value].bytes
    ensures s.nextHandle in RunWorld(s, w, [Call(PS.Fork)] + js).images
    ensures RunWorld(s, w, [Call(PS.Fork)] + js).images[s.nextHandle]
         == ForkImage(w.images[s.current.value], PS.AllocatedPid(s.pids))
  {
    hide PS.Inv, Joined, After, Allowed, RunPossible, RunEffect, MemoryOps, Lives, ForkImage, PS.AllocatedPid;
    var f := Call(PS.Fork);
    assert ([f] + js)[1..] == js;
    LivesHere(s, w, s.current.value);
    StepJoined(s, w, f);
    ForkJoined(s, w);
    var t, r := After(s, f), RunEffect(w, MemoryOps(s, w, f));
    LivesHere(t, r, s.nextHandle);
    MemoryKept(t, r, js, s.nextHandle);
  }
}
