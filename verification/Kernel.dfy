/**
 * The kernel's process operations on its global variables.
 *
 * Each method is the code path of one call; its contract is the step of `ProcessState`.
 */
module KernelProcesses {
  import opened Basics
  import opened ProcessState
  import opened ProcessInvariant
  import opened ProcessSteps

  class Kernel {
    var procs: map<Handle, Pcb>
    var queues: seq<seq<Handle>>
    var current: Option<Handle>
    var byPid: map<nat, Handle>
    var pidNext: nat
    var pidRecycled: seq<nat>
    var stacks: map<int, int>
    var nextHandle: Handle
    var halted: bool
    ghost var owner: map<nat, Handle>
    ghost var exited: map<Handle, int>
    ghost var collected: seq<Handle>

    ghost function State(): KState
      reads this
    {
      KState(procs, queues, current, byPid, Pids(pidNext, pidRecycled), stacks, nextHandle, halted,
             owner, exited, collected)
    }

    /** The initial process has been created and put into the first queue. */
    constructor ()
      ensures State() == Boot() && Inv(State())
      ensures procs.Keys == {INIT} && procs[INIT].pid == 0 && procs[INIT].status == Ready && procs[INIT].parent == None
      ensures procs[INIT].fds == [Some(0), Some(1), Some(2)] && queues[0] == [INIT] && current == None && !halted
    {
      procs := map[INIT := Pcb(0, Ready, None, [], 0, [Some(0), Some(1), Some(2)])];
      queues := [[INIT], [], [], []];
      current := None;
      byPid := map[0 := INIT];
      pidNext, pidRecycled := 1, [];
      stacks := map[StackBottom(0) := StackTop(0)];
      nextHandle := 1;
      halted := false;
      owner := map[0 := INIT];
      exited := map[];
      collected := [];
      new;
      BootInv();
    }

    /** `fetch`: the head of the first queue that is not empty. */
    method Fetch() returns (r: Option<Handle>)
      modifies this`queues
      ensures var q := FirstReady(old(queues));
              if q == |old(queues)| then r == None && queues == old(queues)
              else r == Some(old(queues)[q][0]) && queues == old(queues)[q := old(queues)[q][1..]]
    {
      for i := 0 to |queues|
        invariant queues == old(queues)
        invariant forall j :: 0 <= j < i ==> queues[j] == []
      {
        if queues[i] != [] {
          r := Some(queues[i][0]);
          queues := queues[i := queues[i][1..]];
          return;
        }
      }
      return None;
    }

    /** `add_process`: the process waits once more than before, behind everybody else in the
        first queue; its identifier now finds it, and all others find whom they found. */
    method AddProcess(h: Handle)
      requires h in procs && queues != []
      modifies this`byPid, this`queues
      ensures byPid == old(byPid)[procs[h].pid := h] && queues == Enqueued(old(queues), h)
      ensures Waiting(queues) == old(Waiting(queues)) + multiset{h}
      ensures queues[0][|queues[0]| - 1] == h && old(queues[0]) < queues[0] && queues[1..] == old(queues[1..])
      ensures forall p :: p != procs[h].pid ==> (p in byPid <==> p in old(byPid))
      ensures forall p :: p in byPid ==> byPid[p] == if p == procs[h].pid then h else old(byPid)[p]
    {
      hide Waiting;
      WaitingEnqueued(queues, h);
      byPid := byPid[procs[h].pid := h];
      queues := queues[0 := queues[0] + [h]];
    }

    /** One turn of `run_process`: always finds a process. */
    method Schedule()
      requires Inv(State()) && !halted && current.None?
      modifies this
      ensures State() == ScheduleStep(old(State())) && Inv(State()) && Runs(State())
      ensures var q := FirstReady(old(queues));
              && q < |old(queues)| && current == Some(old(queues)[q][0])
              && procs[current.value].status == Running && [current.value] + queues[q] == old(queues)[q]
    {
      hide Inv, FirstReady;
      ghost var s := State();
      SomeoneReady(s);
      ScheduleMeans(s);
      ScheduleKeeps(s);
      var next := Fetch();
      procs := procs[next.value := procs[next.value].(status := Running)];
      current := next;
    }

    /** `suspend_current_and_run_next`. */
    method Suspend()
      requires Inv(State()) && Runs(State())
      modifies this
      ensures State() == SuspendStep(old(State())) && Inv(State())
      ensures current == None && queues != [] && old(queues) != [] && queues[0] == old(queues)[0] + [old(current.value)]
    {
      hide Inv, Enqueued, Waiting;
      SuspendKeeps(State());
      SuspendMeans(State());
      FourQueues(State());
      var h := current.value;
      current := None;
      procs := procs[h := procs[h].(status := Ready)];
      AddProcess(h);
    }

    /** `alloc`: the identifier is held by nobody, and the pool stays a pool whoever gets it. */
    method AllocPid(ghost holder: Handle) returns (pid: nat)
      requires PoolInv(Pids(pidNext, pidRecycled), owner)
      modifies this`pidNext, this`pidRecycled
      ensures pid !in owner && pid < pidNext && pid !in pidRecycled
      ensures PoolInv(Pids(pidNext, pidRecycled), owner[pid := holder])
      ensures pid == AllocatedPid(old(Pids(pidNext, pidRecycled)))
      ensures Pids(pidNext, pidRecycled) == AfterAlloc(old(Pids(pidNext, pidRecycled)))
    {
      hide PoolInv;
      AllocKeepsPool(Pids(pidNext, pidRecycled), owner, holder);
      if |pidRecycled| > 0 {
        pid := pidRecycled[|pidRecycled| - 1];
        pidRecycled := pidRecycled[..|pidRecycled| - 1];
      } else {
        pidNext := pidNext + 1;
        pid := pidNext - 1;
      }
    }

    /** `dealloc` of an identifier somebody holds: the two assertions hold, the pool stays a
        pool without the holder, and the next allocation hands the same identifier out
        and restores the allocator. */
    method DeallocPid(pid: nat)
      requires PoolInv(Pids(pidNext, pidRecycled), owner) && pid in owner
      modifies this`pidRecycled
      ensures pid < pidNext && pid !in old(pidRecycled)
      ensures PoolInv(Pids(pidNext, pidRecycled), owner - {pid})
      ensures AllocatedPid(Pids(pidNext, pidRecycled)) == pid
      ensures AfterAlloc(Pids(pidNext, pidRecycled)) == old(Pids(pidNext, pidRecycled))
      ensures pidRecycled == old(pidRecycled) + [pid]
    {
      FreeKeepsPool(Pids(pidNext, pidRecycled), owner, pid);
      pidRecycled := pidRecycled + [pid];
    }

    /** `ProcessControlBlock::fork`: a new identifier, a kernel stack, a copy of the
        descriptors, and the links between parent and child. */
    method NewChild() returns (child: Handle)
      requires Inv(State()) && Runs(State())
      modifies this
      ensures child == old(nextHandle) && State() == Spawned(old(State()))
    {
      hide Inv, AllocatedPid, AfterAlloc, StackBottom, StackTop, PoolInv, NoDup, Adopted;
      ghost var s := State();
      Newer(s);
      PoolOf(s);
      child := nextHandle;
      var me := current.value;
      var pid := AllocPid(child);
      stacks := stacks[StackBottom(pid) := StackTop(pid)];
      var fds := CopyTable(procs[me].fds);
      nextHandle := nextHandle + 1;
      LinkChild(me, child, Pcb(pid, Ready, Some(me), [], 0, fds));
      owner := owner[pid := child];
      ghost var t := Spawned(s);
      assert procs == t.procs && Pids(pidNext, pidRecycled) == t.pids && stacks == t.stacks && owner == t.owner;
    }

    /** `sys_fork`: the child is linked, queued and known by a new identifier. */
    method Fork() returns (newPid: nat)
      requires Inv(State()) && Runs(State())
      modifies this
      ensures State() == ForkStep(old(State())) && Inv(State())
      ensures newPid == AllocatedPid(old(State()).pids) && newPid !in old(owner)
      ensures old(nextHandle) in procs && old(nextHandle) !in old(procs) && current == old(current)
      ensures var me, child := current.value, procs[old(nextHandle)];
              && child.pid == newPid && child.parent == Some(me) && child.status == Ready && child.children == []
              && me in old(procs) && child.fds == old(procs)[me].fds
              && procs[me].children == old(procs)[me].children + [old(nextHandle)]
              && forall h :: h in old(procs) ==> old(procs)[h].pid != newPid
    {
      hide Inv, AllocatedPid, AfterAlloc, StackBottom, StackTop, Enqueued, Waiting;
      ghost var s := State();
      FourQueues(s);
      Newer(s);
      ForkKeeps(s);
      ForkMeans(s);
      NewPid(s);
      var child := NewChild();
      newPid := procs[child].pid;
      AddProcess(child);
    }

    method LinkChild(me: Handle, child: Handle, block: Pcb)
      requires me in procs && me != child
      modifies this`procs
      ensures procs == old(procs)[me := old(procs)[me].(children := old(procs)[me].children + [child])][child := block]
    {
      procs := procs[child := block];
      procs := procs[me := procs[me].(children := procs[me].children + [child])];
    }

    /** `exit_current_and_run_next`; the initial process does not return from it. */
    method Exit(code: int)
      requires Inv(State()) && Runs(State())
      modifies this
      ensures State() == ExitStep(old(State()), code) && Inv(State())
      ensures var me := old(current.value);
              && me in procs
              && (if old(procs)[me].pid == 0 then halted && procs == old(procs)
                  else && procs[me].status == Zombie && procs[me].exitCode == code && procs[me].children == []
                       && current == None && !halted)
    {
      hide Inv, ExitStep;
      ExitMeans(State(), code);
      Leave(code);
    }

    method Leave(code: int)
      requires Inv(State()) && Runs(State())
      modifies this
      ensures State() == ExitStep(old(State()), code) && Inv(State())
    {
      hide Inv, Adopted, NoDup;
      ghost var s := State();
      ExitKeeps(s, code);
      var me := current.value;
      var pid := procs[me].pid;
      if pid == 0 {
        halted := true;
        return;
      }
      Leaving(s);
      BecomeZombie(code);
      AdoptAll(procs[me].children);
      procs := procs[me := procs[me].(children := [])];
      AdoptedAndGone(s.procs, me, code);
    }

    /** The first half of exit: off the processor, out of the lookup table, with its code. */
    method BecomeZombie(code: int)
      requires Runs(State()) && procs[current.value].pid in byPid
      modifies this`current, this`byPid, this`procs, this`exited
      ensures var me := old(current.value);
              && current == None && byPid == old(byPid) - {old(procs)[me].pid}
              && procs == old(procs)[me := old(procs)[me].(status := Zombie, exitCode := code)]
              && exited == old(exited)[me := code]
    {
      var me := current.value;
      current := None;
      byPid := byPid - {procs[me].pid};
      procs := procs[me := procs[me].(status := Zombie, exitCode := code)];
      exited := exited[me := code];
    }

    /** The loop of exit over the orphans. */
    method AdoptAll(kids: seq<Handle>)
      requires INIT in procs && NoDup(kids) && forall c :: c in kids ==> c in procs && c != INIT
      modifies this`procs
      ensures procs == Adopted(old(procs), kids)
    {
      hide Adopted, NoDup;
      NobodyAdopted(procs, kids);
      for i := 0 to |kids|
        invariant procs == Adopted(old(procs), kids[..i])
      {
        AdoptOne(old(procs), kids, i);
        procs := procs[kids[i] := procs[kids[i]].(parent := Some(INIT))];
        procs := procs[INIT := procs[INIT].(children := procs[INIT].children + [kids[i]])];
      }
      assert kids[..|kids|] == kids;
    }

    /** `sys_waitpid`: -1 without a matching child, -2 while none of them has ended, else
        the identifier of the first one that has, with its exit code.  The conditions
        asserted on the way hold: nothing else refers to the collected child, and its
        identifier can be given back. */
    method Waitpid(pid: int) returns (r: int, code: int)
      requires Inv(State()) && Runs(State())
      modifies this
      ensures KidsKnown(old(State())) && State() == WaitStep(old(State()), pid) && Inv(State())
      ensures match WaitOutcome(old(State()), pid)
              case NoChild => r == -1
              case StillRunning => r == -2
              case Collected(id, c) => r == id && code == c
      ensures var kids := old(procs[current.value].children);
              && (forall c :: c in kids ==> c in old(procs))
              && (pid == -1 ==> (r == -1 <==> kids == []))
              && (pid >= 0 ==> (r == -1 <==> forall c :: c in kids ==> old(procs)[c].pid != pid))
              && (pid >= 0 && r >= 0 ==> r == pid)
              && (pid >= 0 ==> (r >= 0 <==> exists c :: c in kids && old(procs)[c].status == Zombie
                                                        && old(procs)[c].pid == pid))
    {
      hide Inv, FirstEnded, Removed, StackBottom, RefCount, Matches;
      ghost var s := State();
      Family(s);
      WaitMeans(s, pid);
      WaitKeeps(s, pid);
      code := 0;
      var me := current.value;
      var kids := procs[me].children;
      var any := AnyMatch(kids, pid);
      if !any {
        assert FirstEnded(procs, kids, pid) == |kids|;
        return -1, 0;
      }
      var i := FindEnded(kids, pid);
      if i == |kids| {
        return -2, 0;
      }
      r, code := Collect(i);
    }

    /** The `i`-th child is taken out of the list; it was the last reference. */
    method Collect(i: nat) returns (id: nat, code: int)
      requires Inv(State()) && Collects(State(), i)
      modifies this
      ensures State() == AfterCollect(old(State()), i)
      ensures var child := old(procs[procs[current.value].children[i]]); id == child.pid && code == child.exitCode
    {
      hide Inv, Removed, StackBottom, RefCount, PoolInv, AllocatedPid, AfterAlloc;
      ghost var s := State();
      StrongCountIsOne(s, i);
      PoolOf(s);
      var me := current.value;
      var child := procs[me].children[i];
      procs := procs[me := procs[me].(children := Removed(procs[me].children, i))];
      assert RefCount(State(), child) == 0;
      id := procs[child].pid;
      code := procs[child].exitCode;
      procs := procs - {child};
      stacks := stacks - {StackBottom(id)};
      DeallocPid(id);
      owner := owner - {id};
      collected := collected + [child];
    }

    method AnyMatch(kids: seq<Handle>, pid: int) returns (any: bool)
      requires forall c :: c in kids ==> c in procs
      ensures any <==> exists j :: 0 <= j < |kids| && Matches(procs[kids[j]], pid)
    {
      for i := 0 to |kids|
        invariant forall j :: 0 <= j < i ==> !Matches(procs[kids[j]], pid)
      {
        if Matches(procs[kids[i]], pid) {
          return true;
        }
      }
      return false;
    }

    method FindEnded(kids: seq<Handle>, pid: int) returns (i: nat)
      requires forall c :: c in kids ==> c in procs
      ensures i == FirstEnded(procs, kids, pid)
    {
      hide FirstEnded;
      i := 0;
      while i < |kids|
        invariant i <= |kids|
        invariant forall j :: 0 <= j < i ==> !(procs[kids[j]].status == Zombie && Matches(procs[kids[j]], pid))
      {
        if procs[kids[i]].status == Zombie && Matches(procs[kids[i]], pid) {
          return;
        }
        i := i + 1;
      }
    }

    /** `alloc_fd`, then the new file is stored there. */
    method Open(file: File) returns (fd: nat)
      requires Inv(State()) && Runs(State())
      modifies this
      ensures State() == OpenStep(old(State()), file) && Inv(State())
      ensures IsSlot(old(procs[current.value].fds), fd)
      ensures current == old(current) && current.value in procs
      ensures var before, after := old(procs[current.value].fds), procs[current.value].fds;
              && |after| == Max(|before|, fd + 1) && after[fd] == Some(file)
              && forall i :: 0 <= i < |before| && i != fd ==> after[i] == before[i]
    {
      hide Inv;
      OpenKeeps(State(), file);
      var me := current.value;
      var fds := procs[me].fds;
      fd := 0;
      while fd < |fds| && fds[fd] != None
        invariant fd <= |fds|
        invariant forall i :: 0 <= i < fd ==> fds[i] != None
      {
        fd := fd + 1;
      }
      assert fd == LowestFree(fds);
      if fd == |fds| {
        fds := fds + [None];
      }
      fds := fds[fd := Some(file)];
      assert fds == WithFile(procs[me].fds, file);
      procs := procs[me := procs[me].(fds := fds)];
    }
  }

  /** The copy of a descriptor table made by fork. */
  method CopyTable(fds: seq<Option<File>>) returns (copy: seq<Option<File>>)
    ensures copy == fds
  {
    copy := [];
    for i := 0 to |fds|
      invariant copy == fds[..i]
    {
      match fds[i]
      case Some(f) => copy := copy + [Some(f)];
      case None => copy := copy + [None];
    }
  }

  // ---- References ----

  ghost function ChildSlots(procs: map<Handle, Pcb>, h: Handle): set<(Handle, nat)> {
    set p, i: nat | p in procs && i < |procs[p].children| && procs[p].children[i] == h :: (p, i)
  }

  ghost function PidSlots(byPid: map<nat, Handle>, h: Handle): set<nat> {
    set p | p in byPid && byPid[p] == h
  }

  /** Strong references to a control block: from children lists, from the ready queues,
      from the current slot, from the lookup table, and the static one to the initial
      process. */
  ghost function RefCount(s: KState, h: Handle): nat {
    |ChildSlots(s.procs, h)| + Waiting(s.queues)[h] + (if s.current == Some(h) then 1 else 0)
    + |PidSlots(s.byPid, h)| + (if h == INIT then 1 else 0)
  }

  /** In exactly one children list, at one place: its parent's. */
  lemma OneParent(procs: map<Handle, Pcb>, h: Handle) returns (i: nat)
    requires TreeInv(procs) && h in procs && h != INIT
    ensures procs[h].parent.Some? && procs[h].parent.value in procs
    ensures ChildSlots(procs, h) == {(procs[h].parent.value, i)}
  {
    assert NodeOk(procs, h);
    var p := procs[h].parent.value;
    i :| 0 <= i < |procs[p].children| && procs[p].children[i] == h;
    assert NodeOk(procs, p);
    forall q, j: nat | q in procs && j < |procs[q].children| && procs[q].children[j] == h
      ensures q == p && j == i
    {
      assert NodeOk(procs, q);
      assert h in procs[q].children;
    }
    assert (p, i) in ChildSlots(procs, h);
  }

  lemma NoParent(procs: map<Handle, Pcb>)
    requires TreeInv(procs)
    ensures ChildSlots(procs, INIT) == {}
  {
    forall q, j: nat | q in procs && j < |procs[q].children| ensures procs[q].children[j] != INIT {
      assert NodeOk(procs, q);
      assert procs[q].children[j] in procs[q].children;
    }
  }

  lemma OneEntry(s: KState, h: Handle)
    requires Inv(s) && h in s.procs
    ensures PidSlots(s.byPid, h) == if s.procs[h].status == Zombie then {} else {s.procs[h].pid}
  {
    hide TreeInv, SchedInv, PoolInv, HistoryInv, StackMap;
    assert HoldsPid(s.procs, s.byPid, s.owner, h);
    forall p | p in s.byPid && s.byPid[p] == h ensures p == s.procs[h].pid {
      assert HeldPid(s.procs, s.owner, p);
      assert HoldsPid(s.procs, s.byPid, s.owner, s.owner[p]);
    }
  }

  /** A process that has ended is referred to by its parent only; any other process by
      its parent (the initial one by its static), by the lookup table, and by either the
      current slot or one place of one queue. */
  lemma References(s: KState, h: Handle)
    requires Inv(s) && h in s.procs
    ensures RefCount(s, h) == if s.procs[h].status == Zombie then 1 else 3
  {
    hide TreeInv, PidInv, PoolInv, HistoryInv, StackMap, Waiting, ChildSlots, PidSlots;
    OneEntry(s, h);
    assert Waiting(s.queues)[h] == if IsReady(s.procs, h) then 1 else 0;
    assert s.procs[h].status == Running <==> s.current == Some(h);
    if h == INIT {
      NoParent(s.procs);
      InitLives(s);
    } else {
      var i := OneParent(s.procs, h);
    }
  }

  lemma InitLives(s: KState)
    requires Inv(s)
    ensures INIT in s.procs && s.procs[INIT].status != Zombie
  {
    assert NodeOk(s.procs, INIT);
  }

  /** When waitpid has taken the child out of the list nothing else refers to it, and it
      holds its identifier. */
  lemma StrongCountIsOne(s: KState, i: nat)
    requires Inv(s) && Collects(s, i)
    ensures var me := s.current.value;
            var child := s.procs[me].children[i];
            && child != me && s.procs[child].pid in s.owner
            && var rest := s.procs[me].(children := Removed(s.procs[me].children, i));
               RefCount(s.(procs := s.procs[me := rest]), child) == 0
  {
    hide Waiting, PidSlots, StackMap, HistoryInv;
    var me := s.current.value;
    var kids := s.procs[me].children;
    var child := kids[i];
    assert NodeOk(s.procs, me) && NodeOk(s.procs, child);
    OneEntry(s, child);
    assert HoldsPid(s.procs, s.byPid, s.owner, child);
    assert Waiting(s.queues)[child] == if IsReady(s.procs, child) then 1 else 0;
    RemovedSlots(s.procs, me, i);
  }

  lemma RemovedSlots(procs: map<Handle, Pcb>, me: Handle, i: nat)
    requires TreeInv(procs) && me in procs && i < |procs[me].children|
    ensures ChildSlots(procs[me := procs[me].(children := Removed(procs[me].children, i))], procs[me].children[i]) == {}
  {
    hide Removed, NoDup;
    var kids := procs[me].children;
    var child := kids[i];
    assert NodeOk(procs, me);
    RemovedHas(kids, i);
    forall q, j: nat | q in procs && q != me && j < |procs[q].children| ensures procs[q].children[j] != child {
      assert NodeOk(procs, q);
      assert procs[q].children[j] in procs[q].children;
    }
    var r := procs[me := procs[me].(children := Removed(kids, i))];
    forall q, j: nat | q in r && j < |r[q].children| ensures r[q].children[j] != child {
      if q == me { assert r[q].children[j] in Removed(kids, i); }
    }
  }

  // ---- Facts the methods need ----

  /** The initial process never ends, so the processor always finds someone to run. */
  lemma SomeoneReady(s: KState)
    requires Inv(s) && s.current.None?
    ensures FirstReady(s.queues) < |s.queues| && s.queues[FirstReady(s.queues)][0] in s.procs
  {
    hide Waiting, FirstReady, PidInv, PoolInv, HistoryInv, StackMap;
    InitLives(s);
    assert IsReady(s.procs, INIT);
    assert Waiting(s.queues)[INIT] == 1;
    var q := FirstReady(s.queues);
    if q == |s.queues| {
      WaitingNone(s.queues, INIT);
    } else {
      WaitingPopped(s.queues, q);
      assert Waiting(s.queues)[s.queues[q][0]] >= 1;
      assert IsReady(s.procs, s.queues[q][0]);
    }
  }

  lemma PoolOf(s: KState)
    requires Inv(s)
    ensures PoolInv(s.pids, s.owner)
  {
  }

  /** The state between making the child and queueing it. */
  ghost function Spawned(s: KState): KState
    requires Runs(s)
  {
    ForkStep(s).(queues := s.queues, byPid := s.byPid)
  }

  lemma FourQueues(s: KState)
    requires Inv(s)
    ensures s.queues != []
  {
  }

  lemma Newer(s: KState)
    requires Inv(s) && Runs(s)
    ensures s.current.value != s.nextHandle
  {
  }

  /** What exit relies on: the process is in the lookup table and is not its own child. */
  lemma Leaving(s: KState)
    requires Inv(s) && Runs(s)
    ensures var p := s.procs[s.current.value];
            && p.pid in s.byPid && INIT in s.procs && (p.pid != 0 ==> s.current.value != INIT)
            && NoDup(p.children) && forall c :: c in p.children ==> c in s.procs && c != INIT && c != s.current.value
  {
    var me := s.current.value;
    assert HoldsPid(s.procs, s.byPid, s.owner, me);
    assert NodeOk(s.procs, me);
    forall c | c in s.procs[me].children ensures c != me { assert NodeOk(s.procs, c); }
  }

  lemma Family(s: KState)
    requires Inv(s) && Runs(s)
    ensures KidsKnown(s)
  {
    assert NodeOk(s.procs, s.current.value);
  }

  lemma NobodyAdopted(procs: map<Handle, Pcb>, kids: seq<Handle>)
    ensures procs == Adopted(procs, kids[..0])
  {
    forall h | h in procs ensures Adopted(procs, kids[..0])[h] == procs[h] {
      assert procs[h].children + kids[..0] == procs[h].children;
    }
  }

  lemma AdoptOne(procs: map<Handle, Pcb>, kids: seq<Handle>, i: nat)
    requires INIT in procs && i < |kids| && NoDup(kids)
    requires forall c :: c in kids ==> c in procs && c != INIT
    ensures kids[i] in procs && INIT in procs
    ensures var a := Adopted(procs, kids[..i]);
            var b := a[kids[i] := a[kids[i]].(parent := Some(INIT))];
            Adopted(procs, kids[..i + 1]) == b[INIT := b[INIT].(children := b[INIT].children + [kids[i]])]
  {
    hide NoDup;
    var a := Adopted(procs, kids[..i]);
    var b := a[kids[i] := a[kids[i]].(parent := Some(INIT))];
    var r := b[INIT := b[INIT].(children := b[INIT].children + [kids[i]])];
    assert kids[..i + 1] == kids[..i] + [kids[i]];
    assert procs[INIT].children + kids[..i] + [kids[i]] == procs[INIT].children + kids[..i + 1];
    forall h | h in procs ensures Adopted(procs, kids[..i + 1])[h] == r[h] {
    }
  }

  lemma AdoptedAndGone(procs: map<Handle, Pcb>, me: Handle, code: int)
    requires INIT in procs && me in procs && me != INIT && me !in procs[me].children
    ensures var p := procs[me];
            var a := Adopted(procs[me := p.(status := Zombie, exitCode := code)], p.children);
            a[me := a[me].(children := [])]
            == Adopted(procs, p.children)[me := p.(status := Zombie, exitCode := code, children := [])]
  {
  }
}
