/**
 * What holds in every state a run of the process operations can reach.
 */
module ProcessRuns {
  import opened Basics
  import opened ProcessState
  import opened ProcessInvariant
  import opened ProcessSteps
  import opened KernelProcesses

  lemma Reachable(ops: seq<Op>)
    ensures Inv(Run(Boot(), ops))
  {
    hide Inv, Boot, Run;
    BootInv();
    RunKeeps(Boot(), ops);
  }

  // ---- One place to be ----

  lemma OneIndex(s: seq<Handle>, h: Handle) returns (i: nat)
    requires multiset(s)[h] == 1
    ensures i < |s| && s[i] == h && forall j :: 0 <= j < |s| && s[j] == h ==> j == i
  {
    assert h in multiset(s);
    i :| 0 <= i < |s| && s[i] == h;
    assert s == s[..i] + [h] + s[i + 1..];
    assert multiset(s) == multiset(s[..i]) + multiset{h} + multiset(s[i + 1..]);
    forall j | 0 <= j < |s| && j != i ensures s[j] != h {
      assert h !in multiset(s[..i]) && h !in multiset(s[i + 1..]);
      assert if j < i then s[j] in s[..i] else s[j] in s[i + 1..];
    }
  }

  /** Somebody who waits once waits at one place of one queue. */
  lemma {:induction false} OnePlace(queues: seq<seq<Handle>>, h: Handle) returns (q: nat, i: nat)
    requires Waiting(queues)[h] == 1
    ensures q < |queues| && i < |queues[q]| && queues[q][i] == h
    ensures forall q2, i2 :: 0 <= q2 < |queues| && 0 <= i2 < |queues[q2]| && queues[q2][i2] == h ==> q2 == q && i2 == i
  {
    if multiset(queues[0])[h] == 1 {
      q := 0;
      i := OneIndex(queues[0], h);
      forall q2, i2 | 0 < q2 < |queues| && 0 <= i2 < |queues[q2]| ensures queues[q2][i2] != h {
        NotWaiting(queues[1..], h, q2 - 1, i2);
      }
    } else {
      q, i := OnePlace(queues[1..], h);
      forall i2 | 0 <= i2 < |queues[0]| ensures queues[0][i2] != h {
        assert queues[0][i2] in multiset(queues[0]);
      }
      forall q2, i2 | 0 < q2 < |queues| && 0 <= i2 < |queues[q2]| && queues[q2][i2] == h
        ensures q2 == q + 1 && i2 == i
      {
        assert queues[1..][q2 - 1][i2] == h;
      }
      q := q + 1;
    }
  }

  lemma {:induction false} NotWaiting(queues: seq<seq<Handle>>, h: Handle, q: nat, i: nat)
    requires Waiting(queues)[h] == 0 && q < |queues| && i < |queues[q]|
    ensures queues[q][i] != h
  {
    if q == 0 {
      assert queues[0][i] in multiset(queues[0]);
    } else {
      NotWaiting(queues[1..], h, q - 1, i);
    }
  }

  /** A process that has not ended either runs and is in no queue, or does not run and is
      at exactly one place of exactly one queue; one that has ended is nowhere. */
  lemma Whereabouts(s: KState, h: Handle) returns (q: nat, i: nat)
    requires Inv(s) && h in s.procs
    ensures s.procs[h].status == Running <==> s.current == Some(h)
    ensures s.procs[h].status == Ready ==>
              && q < |s.queues| && i < |s.queues[q]| && s.queues[q][i] == h
              && forall q2, i2 :: 0 <= q2 < |s.queues| && 0 <= i2 < |s.queues[q2]| && s.queues[q2][i2] == h ==>
                   q2 == q && i2 == i
    ensures s.procs[h].status != Ready ==>
              forall q2, i2 :: 0 <= q2 < |s.queues| && 0 <= i2 < |s.queues[q2]| ==> s.queues[q2][i2] != h
  {
    hide TreeInv, PidInv, PoolInv, HistoryInv, StackMap, Waiting;
    assert Waiting(s.queues)[h] == if IsReady(s.procs, h) then 1 else 0;
    q, i := 0, 0;
    if s.procs[h].status == Ready {
      q, i := OnePlace(s.queues, h);
    } else {
      forall q2, i2 | 0 <= q2 < |s.queues| && 0 <= i2 < |s.queues[q2]| ensures s.queues[q2][i2] != h {
        NotWaiting(s.queues, h, q2, i2);
      }
    }
  }

  // ---- The tree ----

  /** `n` steps up the parent links. */
  ghost function Up(procs: map<Handle, Pcb>, h: Handle, n: nat): Handle
    requires TreeInv(procs) && h in procs
    ensures Up(procs, h, n) in procs
  {
    if n == 0 then h
    else
      var u := Up(procs, h, n - 1);
      assert NodeOk(procs, u);
      if u == INIT then INIT else procs[u].parent.value
  }

  /** Every process descends from the initial one. */
  lemma {:induction false} Descends(procs: map<Handle, Pcb>, h: Handle, n: nat)
    requires TreeInv(procs) && h in procs
    ensures Up(procs, h, n) == INIT || Up(procs, h, n) + n <= h
    ensures n >= h ==> Up(procs, h, n) == INIT
  {
    hide NodeOk;
    if n > 0 {
      Descends(procs, h, n - 1);
      Older(procs, Up(procs, h, n - 1));
    }
  }

  lemma Older(procs: map<Handle, Pcb>, h: Handle)
    requires TreeInv(procs) && h in procs
    ensures h != INIT ==> procs[h].parent.Some? && procs[h].parent.value < h
  {
    assert NodeOk(procs, h);
  }

  /** An exit hands the children over: each now names the initial process as its parent,
      is in its list, and keeps everything else. */
  lemma Orphans(s: KState, code: int, c: Handle)
    requires Inv(s) && Runs(s) && s.procs[s.current.value].pid != 0 && c in s.procs[s.current.value].children
    ensures var r := ExitStep(s, code);
            && c in s.procs && c in r.procs && c in r.procs[INIT].children
            && r.procs[c] == s.procs[c].(parent := Some(INIT))
            && s.current.value in r.procs && r.procs[s.current.value].children == []
  {
    Leaving(s);
  }

  // ---- Identifiers and kernel stacks ----

  /** The lookup table finds exactly the processes that have not ended. */
  lemma Lookup(s: KState, pid: nat, h: Handle)
    requires Inv(s)
    ensures (pid in s.byPid && s.byPid[pid] == h) <==>
            (h in s.procs && s.procs[h].pid == pid && s.procs[h].status != Zombie)
  {
    hide TreeInv, SchedInv, PoolInv, HistoryInv, StackMap;
    if h in s.procs {
      assert HoldsPid(s.procs, s.byPid, s.owner, h);
    }
    if pid in s.byPid {
      assert HeldPid(s.procs, s.owner, pid);
      assert HoldsPid(s.procs, s.byPid, s.owner, s.owner[pid]);
    }
  }

  /** Two processes have two identifiers and two kernel stacks with a page between them. */
  lemma Apart(s: KState, g: Handle, h: Handle)
    requires Inv(s) && g in s.procs && h in s.procs && g != h
    ensures s.procs[g].pid != s.procs[h].pid
    ensures var p, q := s.procs[g].pid, s.procs[h].pid;
            && StackBottom(p) in s.stacks && s.stacks[StackBottom(p)] == StackTop(p)
            && (StackTop(p) + PAGE <= StackBottom(q) || StackTop(q) + PAGE <= StackBottom(p))
  {
    hide TreeInv, SchedInv, PoolInv, HistoryInv;
    var p, q := s.procs[g].pid, s.procs[h].pid;
    assert HoldsPid(s.procs, s.byPid, s.owner, g) && HoldsPid(s.procs, s.byPid, s.owner, h);
    if p < q { StacksApart(p, q); } else { StacksApart(q, p); }
  }

  /** Every identifier ever handed out is held by one process or waits to be used again. */
  lemma PidsConserved(s: KState, pid: nat)
    requires Inv(s)
    ensures pid < s.pids.next <==> (pid in s.pids.recycled || exists h :: h in s.procs && s.procs[h].pid == pid)
    ensures pid in s.pids.recycled ==> forall h :: h in s.procs ==> s.procs[h].pid != pid
  {
    hide TreeInv, SchedInv, HistoryInv, StackMap;
    if pid in s.owner {
      assert HeldPid(s.procs, s.owner, pid);
      assert s.owner[pid] in s.procs;
    }
    forall h | h in s.procs && s.procs[h].pid == pid ensures pid in s.owner {
      assert HoldsPid(s.procs, s.byPid, s.owner, h);
    }
  }

  // ---- Exit codes ----

  lemma StepRecords(s: KState, op: Op)
    requires Inv(s)
    ensures forall h :: h in s.exited ==> h in Step(s, op).exited && Step(s, op).exited[h] == s.exited[h]
    ensures s.collected <= Step(s, op).collected
  {
    hide TreeInv, PidInv, PoolInv, StackMap, Waiting, FirstReady, FirstEnded, Removed;
  }

  /** Exit codes are never overwritten, and what was collected stays collected. */
  lemma {:induction false} Records(s: KState, ops: seq<Op>)
    requires Inv(s)
    ensures forall h :: h in s.exited ==> h in Run(s, ops).exited && Run(s, ops).exited[h] == s.exited[h]
    ensures s.collected <= Run(s, ops).collected
    decreases |ops|
  {
    hide Inv, Step;
    if ops != [] {
      var m := Run(s, ops[..|ops| - 1]);
      Records(s, ops[..|ops| - 1]);
      RunKeeps(s, ops[..|ops| - 1]);
      StepRecords(m, ops[|ops| - 1]);
    }
  }

  /** A successful waitpid delivers the exit code of a process nobody has collected before
      and that nobody can collect later. */
  lemma CollectedOnce(s: KState, pid: int, later: seq<Op>)
    requires Inv(s) && Runs(s) && KidsKnown(s) && WaitOutcome(s, pid).Collected?
    ensures var r := WaitStep(s, pid);
            && |r.collected| == |s.collected| + 1
            && var h := r.collected[|s.collected|];
               && h in s.procs[s.current.value].children && h in s.exited
               && WaitOutcome(s, pid).code == s.exited[h] && WaitOutcome(s, pid).pid == s.procs[h].pid
               && h !in s.collected && h !in Run(r, later).procs
  {
    hide TreeInv, SchedInv, PidInv, PoolInv, StackMap, Run;
    var r := WaitStep(s, pid);
    var h := r.collected[|s.collected|];
    WaitKeeps(s, pid);
    RunKeeps(r, later);
    Records(r, later);
    assert h in r.collected;
    assert h in Run(r, later).collected;
  }

  /** What the three answers of waitpid mean, by identifiers: -1 exactly when no child is
      named, -2 exactly when some are and none of them has ended. */
  lemma WaitAnswers(s: KState, pid: int)
    requires Runs(s) && KidsKnown(s) && pid >= -1
    ensures var kids := s.procs[s.current.value].children;
            && (WaitOutcome(s, pid) == NoChild <==>
                  forall c :: c in kids ==> pid != -1 && s.procs[c].pid != pid)
            && (WaitOutcome(s, pid) == StillRunning <==>
                  && (exists c :: c in kids && (pid == -1 || s.procs[c].pid == pid))
                  && (forall c :: c in kids && (pid == -1 || s.procs[c].pid == pid) ==> s.procs[c].status != Zombie))
  {
    hide WaitOutcome, WaitStep;
    WaitMeans(s, pid);
    var kids := s.procs[s.current.value].children;
    assert kids != [] ==> kids[0] in kids;
  }

  /** The code a process exits with is the code its collector gets, whatever happens in
      between and whoever collects it. */
  lemma CodeDelivered(s: KState, code: int, between: seq<Op>, pid: int)
    requires Inv(s) && Runs(s) && s.procs[s.current.value].pid != 0
    requires var t := Run(Step(s, Exit(code)), between);
             && Runs(t) && KidsKnown(t) && WaitOutcome(t, pid).Collected?
             && s.current.value in Step(t, Wait(pid)).collected && s.current.value !in t.collected
    ensures WaitOutcome(Run(Step(s, Exit(code)), between), pid).code == code
  {
    hide Inv, Run, Step, WaitStep, WaitOutcome;
    var h, r := s.current.value, Step(s, Exit(code));
    StepKeeps(s, Exit(code));
    ExitMeans(s, code);
    RunKeeps(r, between);
    Records(r, between);
    var t := Run(r, between);
    CollectedOnce(t, pid, []);
    LastCollected(t, pid, h);
  }

  /** A wait adds one process to those collected. */
  lemma LastCollected(s: KState, pid: int, h: Handle)
    requires Runs(s) && KidsKnown(s) && WaitOutcome(s, pid).Collected?
    requires h in Step(s, Wait(pid)).collected && h !in s.collected
    ensures |WaitStep(s, pid).collected| == |s.collected| + 1 && WaitStep(s, pid).collected[|s.collected|] == h
  {
    hide FirstEnded;
  }

  // ---- Taking turns ----

  /** Without demotion only the first queue is ever used. */
  ghost predicate OneQueue(s: KState) {
    |s.queues| > 0 && forall q :: 0 < q < |s.queues| ==> s.queues[q] == []
  }

  predicate Dispatches(s: KState, op: Op) {
    op == Schedule && !s.halted && s.current.None?
  }

  /** How many times a process was dispatched. */
  function Turns(s: KState, ops: seq<Op>): nat {
    if ops == [] then 0
    else Turns(s, ops[..|ops| - 1]) + (if Dispatches(Run(s, ops[..|ops| - 1]), ops[|ops| - 1]) then 1 else 0)
  }

  lemma StepQueue(s: KState, op: Op)
    requires Inv(s) && OneQueue(s)
    ensures var r := Step(s, op);
            && OneQueue(r)
            && if Dispatches(s, op)
               then s.queues[0] != [] && r.queues[0] == s.queues[0][1..] && r.current == Some(s.queues[0][0])
               else s.queues[0] <= r.queues[0]
  {
    hide Inv, FirstEnded, Removed, FirstReady, WithFile, Adopted, StackBottom, StackTop, AllocatedPid, AfterAlloc;
    if Dispatches(s, op) {
      SomeoneReady(s);
    }
  }

  /** First come, first served: whoever waits at place `k` has moved up by one place for
      every dispatch so far, whatever else happened, and is the one dispatched next when
      `k` dispatches have gone by. */
  lemma {:induction false} RoundRobin(s: KState, ops: seq<Op>, k: nat)
    requires Inv(s) && OneQueue(s) && k < |s.queues[0]| && Turns(s, ops) <= k
    ensures var r, n := Run(s, ops), Turns(s, ops);
            && Inv(r) && OneQueue(r) && k - n < |r.queues[0]| && r.queues[0][k - n] == s.queues[0][k]
            && (n == k && Dispatches(r, Schedule) ==> Step(r, Schedule).current == Some(s.queues[0][k]))
    decreases |ops|
  {
    hide Inv, OneQueue, Step, Dispatches;
    if ops != [] {
      var m := Run(s, ops[..|ops| - 1]);
      RoundRobin(s, ops[..|ops| - 1], k);
      StepQueue(m, ops[|ops| - 1]);
      StepKeeps(m, ops[|ops| - 1]);
    }
    StepQueue(Run(s, ops), Schedule);
  }

  lemma {:induction false} OneQueueAlways(ops: seq<Op>)
    ensures OneQueue(Run(Boot(), ops))
    decreases |ops|
  {
    hide Inv, Step;
    if ops != [] {
      var m := Run(Boot(), ops[..|ops| - 1]);
      OneQueueAlways(ops[..|ops| - 1]);
      Reachable(ops[..|ops| - 1]);
      StepQueue(m, ops[|ops| - 1]);
    }
  }

  /** The kernel's own code, through every run of calls it accepts. */
  method RunKernel(ops: seq<Op>) returns (k: Kernel)
    ensures k.State() == Run(Boot(), ops) && Inv(k.State())
  {
    hide Inv, Boot, Step;
    k := new Kernel();
    for i := 0 to |ops|
      invariant fresh(k) && k.State() == Run(Boot(), ops[..i]) && Inv(k.State())
    {
      assert ops[..i + 1][..i] == ops[..i];
      Call(k, ops[i]);
    }
    assert ops[..|ops|] == ops;
  }

  method Call(k: Kernel, op: Op)
    requires Inv(k.State())
    modifies k
    ensures k.State() == Step(old(k.State()), op) && Inv(k.State())
  {
    hide Inv, ScheduleStep, SuspendStep, ForkStep, ExitStep, WaitStep, OpenStep;
    if op == Schedule {
      if !k.halted && k.current.None? {
        k.Schedule();
      } else {
        NotNow(k.State());
      }
    } else if !k.halted && k.current.Some? && k.current.value in k.procs {
      match op
      case Suspend => k.Suspend();
      case Fork => var _ := k.Fork();
      case Exit(code) => k.Exit(code);
      case Wait(pid) => var _, _ := k.Waitpid(pid);
      case Open(f) => var _ := k.Open(f);
    }
  }

  lemma NotNow(s: KState)
    requires s.halted || s.current.Some?
    ensures ScheduleStep(s) == s
  {
  }
}
