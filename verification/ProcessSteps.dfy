/**
 * What the steps mean, field by field: who is where afterwards, what each control block
 * holds, and that nothing else has changed.
 */
module ProcessSteps {
  import opened Basics
  import opened ProcessState
  import opened ProcessInvariant

  /** One turn of the scheduler: the head of the first queue that is not empty runs. */
  lemma ScheduleMeans(s: KState)
    requires Inv(s) && !s.halted && s.current.None? && FirstReady(s.queues) < |s.queues|
    ensures Step(s, Schedule) == ScheduleStep(s)
    ensures var r, q := Step(s, Schedule), FirstReady(s.queues);
            var h := s.queues[q][0];
            && h in s.procs && r.current == Some(h) && |r.queues| == |s.queues| && [h] + r.queues[q] == s.queues[q]
            && (forall i :: 0 <= i < |s.queues| && i != q ==> r.queues[i] == s.queues[i])
            && r.procs.Keys == s.procs.Keys && r.procs[h] == s.procs[h].(status := Running)
            && (forall g :: g in s.procs && g != h ==> r.procs[g] == s.procs[g])
            && r.byPid == s.byPid && !r.halted
  {
    hide TreeInv, PidInv, PoolInv, HistoryInv, StackMap;
    var q := FirstReady(s.queues);
    HeadKnown(s.procs, s.queues, q);
    assert s.queues[q] == [s.queues[q][0]] + s.queues[q][1..];
  }

  lemma HeadKnown(procs: map<Handle, Pcb>, queues: seq<seq<Handle>>, q: nat)
    requires q < |queues| && queues[q] != []
    requires forall h: Handle :: Waiting(queues)[h] == if IsReady(procs, h) then 1 else 0
    ensures queues[q][0] in procs
  {
    hide Waiting;
    InQueue(queues, q);
    assert Waiting(queues)[queues[q][0]] > 0;
  }

  lemma {:induction false} InQueue(queues: seq<seq<Handle>>, q: nat)
    requires q < |queues| && queues[q] != []
    ensures Waiting(queues)[queues[q][0]] > 0
  {
    if q == 0 {
      assert queues[0][0] in multiset(queues[0]);
    } else {
      InQueue(queues[1..], q - 1);
    }
  }

  /** Suspending: the running process is ready, behind everybody in the first queue. */
  lemma SuspendMeans(s: KState)
    requires Inv(s) && Runs(s)
    ensures Step(s, Suspend) == SuspendStep(s)
    ensures var r, me := Step(s, Suspend), s.current.value;
            && r.current == None && |s.queues| == |r.queues| == QUEUE_COUNT
            && r.queues[0] == s.queues[0] + [me] && r.queues[1..] == s.queues[1..]
            && r.procs.Keys == s.procs.Keys && r.procs[me] == s.procs[me].(status := Ready)
            && (forall h :: h in s.procs && h != me ==> r.procs[h] == s.procs[h])
            && !r.halted
  {
    hide TreeInv, PidInv, PoolInv, HistoryInv, StackMap, Waiting;
  }

  /** Forking: a ready child of the running process with a new identifier and the same open
      files, behind everybody in the first queue. */
  lemma ForkMeans(s: KState)
    requires Inv(s) && Runs(s)
    ensures Step(s, Fork) == ForkStep(s)
    ensures var r, me, c := Step(s, Fork), s.current.value, s.nextHandle;
            && c !in s.procs && r.procs.Keys == s.procs.Keys + {c}
            && r.procs[c].status == Ready && r.procs[c].parent == Some(me) && r.procs[c].children == []
            && r.procs[c].fds == s.procs[me].fds && r.procs[c].exitCode == 0
            && (forall h :: h in s.procs ==> s.procs[h].pid != r.procs[c].pid)
            && r.procs[me] == s.procs[me].(children := s.procs[me].children + [c])
            && (forall h :: h in s.procs && h != me ==> r.procs[h] == s.procs[h])
            && r.current == s.current && |s.queues| == |r.queues| == QUEUE_COUNT
            && r.queues[0] == s.queues[0] + [c] && r.queues[1..] == s.queues[1..] && !r.halted
  {
    hide TreeInv, PoolInv, StackMap, Waiting, AllocatedPid, AfterAlloc, StackBottom, StackTop;
    NewPid(s);
    forall h | h in s.procs ensures s.procs[h].pid in s.owner {
      assert HoldsPid(s.procs, s.byPid, s.owner, h);
    }
  }

  /** Exit: the process has ended with that code and hands its children over; the exit of
      the initial process stops the machine. */
  lemma ExitMeans(s: KState, code: int)
    requires Inv(s) && Runs(s)
    ensures Step(s, Exit(code)) == ExitStep(s, code)
    ensures var r, me := Step(s, Exit(code)), s.current.value;
            var p := s.procs[me];
            && r.procs.Keys == s.procs.Keys && r.queues == s.queues
            && (p.pid == 0 ==> r == s.(halted := true))
            && (p.pid != 0 ==>
                  && r.current == None && !r.halted && me != INIT && INIT in s.procs && me !in p.children
                  && r.procs[me] == p.(status := Zombie, exitCode := code, children := [])
                  && r.procs[INIT] == s.procs[INIT].(children := s.procs[INIT].children + p.children)
                  && (forall c :: c in p.children ==> c in s.procs && c != INIT
                                                      && r.procs[c] == s.procs[c].(parent := Some(INIT)))
                  && (forall h :: h in s.procs && h != me && h != INIT && h !in p.children ==>
                        r.procs[h] == s.procs[h])
                  && (forall q :: q in r.byPid <==> q in s.byPid && q != p.pid)
                  && me in r.exited && r.exited[me] == code)
  {
    hide SchedInv, PoolInv, HistoryInv, StackMap;
    var me := s.current.value;
    assert NodeOk(s.procs, me);
    forall c | c in s.procs[me].children ensures c != me { assert NodeOk(s.procs, c); }
  }

  /** Opening: the lowest free descriptor names the file, and every other descriptor and
      every other process is as before. */
  lemma OpenMeans(s: KState, f: File, fd: nat)
    requires Runs(s) && IsSlot(s.procs[s.current.value].fds, fd)
    ensures Step(s, Open(f)) == OpenStep(s, f)
    ensures var r, me := Step(s, Open(f)), s.current.value;
            var before, after := s.procs[me].fds, r.procs[me].fds;
            && |after| == Max(|before|, fd + 1) && after[fd] == Some(f)
            && (forall i :: 0 <= i < |before| && i != fd ==> after[i] == before[i])
            && r == s.(procs := s.procs[me := s.procs[me].(fds := after)])
  {
    var fds := s.procs[s.current.value].fds;
    assert IsSlot(fds, LowestFree(fds));
    OneSlot(fds, fd, LowestFree(fds));
  }

  lemma OneSlot(fds: seq<Option<File>>, a: nat, b: nat)
    requires IsSlot(fds, a) && IsSlot(fds, b)
    ensures a == b
  {
  }

  lemma MatchesWho(p: Pcb, pid: int)
    ensures Matches(p, pid) <==>
            pid == -1 || (pid >= 0 && p.pid == pid) || (pid < -1 && p.pid == pid + 0x1_0000_0000_0000_0000)
  {
  }

  /** Waiting, by identifiers.  A number that is not negative names the child with that
      identifier, -1 any child; the first ended child so named is collected with the code
      it exited with, and nothing else changes. */
  lemma WaitMeans(s: KState, pid: int)
    requires Runs(s) && KidsKnown(s)
    ensures var kids, o := s.procs[s.current.value].children, WaitOutcome(s, pid);
            && (pid == -1 ==> (o.NoChild? <==> kids == []))
            && (pid >= 0 ==> (o.NoChild? <==> forall c :: c in kids ==> s.procs[c].pid != pid))
            && (pid < -1 ==> (o.NoChild? <==> forall c :: c in kids ==>
                                s.procs[c].pid != pid + 0x1_0000_0000_0000_0000))
            && (pid == -1 ==> (o.Collected? <==> exists c :: c in kids && s.procs[c].status == Zombie))
            && (pid >= 0 ==> (o.Collected? <==> exists c :: c in kids && s.procs[c].status == Zombie
                                                            && s.procs[c].pid == pid))
            && (o.Collected? && pid >= 0 ==> o.pid == pid)
            && (!o.Collected? ==> Step(s, Wait(pid)) == s)
  {
    hide Matches, FirstEnded, AfterCollect;
    var kids := s.procs[s.current.value].children;
    forall c | c in kids
      ensures Matches(s.procs[c], pid) <==> pid == -1 || (pid >= 0 && s.procs[c].pid == pid)
                                            || (pid < -1 && s.procs[c].pid == pid + 0x1_0000_0000_0000_0000)
    {
      MatchesWho(s.procs[c], pid);
    }
    Outcomes(s, pid);
    assert kids != [] ==> kids[0] in kids;
  }

  lemma Outcomes(s: KState, pid: int)
    requires Runs(s) && KidsKnown(s)
    ensures var kids, o := s.procs[s.current.value].children, WaitOutcome(s, pid);
            && (o.NoChild? <==> forall c :: c in kids ==> !Matches(s.procs[c], pid))
            && (o.Collected? <==> exists c :: c in kids && s.procs[c].status == Zombie && Matches(s.procs[c], pid))
            && (o.Collected? ==> exists c :: c in kids && s.procs[c].status == Zombie && Matches(s.procs[c], pid)
                                             && s.procs[c].pid == o.pid)
  {
    hide Matches, FirstEnded;
    var kids := s.procs[s.current.value].children;
    var i := FirstEnded(s.procs, kids, pid);
    forall c | c in kids && Matches(s.procs[c], pid)
      ensures exists j :: 0 <= j < |kids| && Matches(s.procs[kids[j]], pid)
      ensures s.procs[c].status == Zombie ==> i < |kids|
    {
      var j :| 0 <= j < |kids| && kids[j] == c;
      assert Matches(s.procs[kids[j]], pid);
    }
    if i < |kids| {
      assert kids[i] in kids;
    }
  }

  /** Collecting: the child is the first that has ended and is named; it goes, with its
      identifier free again, and its parent's list loses it. */
  lemma CollectMeans(s: KState, pid: int, i: nat)
    requires Inv(s) && Runs(s) && KidsKnown(s) && i < |s.procs[s.current.value].children|
    requires var kids := s.procs[s.current.value].children;
             && s.procs[kids[i]].status == Zombie
             && (pid == -1 || s.procs[kids[i]].pid == pid)
             && forall j :: 0 <= j < i ==>
                  s.procs[kids[j]].status != Zombie || (pid != -1 && s.procs[kids[j]].pid != pid)
    requires pid >= -1
    ensures Step(s, Wait(pid)) == WaitStep(s, pid)
    ensures var r, me := Step(s, Wait(pid)), s.current.value;
            var kids := s.procs[me].children;
            var c := kids[i];
            && WaitOutcome(s, pid) == Collected(s.procs[c].pid, s.procs[c].exitCode) && c != me
            && r.procs.Keys == s.procs.Keys - {c}
            && r.procs[me] == s.procs[me].(children := kids[..i] + kids[i + 1..])
            && (forall h :: h in r.procs && h != me ==> r.procs[h] == s.procs[h])
            && r.current == s.current && r.queues == s.queues && r.byPid == s.byPid && r.halted == s.halted
            && r.pids.recycled == s.pids.recycled + [s.procs[c].pid]
            && (forall b :: b in r.stacks <==> b in s.stacks && b != StackBottom(s.procs[c].pid))
  {
    hide Inv, Matches, FirstEnded, StackBottom, Waiting;
    var kids := s.procs[s.current.value].children;
    forall c | c in kids ensures Matches(s.procs[c], pid) <==> pid == -1 || s.procs[c].pid == pid {
      MatchesWho(s.procs[c], pid);
    }
    var k := FirstEnded(s.procs, kids, pid);
    assert k == i;
    NotRunning(s);
  }

  lemma NotRunning(s: KState)
    requires Inv(s) && Runs(s)
    ensures s.procs[s.current.value].status != Zombie
  {
    hide TreeInv, PidInv, PoolInv, HistoryInv, StackMap, Waiting;
  }
}
