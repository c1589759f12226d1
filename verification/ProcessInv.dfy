/**
 * Every operation on processes keeps the invariant.
 */
module ProcessInvariant {
  import opened Basics
  import opened ProcessState

  // ---- Queues ----

  lemma WaitingEnqueued(queues: seq<seq<Handle>>, h: Handle)
    requires queues != []
    ensures Waiting(Enqueued(queues, h)) == Waiting(queues) + multiset{h}
  {
    var r := Enqueued(queues, h);
    assert r[1..] == queues[1..];
    assert multiset(queues[0] + [h]) == multiset(queues[0]) + multiset{h};
  }

  lemma {:induction false} WaitingPopped(queues: seq<seq<Handle>>, q: nat)
    requires q < |queues| && queues[q] != []
    ensures Waiting(queues) == Waiting(queues[q := queues[q][1..]]) + multiset{queues[q][0]}
  {
    var r := queues[q := queues[q][1..]];
    if q == 0 {
      assert r[1..] == queues[1..];
      assert queues[0] == [queues[0][0]] + queues[0][1..];
      assert multiset(queues[0]) == multiset{queues[0][0]} + multiset(queues[0][1..]);
    } else {
      WaitingPopped(queues[1..], q - 1);
      assert r[1..] == queues[1..][q - 1 := queues[1..][q - 1][1..]];
    }
  }

  lemma {:induction false} WaitingNone(queues: seq<seq<Handle>>, h: Handle)
    requires forall q :: 0 <= q < |queues| ==> queues[q] == []
    ensures Waiting(queues)[h] == 0
  {
    if queues != [] {
      WaitingNone(queues[1..], h);
    }
  }

  // ---- Operations that change only what a process does at the moment ----

  /** Tree links, identifiers and exit codes are the same, and the same processes have ended. */
  ghost predicate SameFamily(a: map<Handle, Pcb>, b: map<Handle, Pcb>) {
    && a.Keys == b.Keys
    && forall h :: h in a ==>
         && b[h].pid == a[h].pid && b[h].parent == a[h].parent && b[h].children == a[h].children
         && b[h].exitCode == a[h].exitCode && (b[h].status == Zombie <==> a[h].status == Zombie)
  }

  lemma TreeSame(a: map<Handle, Pcb>, b: map<Handle, Pcb>)
    requires TreeInv(a) && SameFamily(a, b)
    ensures TreeInv(b)
  {
    forall h | h in b ensures NodeOk(b, h) { assert NodeOk(a, h); }
  }

  lemma PidsSame(a: map<Handle, Pcb>, b: map<Handle, Pcb>, byPid: map<nat, Handle>, owner: map<nat, Handle>)
    requires PidInv(a, byPid, owner) && SameFamily(a, b)
    ensures PidInv(b, byPid, owner)
  {
    forall h | h in b ensures HoldsPid(b, byPid, owner, h) { assert HoldsPid(a, byPid, owner, h); }
    forall p | p in owner ensures HeldPid(b, owner, p) { assert HeldPid(a, owner, p); }
  }

  lemma HistorySame(a: map<Handle, Pcb>, b: map<Handle, Pcb>, n: Handle, exited: map<Handle, int>,
                    collected: seq<Handle>)
    requires HistoryInv(a, n, exited, collected) && SameFamily(a, b)
    ensures HistoryInv(b, n, exited, collected)
  {
  }

  lemma FamilyKeeps(s: KState, r: KState)
    requires Inv(s) && SameFamily(s.procs, r.procs)
    requires r.byPid == s.byPid && r.owner == s.owner && r.pids == s.pids && r.stacks == s.stacks
    requires r.nextHandle == s.nextHandle && r.exited == s.exited && r.collected == s.collected
    requires SchedInv(r.procs, r.queues, r.current)
    ensures Inv(r)
  {
    hide TreeInv, PidInv, PoolInv, HistoryInv, SchedInv, StackMap, SameFamily;
    TreeSame(s.procs, r.procs);
    PidsSame(s.procs, r.procs, s.byPid, s.owner);
    HistorySame(s.procs, r.procs, s.nextHandle, s.exited, s.collected);
  }

  lemma Relabelled(procs: map<Handle, Pcb>, h: Handle, status: Status)
    requires h in procs && procs[h].status != Zombie && status != Zombie
    ensures SameFamily(procs, procs[h := procs[h].(status := status)])
  {
  }

  lemma SchedPopped(procs: map<Handle, Pcb>, queues: seq<seq<Handle>>, q: nat)
    requires SchedInv(procs, queues, None) && q < |queues| && queues[q] != []
    ensures IsReady(procs, queues[q][0])
    ensures SchedInv(procs[queues[q][0] := procs[queues[q][0]].(status := Running)],
                     queues[q := queues[q][1..]], Some(queues[q][0]))
  {
    hide Waiting;
    var h := queues[q][0];
    WaitingPopped(queues, q);
    assert Waiting(queues)[h] >= 1;
    assert IsReady(procs, h);
    var procs', queues' := procs[h := procs[h].(status := Running)], queues[q := queues[q][1..]];
    forall k: Handle ensures Waiting(queues')[k] == if IsReady(procs', k) then 1 else 0 {
      assert Waiting(queues)[k] == if IsReady(procs, k) then 1 else 0;
    }
  }

  lemma SchedPushed(procs: map<Handle, Pcb>, queues: seq<seq<Handle>>, h: Handle)
    requires SchedInv(procs, queues, Some(h))
    ensures SchedInv(procs[h := procs[h].(status := Ready)], Enqueued(queues, h), None)
  {
    hide Waiting;
    WaitingEnqueued(queues, h);
    var procs', queues' := procs[h := procs[h].(status := Ready)], Enqueued(queues, h);
    forall k: Handle ensures Waiting(queues')[k] == if IsReady(procs', k) then 1 else 0 {
      assert Waiting(queues)[k] == if IsReady(procs, k) then 1 else 0;
    }
  }

  lemma ScheduleKeeps(s: KState)
    requires Inv(s)
    ensures Inv(ScheduleStep(s))
  {
    hide TreeInv, PidInv, PoolInv, HistoryInv, SchedInv, StackMap, SameFamily, FirstReady;
    var q := FirstReady(s.queues);
    if !s.halted && s.current.None? && q < |s.queues| {
      SchedPopped(s.procs, s.queues, q);
      Relabelled(s.procs, s.queues[q][0], Running);
      FamilyKeeps(s, ScheduleStep(s));
    }
  }

  lemma SuspendKeeps(s: KState)
    requires Inv(s) && Runs(s)
    ensures Inv(SuspendStep(s))
  {
    hide TreeInv, PoolInv, HistoryInv, Waiting, StackMap, SameFamily, Enqueued;
    var h := s.current.value;
    assert HoldsPid(s.procs, s.byPid, s.owner, h);
    assert SuspendStep(s).byPid == s.byPid;
    SchedPushed(s.procs, s.queues, h);
    Relabelled(s.procs, h, Ready);
    FamilyKeeps(s, SuspendStep(s));
  }

  lemma OpenKeeps(s: KState, f: File)
    requires Inv(s) && Runs(s)
    ensures Inv(OpenStep(s, f))
  {
    hide TreeInv, PidInv, PoolInv, HistoryInv, Waiting, StackMap;
    var r := OpenStep(s, f);
    forall k: Handle ensures Waiting(r.queues)[k] == if IsReady(r.procs, k) then 1 else 0 {
      assert Waiting(s.queues)[k] == if IsReady(s.procs, k) then 1 else 0;
    }
    FamilyKeeps(s, r);
  }

  // ---- Fork ----

  lemma NewPid(s: KState)
    requires Inv(s)
    ensures var p := AllocatedPid(s.pids);
            p !in s.owner && p !in s.byPid && p < AfterAlloc(s.pids).next && p !in AfterAlloc(s.pids).recycled
    ensures s.pids.next <= AfterAlloc(s.pids).next
  {
    var p := AllocatedPid(s.pids);
    if s.pids.recycled != [] {
      assert p in s.pids.recycled;
    }
  }

  lemma ForkTree(s: KState)
    requires TreeInv(s.procs) && HistoryInv(s.procs, s.nextHandle, s.exited, s.collected)
    requires Runs(s) && s.procs[s.current.value].status == Running
    ensures TreeInv(ForkStep(s).procs)
  {
    var r := ForkStep(s);
    var me, child := s.current.value, s.nextHandle;
    assert child !in s.procs;
    forall h | h in r.procs ensures NodeOk(r.procs, h) {
      assert NodeOk(s.procs, me);
      if h != child {
        assert NodeOk(s.procs, h);
        assert child !in s.procs[h].children;
      }
    }
  }

  lemma ForkSched(s: KState)
    requires Inv(s) && Runs(s)
    ensures var r := ForkStep(s); SchedInv(r.procs, r.queues, r.current)
  {
    hide TreeInv, PidInv, PoolInv, Waiting, StackMap, FirstReady;
    var r := ForkStep(s);
    WaitingEnqueued(s.queues, s.nextHandle);
    assert !IsReady(s.procs, s.nextHandle);
    forall k: Handle ensures Waiting(r.queues)[k] == if IsReady(r.procs, k) then 1 else 0 {
      assert Waiting(s.queues)[k] == if IsReady(s.procs, k) then 1 else 0;
    }
  }

  lemma ForkPids(s: KState)
    requires Inv(s) && Runs(s)
    ensures var r := ForkStep(s); PidInv(r.procs, r.byPid, r.owner)
  {
    hide TreeInv, PoolInv, SchedInv, AllocatedPid, AfterAlloc, Waiting, StackMap, FirstReady;
    var r := ForkStep(s);
    NewPid(s);
    assert s.nextHandle !in s.procs;
    forall h | h in r.procs ensures HoldsPid(r.procs, r.byPid, r.owner, h) {
      if h != s.nextHandle { assert HoldsPid(s.procs, s.byPid, s.owner, h); }
    }
    forall p | p in r.owner ensures HeldPid(r.procs, r.owner, p) {
      if p != AllocatedPid(s.pids) { assert HeldPid(s.procs, s.owner, p); }
    }
  }

  lemma AllocKeepsPool(pids: Pids, owner: map<nat, Handle>, h: Handle)
    requires PoolInv(pids, owner)
    ensures var p, r := AllocatedPid(pids), AfterAlloc(pids);
            && p !in owner && p < r.next && p !in r.recycled
            && PoolInv(r, owner[p := h])
  {
    var p, r := AllocatedPid(pids), AfterAlloc(pids);
    if pids.recycled != [] {
      assert pids.recycled == r.recycled + [p];
      assert p in pids.recycled;
    }
  }

  lemma FreeKeepsPool(pids: Pids, owner: map<nat, Handle>, p: nat)
    requires PoolInv(pids, owner) && p in owner
    ensures p < pids.next && p !in pids.recycled
    ensures PoolInv(pids.(recycled := pids.recycled + [p]), owner - {p})
  {
  }

  lemma ForkPool(s: KState)
    requires Inv(s) && Runs(s)
    ensures var r := ForkStep(s); PoolInv(r.pids, r.owner) && r.stacks == StackMap(r.owner)
  {
    hide TreeInv, SchedInv, PidInv, PoolInv, HistoryInv, StackMap, AllocatedPid, AfterAlloc;
    AllocKeepsPool(s.pids, s.owner, s.nextHandle);
    StackAdded(s.owner, AllocatedPid(s.pids), s.nextHandle);
  }

  lemma StackAdded(owner: map<nat, Handle>, p: nat, h: Handle)
    ensures StackMap(owner[p := h]) == StackMap(owner)[StackBottom(p) := StackTop(p)]
  {
  }

  lemma BottomInjective(p: nat, q: nat)
    requires StackBottom(p) == StackBottom(q)
    ensures p == q
  {
    hide StackBottom, StackTop;
    if p < q { StacksApart(p, q); StackHeight(q); }
    if q < p { StacksApart(q, p); StackHeight(p); }
  }

  lemma StackHeight(p: nat)
    ensures StackBottom(p) < StackTop(p)
  {
  }

  lemma StackDropped(owner: map<nat, Handle>, p: nat)
    requires p in owner
    ensures StackMap(owner - {p}) == StackMap(owner) - {StackBottom(p)}
  {
    hide StackBottom, StackTop;
    var a, b := StackMap(owner - {p}), StackMap(owner) - {StackBottom(p)};
    forall k | k in b ensures k in a && a[k] == b[k] {
      var q :| q in owner && k == StackBottom(q);
      assert q in owner - {p};
    }
    forall k | k in a ensures k in b {
      var q :| q in owner - {p} && k == StackBottom(q);
      if StackBottom(q) == StackBottom(p) { BottomInjective(p, q); }
    }
  }

  lemma ForkHistory(s: KState)
    requires HistoryInv(s.procs, s.nextHandle, s.exited, s.collected) && Runs(s)
    ensures var r := ForkStep(s); HistoryInv(r.procs, r.nextHandle, r.exited, r.collected)
  {
    hide HistoryInv, AllocatedPid, AfterAlloc, StackBottom, StackTop, Enqueued;
    Born(s.procs, s.nextHandle, s.exited, s.collected, ForkStep(s).procs);
  }

  /** The history when a process is made. */
  lemma Born(procs: map<Handle, Pcb>, n: Handle, exited: map<Handle, int>, collected: seq<Handle>,
             after: map<Handle, Pcb>)
    requires HistoryInv(procs, n, exited, collected)
    requires after.Keys == procs.Keys + {n} && after[n].status != Zombie
    requires forall h :: h in procs && h != n ==>
               after[h].status == procs[h].status && after[h].exitCode == procs[h].exitCode
    ensures HistoryInv(after, n + 1, exited, collected)
  {
    hide NoDup;
    assert n !in procs && n !in exited;
  }

  lemma ForkKeeps(s: KState)
    requires Inv(s) && Runs(s)
    ensures Inv(ForkStep(s))
  {
    ForkTree(s);
    ForkSched(s);
    ForkPids(s);
    ForkPool(s);
    ForkHistory(s);
  }

  // ---- Exit ----

  /** What the table looks like to the other processes after an exit. */
  lemma ExitTree(s: KState, code: int)
    requires Inv(s) && Runs(s) && s.procs[s.current.value].pid != 0
    ensures TreeInv(ExitStep(s, code).procs)
  {
    hide SchedInv, PoolInv, HistoryInv, Waiting, StackMap, FirstReady;
    var me, r := s.current.value, ExitStep(s, code).procs;
    var kids := s.procs[me].children;
    assert NodeOk(s.procs, me);
    assert NodeOk(s.procs, INIT);
    assert me !in kids;
    InitNode(s, code);
    forall h | h in r ensures NodeOk(r, h) {
      if h != INIT && h != me {
        OtherNode(s, code, h);
      }
    }
  }

  lemma InitNode(s: KState, code: int)
    requires Inv(s) && Runs(s) && s.procs[s.current.value].pid != 0
    ensures NodeOk(ExitStep(s, code).procs, INIT)
  {
    hide SchedInv, PoolInv, HistoryInv, Waiting, StackMap, FirstReady;
    var me, r := s.current.value, ExitStep(s, code).procs;
    var a, kids := s.procs[INIT].children, s.procs[me].children;
    assert NodeOk(s.procs, me) && NodeOk(s.procs, INIT);
    forall i, j | 0 <= i < j < |a + kids| ensures (a + kids)[i] != (a + kids)[j] {
      if i < |a| <= j {
        assert a[i] in a && kids[j - |a|] in kids;
      }
    }
    forall c | c in a + kids ensures c in r && c != INIT && r[c].parent == Some(INIT) {
      if c in a { assert s.procs[c].parent == Some(INIT); }
    }
  }

  lemma OtherNode(s: KState, code: int, h: Handle)
    requires Inv(s) && Runs(s) && s.procs[s.current.value].pid != 0
    requires h in s.procs && h != INIT && h != s.current.value
    ensures NodeOk(ExitStep(s, code).procs, h)
  {
    hide SchedInv, PoolInv, HistoryInv, NoDup, Waiting, StackMap, FirstReady;
    var me, r := s.current.value, ExitStep(s, code).procs;
    var kids := s.procs[me].children;
    assert NodeOk(s.procs, me) && NodeOk(s.procs, h);
    assert r[h].children == s.procs[h].children && r[h].status == s.procs[h].status;
    if h in kids {
      assert h in r[INIT].children;
    } else {
      var q := s.procs[h].parent.value;
      assert NodeOk(s.procs, q);
      assert q != me;
      assert h in r[q].children;
    }
    forall c | c in r[h].children ensures c in r && c != INIT && r[c].parent == Some(h) {
      assert s.procs[c].parent == Some(h);
      assert c !in kids;
    }
  }

  lemma ExitSched(s: KState, code: int)
    requires Inv(s) && Runs(s) && s.procs[s.current.value].pid != 0
    ensures var r := ExitStep(s, code); SchedInv(r.procs, r.queues, r.current)
  {
    hide TreeInv, PidInv, PoolInv, HistoryInv, Waiting, StackMap, FirstReady;
    var r := ExitStep(s, code);
    forall k: Handle ensures Waiting(r.queues)[k] == if IsReady(r.procs, k) then 1 else 0 {
      assert Waiting(s.queues)[k] == if IsReady(s.procs, k) then 1 else 0;
    }
  }

  lemma ExitPids(s: KState, code: int)
    requires Inv(s) && Runs(s) && s.procs[s.current.value].pid != 0
    ensures var r := ExitStep(s, code);
            PidInv(r.procs, r.byPid, r.owner) && PoolInv(r.pids, r.owner) && r.stacks == StackMap(r.owner)
  {
    hide TreeInv, HistoryInv, Waiting, StackMap, FirstReady;
    var r, me := ExitStep(s, code), s.current.value;
    assert HoldsPid(s.procs, s.byPid, s.owner, me);
    forall h | h in r.procs ensures HoldsPid(r.procs, r.byPid, r.owner, h) {
      assert HoldsPid(s.procs, s.byPid, s.owner, h);
    }
    forall p | p in r.owner ensures HeldPid(r.procs, r.owner, p) { assert HeldPid(s.procs, s.owner, p); }
  }

  lemma ExitHistory(s: KState, code: int)
    requires Inv(s) && Runs(s) && s.procs[s.current.value].pid != 0
    ensures var r := ExitStep(s, code); HistoryInv(r.procs, r.nextHandle, r.exited, r.collected)
  {
    hide TreeInv, PidInv, PoolInv, HistoryInv, Waiting, StackMap;
    Ended(s.procs, s.nextHandle, s.exited, s.collected, s.current.value, code, ExitStep(s, code).procs);
  }

  /** The history when process `me` ends. */
  lemma Ended(procs: map<Handle, Pcb>, n: Handle, exited: map<Handle, int>, collected: seq<Handle>, me: Handle,
              code: int, after: map<Handle, Pcb>)
    requires HistoryInv(procs, n, exited, collected) && me in procs && procs[me].status != Zombie
    requires after.Keys == procs.Keys && after[me].status == Zombie && after[me].exitCode == code
    requires forall h :: h in procs && h != me ==>
               after[h].status == procs[h].status && after[h].exitCode == procs[h].exitCode
    ensures HistoryInv(after, n, exited[me := code], collected)
  {
    hide NoDup;
  }

  lemma ExitKeeps(s: KState, code: int)
    requires Inv(s) && Runs(s)
    ensures Inv(ExitStep(s, code))
  {
    if s.procs[s.current.value].pid != 0 {
      ExitTree(s, code);
      ExitSched(s, code);
      ExitPids(s, code);
      ExitHistory(s, code);
    }
  }

  // ---- Waitpid ----

  lemma RemovedHas<T>(s: seq<T>, i: nat)
    requires i < |s| && NoDup(s)
    ensures NoDup(Removed(s, i))
    ensures forall x :: x in Removed(s, i) <==> x in s && x != s[i]
  {
    var r := Removed(s, i);
    forall x | x in s && x != s[i] ensures x in r {
      var j :| 0 <= j < |s| && s[j] == x;
      assert x == if j < i then r[j] else r[j - 1];
    }
  }

  lemma CollectTree(s: KState, i: nat)
    requires Inv(s) && Collects(s, i)
    ensures TreeInv(AfterCollect(s, i).procs)
  {
    hide SchedInv, PidInv, PoolInv, HistoryInv, Removed, Waiting, StackMap, FirstReady;
    var me, r := s.current.value, AfterCollect(s, i).procs;
    var kids := s.procs[me].children;
    var child := kids[i];
    assert NodeOk(s.procs, me) && NodeOk(s.procs, child);
    RemovedHas(kids, i);
    forall h | h in r ensures NodeOk(r, h) {
      assert NodeOk(s.procs, h);
      CollectNode(s, i, h);
    }
  }

  lemma CollectNode(s: KState, i: nat, h: Handle)
    requires Inv(s) && Collects(s, i) && h in s.procs && h != s.procs[s.current.value].children[i]
    ensures h in AfterCollect(s, i).procs && NodeOk(AfterCollect(s, i).procs, h)
  {
    hide SchedInv, PidInv, PoolInv, HistoryInv, Removed, NoDup, Waiting, StackMap, FirstReady;
    var me, r := s.current.value, AfterCollect(s, i).procs;
    var kids := s.procs[me].children;
    var child := kids[i];
    assert NodeOk(s.procs, me) && NodeOk(s.procs, child) && NodeOk(s.procs, h);
    RemovedHas(kids, i);
    assert me != child;
    if h != INIT {
      var q := s.procs[h].parent.value;
      assert h in s.procs[q].children;
      assert q != child;
      assert h in r[q].children;
    }
    forall c | c in r[h].children ensures c in r && c != INIT && r[c].parent == Some(h) {
      assert c in s.procs[h].children;
      assert s.procs[c].parent == Some(h);
    }
  }

  lemma CollectSched(s: KState, i: nat)
    requires Inv(s) && Collects(s, i)
    ensures var r := AfterCollect(s, i); SchedInv(r.procs, r.queues, r.current)
  {
    hide TreeInv, PidInv, PoolInv, HistoryInv, Waiting, StackMap, FirstReady;
    var r := AfterCollect(s, i);
    forall k: Handle ensures Waiting(r.queues)[k] == if IsReady(r.procs, k) then 1 else 0 {
      assert Waiting(s.queues)[k] == if IsReady(s.procs, k) then 1 else 0;
    }
  }

  lemma CollectPids(s: KState, i: nat)
    requires Inv(s) && Collects(s, i)
    ensures var r := AfterCollect(s, i); PidInv(r.procs, r.byPid, r.owner)
  {
    hide PoolInv, HistoryInv, Removed, Waiting, StackMap, FirstReady;
    var r := AfterCollect(s, i);
    var child := s.procs[s.current.value].children[i];
    assert HoldsPid(s.procs, s.byPid, s.owner, child);
    assert NodeOk(s.procs, s.current.value);
    forall h | h in r.procs ensures HoldsPid(r.procs, r.byPid, r.owner, h) {
      assert HoldsPid(s.procs, s.byPid, s.owner, h);
    }
    forall p | p in r.owner ensures HeldPid(r.procs, r.owner, p) { assert HeldPid(s.procs, s.owner, p); }
  }

  lemma CollectPool(s: KState, i: nat)
    requires Inv(s) && Collects(s, i)
    ensures var r := AfterCollect(s, i); PoolInv(r.pids, r.owner) && r.stacks == StackMap(r.owner)
  {
    hide TreeInv, SchedInv, HistoryInv, Removed, Waiting, StackMap, FirstReady;
    var child := s.procs[s.current.value].children[i];
    assert HoldsPid(s.procs, s.byPid, s.owner, child);
    StackDropped(s.owner, s.procs[child].pid);
  }

  lemma CollectHistory(s: KState, i: nat)
    requires Inv(s) && Collects(s, i)
    ensures var r := AfterCollect(s, i); HistoryInv(r.procs, r.nextHandle, r.exited, r.collected)
  {
    hide TreeInv, PidInv, PoolInv, SchedInv, HistoryInv, Removed, StackMap;
    var me := s.current.value;
    var child := s.procs[me].children[i];
    assert child != me by { NotOwnChild(s.procs, me, child); }
    Gone(s.procs, s.nextHandle, s.exited, s.collected, child, AfterCollect(s, i).procs);
  }

  lemma NotOwnChild(procs: map<Handle, Pcb>, me: Handle, child: Handle)
    requires TreeInv(procs) && me in procs && child in procs[me].children
    ensures child in procs && child != me
  {
    assert NodeOk(procs, me);
    assert NodeOk(procs, child);
  }

  /** The history when an ended process is collected. */
  lemma Gone(procs: map<Handle, Pcb>, n: Handle, exited: map<Handle, int>, collected: seq<Handle>, child: Handle,
             after: map<Handle, Pcb>)
    requires HistoryInv(procs, n, exited, collected) && child in procs && procs[child].status == Zombie
    requires after.Keys == procs.Keys - {child}
    requires forall h :: h in after ==> after[h].status == procs[h].status && after[h].exitCode == procs[h].exitCode
    ensures HistoryInv(after, n, exited, collected + [child])
  {
    assert child !in collected;
  }

  lemma WaitKeeps(s: KState, pid: int)
    requires Inv(s) && Runs(s) && KidsKnown(s)
    ensures Inv(WaitStep(s, pid))
  {
    hide Inv, Removed, Waiting, StackMap, FirstReady;
    var kids := s.procs[s.current.value].children;
    var i := FirstEnded(s.procs, kids, pid);
    if i < |kids| {
      CollectKeeps(s, i);
    }
  }

  lemma CollectKeeps(s: KState, i: nat)
    requires Inv(s) && Collects(s, i)
    ensures Inv(AfterCollect(s, i))
  {
    CollectTree(s, i);
    CollectSched(s, i);
    CollectPids(s, i);
    CollectPool(s, i);
    CollectHistory(s, i);
  }

  // ---- All runs ----

  lemma BootWaiting()
    ensures Waiting([[INIT], [], [], []]) == multiset{INIT}
  {
    var q: seq<seq<Handle>> := [[INIT], [], [], []];
    assert q[1..] == [[], [], []] && q[1..][1..] == [[], []] && q[1..][1..][1..] == [[]];
    assert Waiting(q[1..][1..][1..]) == multiset{};
    assert Waiting(q[1..][1..]) == multiset{};
    assert Waiting(q[1..]) == multiset{};
  }

  lemma BootInv()
    ensures Inv(Boot())
  {
    hide Waiting, StackMap, SchedInv, PidInv, HistoryInv, TreeInv;
    BootSched();
    BootTree();
    BootPids();
  }

  lemma BootSched()
    ensures SchedInv(Boot().procs, Boot().queues, Boot().current)
  {
    hide Waiting;
    BootWaiting();
  }

  lemma BootTree()
    ensures TreeInv(Boot().procs)
    ensures HistoryInv(Boot().procs, Boot().nextHandle, Boot().exited, Boot().collected)
  {
    assert NodeOk(Boot().procs, INIT);
  }

  lemma BootPids()
    ensures PidInv(Boot().procs, Boot().byPid, Boot().owner) && Boot().stacks == StackMap(Boot().owner)
  {
    assert HoldsPid(Boot().procs, Boot().byPid, Boot().owner, INIT);
    assert HeldPid(Boot().procs, Boot().owner, 0);
  }

  lemma StepKeeps(s: KState, op: Op)
    requires Inv(s)
    ensures Inv(Step(s, op))
  {
    hide Inv, ScheduleStep, SuspendStep, ForkStep, ExitStep, WaitStep, OpenStep, Waiting, StackMap, FirstReady;
    if op == Schedule {
      ScheduleKeeps(s);
    } else if Runs(s) {
      match op
      case Suspend => SuspendKeeps(s);
      case Fork => ForkKeeps(s);
      case Exit(code) => ExitKeeps(s, code);
      case Wait(pid) => if KidsKnown(s) { WaitKeeps(s, pid); }
      case Open(f) => OpenKeeps(s, f);
    }
  }

  lemma {:induction false} RunKeeps(s: KState, ops: seq<Op>)
    requires Inv(s)
    ensures Inv(Run(s, ops))
    decreases |ops|
  {
    hide Inv, Step, Waiting, StackMap, FirstReady;
    if ops != [] {
      RunKeeps(s, ops[..|ops| - 1]);
      StepKeeps(Run(s, ops[..|ops| - 1]), ops[|ops| - 1]);
    }
  }
}
