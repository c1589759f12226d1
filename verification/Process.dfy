/**
 * The state of the process subsystem and what each operation does to it.
 *
 * A handle stands for one process control block for as long as it exists; handles are
 * never used again, process identifiers are.  `KState` puts the global variables of the
 * kernel side by side, together with three histories: which handle holds a process
 * identifier, the exit codes of processes that have ended, and the order in which they
 * were collected.
 */
module ProcessState {
  import opened Basics

  type Handle = nat

  /** `INITPROC`. */
  const INIT: Handle := 0
  const QUEUE_COUNT := 4
  const PAGE := 4096
  const KERNEL_STACK_SIZE := 8192
  const TRAMPOLINE := 0x1_0000_0000_0000_0000 - PAGE
  const USIZE := 0x1_0000_0000_0000_0000

  datatype Status = Ready | Running | Zombie

  type File = nat

  datatype Pcb = Pcb(
    pid: nat,
    status: Status,
    parent: Option<Handle>,
    children: seq<Handle>,
    exitCode: int,
    fds: seq<Option<File>>)

  datatype Pids = Pids(next: nat, recycled: seq<nat>)

  datatype KState = KState(
    procs: map<Handle, Pcb>,
    queues: seq<seq<Handle>>,
    current: Option<Handle>,
    byPid: map<nat, Handle>,
    pids: Pids,
    stacks: map<int, int>,         // kernel stack areas: bottom to top
    nextHandle: Handle,                // next handle
    halted: bool,
    owner: map<nat, Handle>,
    exited: map<Handle, int>,
    collected: seq<Handle>)

  // ---- Pieces ----

  function StackTop(pid: nat): int { TRAMPOLINE - (KERNEL_STACK_SIZE + PAGE) * pid }

  function StackBottom(pid: nat): int { StackTop(pid) - KERNEL_STACK_SIZE }

  /** `kernel_stack_position`: a guard page lies between any two kernel stacks. */
  lemma StacksApart(p: nat, q: nat)
    requires p < q
    ensures StackTop(q) + PAGE <= StackBottom(p) && StackTop(p) <= TRAMPOLINE
  {
    assert (KERNEL_STACK_SIZE + PAGE) * q >= (KERNEL_STACK_SIZE + PAGE) * (p + 1);
  }

  /** The first kernel stack ends at the trampoline; each has two pages, and the next one
      ends a page below its bottom. */
  lemma StackPosition(p: nat)
    ensures StackTop(0) == 0xFFFF_FFFF_FFFF_F000
    ensures StackTop(p) - StackBottom(p) == 0x2000 && StackBottom(p) - StackTop(p + 1) == 0x1000
  {
    assert (KERNEL_STACK_SIZE + PAGE) * (p + 1) == (KERNEL_STACK_SIZE + PAGE) * p + KERNEL_STACK_SIZE + PAGE;
  }

  function AllocatedPid(a: Pids): nat {
    if a.recycled == [] then a.next else a.recycled[|a.recycled| - 1]
  }

  function AfterAlloc(a: Pids): Pids {
    if a.recycled == [] then Pids(a.next + 1, []) else Pids(a.next, a.recycled[..|a.recycled| - 1])
  }

  /** Index of the first queue that is not empty, or the number of queues. */
  function FirstReady(queues: seq<seq<Handle>>): (q: nat)
    ensures q <= |queues|
    ensures q < |queues| ==> queues[q] != []
    ensures forall i :: 0 <= i < q ==> queues[i] == []
  {
    if queues == [] then 0
    else if queues[0] != [] then 0
    else
      var r := FirstReady(queues[1..]);
      assert forall i :: 0 < i < 1 + r ==> queues[i] == queues[1..][i - 1];
      1 + r
  }

  function Enqueued(queues: seq<seq<Handle>>, h: Handle): seq<seq<Handle>> {
    if queues == [] then [] else queues[0 := queues[0] + [h]]
  }

  predicate Matches(p: Pcb, pid: int) {
    pid == -1 || (if pid < 0 then pid + USIZE else pid) == p.pid
  }

  /** The place of the lowest free descriptor, or the end of the table. */
  ghost predicate IsSlot(fds: seq<Option<File>>, fd: nat) {
    && fd <= |fds| && (fd < |fds| ==> fds[fd] == None)
    && forall i :: 0 <= i < fd ==> fds[i] != None
  }

  function LowestFree(fds: seq<Option<File>>): (fd: nat)
    ensures IsSlot(fds, fd)
  {
    if fds == [] then 0
    else if fds[0] == None then 0
    else
      var r := LowestFree(fds[1..]);
      assert forall i :: 0 < i < 1 + r ==> fds[i] == fds[1..][i - 1];
      1 + r
  }

  function WithFile(fds: seq<Option<File>>, f: File): (r: seq<Option<File>>) {
    var fd := LowestFree(fds);
    if fd < |fds| then fds[fd := Some(f)] else fds + [Some(f)]
  }

  // ---- Operations ----

  /** After `add_initproc`. */
  function Boot(): KState {
    KState(map[INIT := Pcb(0, Ready, None, [], 0, [Some(0), Some(1), Some(2)])],
           [[INIT], [], [], []], None, map[0 := INIT], Pids(1, []),
           map[StackBottom(0) := StackTop(0)], 1, false, map[0 := INIT], map[], [])
  }

  /** A process runs: nobody else may use the operations below. */
  predicate Runs(s: KState) {
    !s.halted && s.current.Some? && s.current.value in s.procs
  }

  /** One turn of `run_process`. */
  function ScheduleStep(s: KState): KState {
    var q := FirstReady(s.queues);
    if s.halted || s.current.Some? || q == |s.queues| || s.queues[q][0] !in s.procs then s
    else
      var h := s.queues[q][0];
      s.(queues := s.queues[q := s.queues[q][1..]],
         procs := s.procs[h := s.procs[h].(status := Running)],
         current := Some(h))
  }

  function SuspendStep(s: KState): KState
    requires Runs(s)
  {
    var h := s.current.value;
    s.(current := None,
       procs := s.procs[h := s.procs[h].(status := Ready)],
       byPid := s.byPid[s.procs[h].pid := h],
       queues := Enqueued(s.queues, h))
  }

  function ForkStep(s: KState): KState
    requires Runs(s)
  {
    var me, child, pid := s.current.value, s.nextHandle, AllocatedPid(s.pids);
    var p := s.procs[me];
    s.(procs := s.procs[me := p.(children := p.children + [child])][child := Pcb(pid, Ready, Some(me), [], 0, p.fds)],
       queues := Enqueued(s.queues, child),
       byPid := s.byPid[pid := child],
       pids := AfterAlloc(s.pids),
       stacks := s.stacks[StackBottom(pid) := StackTop(pid)],
       nextHandle := s.nextHandle + 1,
       owner := s.owner[pid := child])
  }

  /** The table after `kids` were handed over to the initial process. */
  function Adopted(procs: map<Handle, Pcb>, kids: seq<Handle>): (r: map<Handle, Pcb>)
    ensures r.Keys == procs.Keys
  {
    map h | h in procs :: if h == INIT then procs[h].(children := procs[h].children + kids)
                          else if h in kids then procs[h].(parent := Some(INIT))
                          else procs[h]
  }

  function ExitStep(s: KState, code: int): KState
    requires Runs(s)
  {
    var me := s.current.value;
    var p := s.procs[me];
    if p.pid == 0 then s.(halted := true)
    else s.(current := None,
            procs := Adopted(s.procs, p.children)[me := p.(status := Zombie, exitCode := code, children := [])],
            byPid := s.byPid - {p.pid},
            exited := s.exited[me := code])
  }

  datatype WaitResult = NoChild | StillRunning | Collected(pid: nat, code: int)

  /** Place of the first child in `kids` that has ended and matches `pid`, or the end. */
  function FirstEnded(procs: map<Handle, Pcb>, kids: seq<Handle>, pid: int): (i: nat)
    requires forall c :: c in kids ==> c in procs
    ensures i <= |kids|
    ensures i < |kids| ==> procs[kids[i]].status == Zombie && Matches(procs[kids[i]], pid)
    ensures i < |kids| ==> (pid >= 0 ==> procs[kids[i]].pid == pid) && (pid < -1 ==> procs[kids[i]].pid == pid + USIZE)
    ensures forall j :: 0 <= j < i && procs[kids[j]].status == Zombie ==> pid != -1 && procs[kids[j]].pid != pid
    ensures forall j :: 0 <= j < i ==> !(procs[kids[j]].status == Zombie && Matches(procs[kids[j]], pid))
  {
    if kids == [] then 0
    else if procs[kids[0]].status == Zombie && Matches(procs[kids[0]], pid) then 0
    else
      var r := FirstEnded(procs, kids[1..], pid);
      assert forall j :: 0 < j < 1 + r ==> kids[j] == kids[1..][j - 1];
      1 + r
  }

  predicate KidsKnown(s: KState)
    requires Runs(s)
  {
    forall c :: c in s.procs[s.current.value].children ==> c in s.procs
  }

  function Removed<T>(s: seq<T>, i: nat): seq<T>
    requires i < |s|
  {
    s[..i] + s[i + 1..]
  }

  function WaitOutcome(s: KState, pid: int): WaitResult
    requires Runs(s) && KidsKnown(s)
  {
    var kids := s.procs[s.current.value].children;
    var i := FirstEnded(s.procs, kids, pid);
    if i < |kids| then Collected(s.procs[kids[i]].pid, s.procs[kids[i]].exitCode)
    else if exists j :: 0 <= j < |kids| && Matches(s.procs[kids[j]], pid) then StillRunning
    else NoChild
  }

  /** The `i`-th child of the running process has ended. */
  predicate Collects(s: KState, i: nat) {
    && Runs(s) && i < |s.procs[s.current.value].children|
    && var c := s.procs[s.current.value].children[i]; c in s.procs && s.procs[c].status == Zombie
  }

  /** The `i`-th child is collected and loses its last reference: its control block, its
      identifier and its kernel stack go. */
  function AfterCollect(s: KState, i: nat): KState
    requires Collects(s, i)
  {
    var me := s.current.value;
    var p := s.procs[me];
    var child := p.children[i];
    var id := s.procs[child].pid;
    s.(procs := s.procs[me := p.(children := Removed(p.children, i))] - {child},
       pids := s.pids.(recycled := s.pids.recycled + [id]),
       stacks := s.stacks - {StackBottom(id)},
       owner := s.owner - {id},
       collected := s.collected + [child])
  }

  function WaitStep(s: KState, pid: int): KState
    requires Runs(s) && KidsKnown(s)
  {
    var kids := s.procs[s.current.value].children;
    var i := FirstEnded(s.procs, kids, pid);
    if i < |kids| then AfterCollect(s, i) else s
  }

  /** `alloc_fd` and storing the file there. */
  function OpenStep(s: KState, f: File): KState
    requires Runs(s)
  {
    var me := s.current.value;
    s.(procs := s.procs[me := s.procs[me].(fds := WithFile(s.procs[me].fds, f))])
  }

  datatype Op = Schedule | Suspend | Fork | Exit(code: int) | Wait(pid: int) | Open(file: File)

  function Step(s: KState, op: Op): KState {
    if op == Schedule then ScheduleStep(s)
    else if !Runs(s) then s
    else match op
      case Suspend => SuspendStep(s)
      case Fork => ForkStep(s)
      case Exit(code) => ExitStep(s, code)
      case Wait(pid) => if KidsKnown(s) then WaitStep(s, pid) else s
      case Open(f) => OpenStep(s, f)
  }

  function Run(s: KState, ops: seq<Op>): KState {
    if ops == [] then s else Step(Run(s, ops[..|ops| - 1]), ops[|ops| - 1])
  }

  // ---- The invariant ----

  /** One process in the tree.  Parents are older than their children, so there is no cycle. */
  ghost predicate NodeOk(procs: map<Handle, Pcb>, h: Handle)
    requires h in procs
  {
    var p := procs[h];
    && (h == INIT ==> p.parent == None && p.status != Zombie)
    && (h != INIT ==> p.parent.Some? && p.parent.value in procs && p.parent.value < h
                      && h in procs[p.parent.value].children)
    && NoDup(p.children)
    && (forall c :: c in p.children ==> c in procs && c != INIT && procs[c].parent == Some(h))
    && (p.status == Zombie ==> p.children == [])
  }

  ghost predicate TreeInv(procs: map<Handle, Pcb>) {
    INIT in procs && forall h {:trigger NodeOk(procs, h)} :: h in procs ==> NodeOk(procs, h)
  }

  /** How often each process waits in the queues. */
  ghost function Waiting(queues: seq<seq<Handle>>): multiset<Handle> {
    if queues == [] then multiset{} else multiset(queues[0]) + Waiting(queues[1..])
  }

  ghost predicate IsReady(procs: map<Handle, Pcb>, h: Handle) {
    h in procs && procs[h].status == Ready
  }

  /** Ready processes wait exactly once, the running one is the current one. */
  ghost predicate SchedInv(procs: map<Handle, Pcb>, queues: seq<seq<Handle>>, current: Option<Handle>) {
    && |queues| == QUEUE_COUNT
    && (forall h: Handle :: Waiting(queues)[h] == if IsReady(procs, h) then 1 else 0)
    && (forall h :: h in procs && procs[h].status == Running ==> current == Some(h))
    && (current.Some? ==> current.value in procs && procs[current.value].status == Running)
  }

  ghost predicate HoldsPid(procs: map<Handle, Pcb>, byPid: map<nat, Handle>, owner: map<nat, Handle>, h: Handle)
    requires h in procs
  {
    var p := procs[h];
    && p.pid in owner && owner[p.pid] == h
    && (p.status != Zombie <==> p.pid in byPid)
    && (p.pid in byPid ==> byPid[p.pid] == h)
  }

  ghost predicate HeldPid(procs: map<Handle, Pcb>, owner: map<nat, Handle>, p: nat) {
    p in owner && owner[p] in procs && procs[owner[p]].pid == p
  }

  /** Processes and identifiers name each other; the lookup table has those that have not ended. */
  ghost predicate PidInv(procs: map<Handle, Pcb>, byPid: map<nat, Handle>, owner: map<nat, Handle>) {
    && (INIT in procs ==> procs[INIT].pid == 0)
    && (forall h {:trigger HoldsPid(procs, byPid, owner, h)} :: h in procs ==> HoldsPid(procs, byPid, owner, h))
    && (forall p {:trigger p in byPid} :: p in byPid ==> p in owner)
    && (forall p {:trigger HeldPid(procs, owner, p)} :: p in owner ==> HeldPid(procs, owner, p))
  }

  /** Identifiers handed out and identifiers to be used again share out `0 .. next`. */
  ghost predicate PoolInv(pids: Pids, owner: map<nat, Handle>) {
    && NoDup(pids.recycled)
    && (forall p :: p in pids.recycled ==> p < pids.next && p !in owner)
    && (forall p :: p in owner ==> p < pids.next)
    && (forall p: nat :: p < pids.next ==> p in owner || p in pids.recycled)
  }

  /** The kernel stacks of all processes. */
  ghost function StackMap(owner: map<nat, Handle>): map<int, int> {
    map p | p in owner :: StackBottom(p) := StackTop(p)
  }

  ghost predicate HistoryInv(procs: map<Handle, Pcb>, nextHandle: Handle, exited: map<Handle, int>,
                             collected: seq<Handle>) {
    && (forall h :: h in procs ==> h < nextHandle && (procs[h].status == Zombie <==> h in exited))
    && (forall h :: h in procs && h in exited ==> procs[h].exitCode == exited[h])
    && (forall h :: h in exited ==> h < nextHandle && (h in procs || h in collected))
    && (forall h :: h in collected ==> h in exited && h !in procs)
    && NoDup(collected)
  }

  ghost predicate Inv(s: KState) {
    && TreeInv(s.procs)
    && SchedInv(s.procs, s.queues, s.current)
    && PidInv(s.procs, s.byPid, s.owner)
    && PoolInv(s.pids, s.owner)
    && s.stacks == StackMap(s.owner)
    && HistoryInv(s.procs, s.nextHandle, s.exited, s.collected)
  }
}
