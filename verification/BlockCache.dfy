/**
 * The write-back block cache.
 *
 * A `BlockCacheManager` keeps at most sixteen blocks of one device in a queue.
 * `view` is the plain array of blocks the rest of the file system believes
 * in: the cached copy where there is one, the device otherwise.  Lookups and
 * evictions never change it, `Modify` changes one element, and after `SyncAll`
 * the device equals it.
 */
module BlockCacheLayer {
  import opened LittleEndian

  const BLOCK_SZ := 512
  const BLOCK_CACHE_SIZE := 16

  type Block = b: seq<Byte> | |b| == 512 witness seq(512, i => 0)

  type Disk = seq<Block>

  function ZeroBlock(): (b: Block)
    ensures forall i :: 0 <= i < 512 ==> b[i] == 0
  {
    seq(512, i => 0)
  }

  /** The two disks differ at most in blocks `lo .. hi`. */
  ghost predicate SameOutside(d: Disk, d2: Disk, lo: nat, hi: nat) {
    |d| == |d2| && forall i :: 0 <= i < |d| && !(lo <= i < hi) ==> d2[i] == d[i]
  }

  /** A queue slot.  `strong` is the reference count of the shared entry: one for
      the queue itself plus one for every handle still held by a caller. */
  datatype CacheEntry = CacheEntry(id: nat, cache: Block, modified: bool, strong: nat)

  predicate Cached(q: seq<CacheEntry>, id: nat) {
    exists k :: 0 <= k < |q| && q[k].id == id
  }

  predicate HasUnpinned(q: seq<CacheEntry>) {
    exists k :: 0 <= k < |q| && q[k].strong == 1
  }

  ghost predicate OldestUnpinned(q: seq<CacheEntry>, k: nat) {
    k < |q| && q[k].strong == 1 && forall j :: 0 <= j < k ==> q[j].strong != 1
  }

  /** `v` is `dev` with the cached copies laid over it, and `pins` counts, per
      block, the handles held outside the queue. */
  ghost predicate Consistent(q: seq<CacheEntry>, dev: Disk, v: Disk, pins: multiset<nat>) {
    && |q| <= BLOCK_CACHE_SIZE
    && |v| == |dev|
    && (forall i, j :: 0 <= i < j < |q| ==> q[i].id != q[j].id)
    && (forall k :: 0 <= k < |q| ==> SlotOk(q[k], dev, v, pins))
    && (forall i {:trigger Cached(q, i)} :: 0 <= i < |dev| && !Cached(q, i) ==> v[i] == dev[i])
    && (forall i {:trigger Cached(q, i)} :: i in pins ==> Cached(q, i))
  }

  ghost predicate SlotOk(e: CacheEntry, dev: Disk, v: Disk, pins: multiset<nat>)
    requires |v| == |dev|
  {
    && e.id < |dev|
    && v[e.id] == e.cache
    && (!e.modified ==> e.cache == dev[e.id])
    && e.strong == pins[e.id] + 1
  }

  /** Dropping an unpinned entry after writing it back. */
  lemma EvictConsistent(q: seq<CacheEntry>, dev: Disk, v: Disk, pins: multiset<nat>, k: nat)
    requires Consistent(q, dev, v, pins) && k < |q| && q[k].strong == 1
    ensures !Cached(q[..k] + q[k + 1..], q[k].id)
    ensures forall i :: Cached(q[..k] + q[k + 1..], i) ==> Cached(q, i)
    ensures Consistent(q[..k] + q[k + 1..], dev[q[k].id := q[k].cache], v, pins)
  {
    var q2, dev2 := q[..k] + q[k + 1..], dev[q[k].id := q[k].cache];
    forall i | Cached(q, i) && i != q[k].id
      ensures Cached(q2, i)
    {
      var j :| 0 <= j < |q| && q[j].id == i;
      assert q2[if j < k then j else j - 1].id == i;
    }
  }

  /** Loading a block the queue does not hold, with one handle given out. */
  lemma LoadConsistent(q: seq<CacheEntry>, dev: Disk, v: Disk, pins: multiset<nat>, id: nat)
    requires Consistent(q, dev, v, pins) && |q| < BLOCK_CACHE_SIZE
    requires id < |dev| && !Cached(q, id)
    ensures Cached(q + [CacheEntry(id, dev[id], false, 2)], id)
    ensures Consistent(q + [CacheEntry(id, dev[id], false, 2)], dev, v, pins + multiset{id})
  {
    var q2 := q + [CacheEntry(id, dev[id], false, 2)];
    assert q2[|q|].id == id;
    forall i | Cached(q, i)
      ensures Cached(q2, i)
    {
      var j :| 0 <= j < |q| && q[j].id == i;
      assert q2[j].id == i;
    }
  }

  /** Replacing slot `k` by another entry for the same block. */
  lemma UpdateConsistent(q: seq<CacheEntry>, dev: Disk, v: Disk, pins: multiset<nat>,
                         k: nat, e: CacheEntry, dev2: Disk, v2: Disk, pins2: multiset<nat>)
    requires Consistent(q, dev, v, pins) && k < |q| && e.id == q[k].id
    requires |dev2| == |dev| && |v2| == |v|
    requires forall i :: 0 <= i < |dev| && i != e.id ==> dev2[i] == dev[i] && v2[i] == v[i]
    requires forall i: nat :: i != e.id ==> pins2[i] == pins[i]
    requires SlotOk(e, dev2, v2, pins2)
    ensures Consistent(q[k := e], dev2, v2, pins2)
  {
    var q2 := q[k := e];
    forall i | Cached(q, i)
      ensures Cached(q2, i)
    {
      var j :| 0 <= j < |q| && q[j].id == i;
      assert q2[j].id == i;
    }
    assert q2[k].id == e.id;
    forall j | 0 <= j < |q2|
      ensures SlotOk(q2[j], dev2, v2, pins2)
    {
      if j != k {
        assert SlotOk(q[j], dev, v, pins);
      }
    }
  }

  ghost function Ids(q: seq<CacheEntry>): (s: seq<nat>)
    ensures |s| == |q|
    ensures forall i :: 0 <= i < |q| ==> s[i] == q[i].id
  {
    seq(|q|, (i: nat) requires i < |q| => q[i].id)
  }

  lemma {:induction false} DistinctCount(s: seq<nat>, x: nat)
    requires forall i, j :: 0 <= i < j < |s| ==> s[i] != s[j]
    ensures multiset(s)[x] <= 1
  {
    if s != [] {
      assert s == [s[0]] + s[1..];
      assert s[0] !in s[1..];
      DistinctCount(s[1..], x);
    }
  }

  /** Pigeonhole: when no entry is unpinned there are at least as many handles as entries. */
  lemma AllPinned(q: seq<CacheEntry>, dev: Disk, v: Disk, pins: multiset<nat>)
    requires Consistent(q, dev, v, pins) && !HasUnpinned(q)
    ensures |pins| >= |q|
  {
    var ids := Ids(q);
    forall x | x in multiset(ids)
      ensures multiset(ids)[x] <= pins[x]
    {
      DistinctCount(ids, x);
      var k :| 0 <= k < |ids| && ids[k] == x;
      assert SlotOk(q[k], dev, v, pins);
    }
    assert pins == multiset(ids) + (pins - multiset(ids));
  }

  /** The entry of block `id` now holds `b` and is marked; the others are as they were. */
  ghost predicate OnlyMarked(q0: seq<CacheEntry>, q: seq<CacheEntry>, id: nat, b: Block) {
    && |q| == |q0|
    && forall k :: 0 <= k < |q| ==> q[k] == if q0[k].id == id then q0[k].(cache := b, modified := true) else q0[k]
  }

  class BlockCacheManager {
    var queue: seq<CacheEntry>
    var device: Disk
    ghost var view: Disk
    ghost var pins: multiset<nat>

    ghost predicate Valid()
      reads this
    {
      Consistent(queue, device, view, pins)
    }

    /** The device holds what the rest of the file system believes in. */
    ghost predicate Synced()
      reads this`device, this`view
    {
      device == view
    }

    /** Exactly when a lookup of `id` does not hit the "Run out of BlockCache!" panic. */
    predicate CanLookup(id: nat)
      reads this
    {
      Cached(queue, id) || |queue| < BLOCK_CACHE_SIZE || HasUnpinned(queue)
    }

    constructor (dev: Disk)
      ensures Valid() && view == dev && device == dev && queue == [] && pins == multiset{}
    {
      queue, device, view, pins := [], dev, dev, multiset{};
    }

    lemma FifteenPinsSuffice(id: nat)
      requires Valid() && |pins| < BLOCK_CACHE_SIZE
      ensures CanLookup(id)
    {
      if !CanLookup(id) {
        AllPinned(queue, device, view, pins);
      }
    }

    /** The slot of block `id`, or `|queue|`. */
    method FindSlot(id: nat) returns (k: nat)
      ensures k <= |queue|
      ensures k < |queue| ==> queue[k].id == id
      ensures k == |queue| ==> !Cached(queue, id)
    {
      k := 0;
      while k < |queue| && queue[k].id != id
        invariant k <= |queue|
        invariant forall j :: 0 <= j < k ==> queue[j].id != id
      {
        k := k + 1;
      }
    }

    /** The oldest slot nobody holds a handle on, or `|queue|`. */
    method FindVictim() returns (k: nat)
      ensures k <= |queue|
      ensures k < |queue| ==> queue[k].strong == 1
      ensures forall j :: 0 <= j < k ==> queue[j].strong != 1
    {
      k := 0;
      while k < |queue| && queue[k].strong != 1
        invariant k <= |queue|
        invariant forall j :: 0 <= j < k ==> queue[j].strong != 1
      {
        k := k + 1;
      }
    }

    /** Block lookup: a hit shares the entry and does not reorder the queue; a miss
        on a full queue drops (and thereby writes back) the oldest unpinned entry. */
    method Lookup(id: nat) returns (ok: bool)
      requires Valid() && id < |view|
      modifies this
      ensures Valid() && view == old(view) && |device| == old(|device|)
      ensures old(Synced()) ==> Synced()
      ensures ok == old(CanLookup(id))
      ensures old(|pins|) < BLOCK_CACHE_SIZE ==> ok
      ensures pins == if ok then old(pins) + multiset{id} else old(pins)
      ensures !ok ==> queue == old(queue) && device == old(device)
      ensures ok && old(Cached(queue, id)) ==> Ids(queue) == old(Ids(queue)) && device == old(device)
      ensures ok && !old(Cached(queue, id)) && old(|queue|) < BLOCK_CACHE_SIZE
              ==> queue == old(queue) + [CacheEntry(id, view[id], false, 2)] && device == old(device)
      ensures ok && !old(Cached(queue, id)) && old(|queue|) == BLOCK_CACHE_SIZE
              ==> exists k: nat ::
                    && OldestUnpinned(old(queue), k)
                    && queue == old(queue)[..k] + old(queue)[k + 1..] + [CacheEntry(id, view[id], false, 2)]
    {
      if |pins| < BLOCK_CACHE_SIZE { FifteenPinsSuffice(id); }
      var k := FindSlot(id);
      if k < |queue| {
        ShareSlot(k);
        return true;
      }
      ghost var idx := 0;
      if |queue| == BLOCK_CACHE_SIZE {
        var victim := FindVictim();
        if victim == |queue| {
          return false;
        }
        idx := victim;
        assert OldestUnpinned(queue, idx);
        EvictSlot(victim);
      }
      assert queue == old(queue) || queue == old(queue)[..idx] + old(queue)[idx + 1..];
      LoadConsistent(queue, device, view, pins, id);
      queue, pins := queue + [CacheEntry(id, device[id], false, 2)], pins + multiset{id};
      ok := true;
    }

    method ShareSlot(k: nat)
      requires Valid() && k < |queue|
      modifies this`queue, this`pins
      ensures Valid() && pins == old(pins) + multiset{old(queue)[k].id}
      ensures Ids(queue) == old(Ids(queue))
    {
      var e := queue[k].(strong := queue[k].strong + 1);
      assert SlotOk(queue[k], device, view, pins);
      UpdateConsistent(queue, device, view, pins, k, e, device, view, pins + multiset{e.id});
      queue, pins := queue[k := e], pins + multiset{e.id};
    }

    /** Removing the queue's reference drops the entry, and dropping writes it back. */
    method EvictSlot(k: nat)
      requires Valid() && k < |queue| && queue[k].strong == 1
      modifies this`queue, this`device
      ensures Valid() && |device| == old(|device|)
      ensures old(Synced()) ==> Synced()
      ensures queue == old(queue)[..k] + old(queue)[k + 1..]
      ensures forall i :: Cached(queue, i) ==> Cached(old(queue), i)
    {
      EvictConsistent(queue, device, view, pins, k);
      var e := queue[k];
      assert SlotOk(e, device, view, pins);
      if e.modified {
        device := device[e.id := e.cache];
      } else {
        assert device == device[e.id := e.cache];
      }
      queue := queue[..k] + queue[k + 1..];
    }

    /** A caller lets go of its handle on `id`. */
    method Release(id: nat)
      requires Valid() && id in pins
      modifies this`queue, this`pins
      ensures Valid() && pins == old(pins) - multiset{id}
    {
      var k := FindSlot(id);
      assert SlotOk(queue[k], device, view, pins);
      var e := queue[k].(strong := queue[k].strong - 1);
      UpdateConsistent(queue, device, view, pins, k, e, device, view, pins - multiset{id});
      queue, pins := queue[k := e], pins - multiset{id};
    }

    method Read(id: nat) returns (b: Block)
      requires Valid() && id in pins
      ensures id < |view| && b == view[id]
    {
      var k := FindSlot(id);
      assert SlotOk(queue[k], device, view, pins);
      b := queue[k].cache;
    }

    method Modify(id: nat, b: Block)
      requires Valid() && id in pins
      modifies this`queue, this`view
      ensures Valid() && id < |old(view)| && view == old(view)[id := b]
      ensures OnlyMarked(old(queue), queue, id, b)
    {
      var k := FindSlot(id);
      assert SlotOk(queue[k], device, view, pins);
      var e := queue[k].(cache := b, modified := true);
      UpdateConsistent(queue, device, view, pins, k, e, device, view[id := b], pins);
      queue, view := queue[k := e], view[id := b];
    }

    /** A lookup while fewer than sixteen handles are out: it cannot panic, and the
        caller now holds a handle. */
    method Acquire(id: nat)
      requires Valid() && id < |view| && |pins| < BLOCK_CACHE_SIZE
      modifies this
      ensures Valid() && view == old(view) && pins == old(pins) + multiset{id}
      ensures old(Synced()) ==> Synced()
    {
      var ok := Lookup(id);
    }

    /** `block_cache(id).lock().read(..)`: the handle lives for one statement. */
    method ReadBlock(id: nat) returns (b: Block)
      requires Valid() && id < |view| && |pins| < BLOCK_CACHE_SIZE
      modifies this
      ensures Valid() && view == old(view) && pins == old(pins)
      ensures old(Synced()) ==> Synced()
      ensures b == view[id]
    {
      Acquire(id);
      b := Read(id);
      Release(id);
    }

    /** `block_cache(id).lock().modify(..)`: the handle lives for one statement. */
    method WriteBlock(id: nat, b: Block)
      requires Valid() && id < |view| && |pins| < BLOCK_CACHE_SIZE
      modifies this
      ensures Valid() && view == old(view)[id := b] && pins == old(pins)
    {
      Acquire(id);
      Modify(id, b);
      Release(id);
    }

    method SyncAll()
      requires Valid()
      modifies this
      ensures Valid() && view == old(view) && pins == old(pins)
      ensures device == view && |device| == old(|device|)
      ensures |queue| == old(|queue|) && forall i :: 0 <= i < |queue| ==> !queue[i].modified
    {
      var i := 0;
      while i < |queue|
        invariant Valid() && view == old(view) && pins == old(pins)
        invariant |queue| == old(|queue|) && |device| == old(|device|)
        invariant 0 <= i <= |queue|
        invariant forall j :: 0 <= j < i ==> !queue[j].modified
      {
        if queue[i].modified {
          assert SlotOk(queue[i], device, view, pins);
          UpdateConsistent(queue, device, view, pins, i, queue[i].(modified := false),
                           device[queue[i].id := queue[i].cache], view, pins);
          device := device[queue[i].id := queue[i].cache];
          queue := queue[i := queue[i].(modified := false)];
        }
        i := i + 1;
      }
      forall k | 0 <= k < |device| ensures device[k] == view[k] {
        if Cached(queue, k) {
          var j :| 0 <= j < |queue| && queue[j].id == k;
          assert SlotOk(queue[j], device, view, pins);
        }
      }
    }
  }

  // ---- Whole runs ----

  /** `Get` and `Put` look a block up for one statement; `Hold` keeps the handle, which
      `HeldGet` and `HeldPut` use and `Drop` lets go. */
  datatype CacheOp =
    | Get(id: nat)
    | Put(id: nat, b: Block)
    | Hold(id: nat)
    | HeldGet(id: nat)
    | HeldPut(id: nat, b: Block)
    | Drop(id: nat)
    | Sync

  /** At most fifteen handles are out before a lookup, and only held handles are used. */
  ghost predicate OpFits(pins: multiset<nat>, op: CacheOp, n: nat) {
    match op
    case Get(id) => id < n && |pins| < BLOCK_CACHE_SIZE
    case Put(id, _) => id < n && |pins| < BLOCK_CACHE_SIZE
    case Hold(id) => id < n && |pins| < BLOCK_CACHE_SIZE
    case HeldGet(id) => id in pins
    case HeldPut(id, _) => id in pins
    case Drop(id) => id in pins
    case Sync => true
  }

  ghost function PinsAfter(pins: multiset<nat>, op: CacheOp): multiset<nat> {
    if op.Hold? then pins + multiset{op.id} else if op.Drop? then pins - multiset{op.id} else pins
  }

  /** The handles out after the operations. */
  ghost function PlainPins(pins: multiset<nat>, ops: seq<CacheOp>): multiset<nat>
    decreases |ops|
  {
    if ops == [] then pins else PinsAfter(PlainPins(pins, ops[..|ops| - 1]), ops[|ops| - 1])
  }

  ghost predicate Fits(pins: multiset<nat>, ops: seq<CacheOp>, n: nat)
    decreases |ops|
  {
    ops == [] || (&& Fits(pins, ops[..|ops| - 1], n)
                  && OpFits(PlainPins(pins, ops[..|ops| - 1]), ops[|ops| - 1], n))
  }

  lemma {:induction false} FitsPrefix(pins: multiset<nat>, ops: seq<CacheOp>, n: nat, i: nat)
    requires Fits(pins, ops, n) && i <= |ops|
    ensures Fits(pins, ops[..i], n)
    decreases |ops|
  {
    if i < |ops| {
      FitsPrefix(pins, ops[..|ops| - 1], n, i);
      assert ops[..|ops| - 1][..i] == ops[..i];
    } else {
      assert ops[..i] == ops;
    }
  }

  ghost function BlocksAfter(v: Disk, op: CacheOp): (r: Disk)
    ensures |r| == |v|
  {
    if (op.Put? || op.HeldPut?) && op.id < |v| then v[op.id := op.b] else v
  }

  ghost function BlocksRead(v: Disk, op: CacheOp): seq<Block> {
    if (op.Get? || op.HeldGet?) && op.id < |v| then [v[op.id]] else []
  }

  /** What the same operations do to a plain array. */
  ghost function PlainRun(v: Disk, ops: seq<CacheOp>): (r: Disk)
    ensures |r| == |v|
    decreases |ops|
  {
    if ops == [] then v else BlocksAfter(PlainRun(v, ops[..|ops| - 1]), ops[|ops| - 1])
  }

  ghost function PlainReads(v: Disk, ops: seq<CacheOp>): seq<Block>
    decreases |ops|
  {
    if ops == [] then []
    else PlainReads(v, ops[..|ops| - 1]) + BlocksRead(PlainRun(v, ops[..|ops| - 1]), ops[|ops| - 1])
  }

  ghost predicate Writes(op: CacheOp, id: nat) {
    (op.Put? || op.HeldPut?) && op.id == id
  }

  /** A block holds what was last written to it, or what it held at first. */
  lemma {:induction false} LastWrite(v: Disk, ops: seq<CacheOp>, id: nat, k: nat)
    requires id < |v| && k <= |ops| && forall i :: k <= i < |ops| ==> !Writes(ops[i], id)
    ensures k == 0 ==> PlainRun(v, ops)[id] == v[id]
    ensures k > 0 && Writes(ops[k - 1], id) ==> PlainRun(v, ops)[id] == ops[k - 1].b
    decreases |ops|
  {
    if k < |ops| {
      LastWrite(v, ops[..|ops| - 1], id, k);
    }
  }

  /** A read, with or without a handle, gives the block as it is then. */
  lemma ReadGives(v: Disk, ops: seq<CacheOp>, id: nat)
    requires id < |v|
    ensures PlainReads(v, ops + [Get(id)]) == PlainReads(v, ops) + [PlainRun(v, ops)[id]]
    ensures PlainReads(v, ops + [HeldGet(id)]) == PlainReads(v, ops) + [PlainRun(v, ops)[id]]
  {
    assert (ops + [Get(id)])[..|ops|] == ops && (ops + [HeldGet(id)])[..|ops|] == ops;
  }

  ghost function Count(ops: seq<CacheOp>, op: CacheOp): nat {
    if ops == [] then 0 else Count(ops[..|ops| - 1], op) + if ops[|ops| - 1] == op then 1 else 0
  }

  /** The handles out on a block: those at first, those taken, less those dropped. */
  lemma {:induction false} HandlesCounted(pins: multiset<nat>, ops: seq<CacheOp>, n: nat, id: nat)
    requires Fits(pins, ops, n)
    ensures PlainPins(pins, ops)[id] + Count(ops, Drop(id)) == pins[id] + Count(ops, Hold(id))
    decreases |ops|
  {
    if ops != [] {
      HandlesCounted(pins, ops[..|ops| - 1], n, id);
    }
  }

  /** One operation; what is read, if any. */
  method RunOp(c: BlockCacheManager, op: CacheOp) returns (got: seq<Block>)
    requires c.Valid() && OpFits(c.pins, op, |c.view|)
    modifies c
    ensures c.Valid()
    ensures c.pins == PinsAfter(old(c.pins), op) && c.view == BlocksAfter(old(c.view), op)
    ensures got == BlocksRead(old(c.view), op)
    ensures op.Sync? ==> c.device == c.view
  {
    hide BlockCacheManager.Valid, BlockCacheManager.Synced, OpFits;
    FitsMeans(c.pins, op, |c.view|);
    match op
    case Get(id) =>
      var b := c.ReadBlock(id);
      got := [b];
    case Put(id, b) =>
      c.WriteBlock(id, b);
      got := [];
    case Hold(id) =>
      c.Acquire(id);
      got := [];
    case Sync =>
      c.SyncAll();
      got := [];
    case _ => got := RunHeld(c, op);
  }

  /** Operations on a handle that is out. */
  method RunHeld(c: BlockCacheManager, op: CacheOp) returns (got: seq<Block>)
    requires c.Valid() && (op.HeldGet? || op.HeldPut? || op.Drop?) && op.id in c.pins
    modifies c
    ensures c.Valid()
    ensures c.pins == PinsAfter(old(c.pins), op) && c.view == BlocksAfter(old(c.view), op)
    ensures got == BlocksRead(old(c.view), op)
  {
    hide BlockCacheManager.Valid, OnlyMarked;
    got := [];
    match op
    case HeldGet(id) =>
      var b := c.Read(id);
      got := [b];
    case HeldPut(id, b) => c.Modify(id, b);
    case Drop(id) => c.Release(id);
  }

  lemma FitsMeans(pins: multiset<nat>, op: CacheOp, n: nat)
    requires OpFits(pins, op, n)
    ensures op.Get? || op.Put? || op.Hold? ==> op.id < n && |pins| < BLOCK_CACHE_SIZE
    ensures op.HeldGet? || op.HeldPut? || op.Drop? ==> op.id in pins
  {
  }

  /** Transparency: under any run, whatever was cached or pinned before and whatever handles
      are held on the way, the blocks read are those of a plain array, the handles out are
      those taken and not dropped, and a final sync makes the device that array. */
  method RunOps(c: BlockCacheManager, ops: seq<CacheOp>) returns (got: seq<Block>)
    requires c.Valid() && Fits(c.pins, ops, |c.view|)
    modifies c
    ensures c.Valid() && |c.queue| <= BLOCK_CACHE_SIZE && c.pins == PlainPins(old(c.pins), ops)
    ensures c.view == PlainRun(old(c.view), ops)
    ensures got == PlainReads(old(c.view), ops)
    ensures ops != [] && ops[|ops| - 1].Sync? ==> c.device == PlainRun(old(c.view), ops)
  {
    hide BlockCacheManager.Valid, OpFits, PinsAfter, BlocksAfter, BlocksRead;
    got := [];
    ghost var v, pins := c.view, c.pins;
    for i := 0 to |ops|
      invariant c.Valid() && |c.view| == |v| && c.pins == PlainPins(pins, ops[..i])
      invariant c.view == PlainRun(v, ops[..i])
      invariant got == PlainReads(v, ops[..i])
      invariant i > 0 && ops[i - 1].Sync? ==> c.device == c.view
    {
      FitsPrefix(pins, ops, |v|, i + 1);
      assert ops[..i + 1][..i] == ops[..i];
      var b := RunOp(c, ops[i]);
      got := got + b;
    }
    assert ops[..|ops|] == ops;
    QueueBound(c);
  }

  lemma QueueBound(c: BlockCacheManager)
    requires c.Valid()
    ensures |c.queue| <= BLOCK_CACHE_SIZE
  {
  }
}
