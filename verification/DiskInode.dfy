/**
 * `DiskInode`: the operations of an inode that has been mapped from its block.
 *
 * The inode's fields are updated in place; its index and data blocks are
 * reached through the block cache, with the handles on `indirect1`, `indirect2`
 * and the current leaf held exactly as long as the original holds them.
 */
module DiskInodeOps {
  import opened Basics
  import opened LittleEndian
  import opened BlockCacheLayer
  import opened Layout
  import opened InodeGrowth
  import opened FileData

  type DirectIds = s: seq<U32> | |s| == 27 witness seq(27, i => 0)

  lemma PathOnDisk(d: Disk, ino: Inode, n: nat, i: nat)
    requires OnDisk(d, ino, n) && i < n
    ensures BlockId(d, ino, i) < |d|
    ensures INODE_DIRECT_COUNT <= i < INDIRECT1_BOUND ==> ino.indirect1 < |d|
    ensures INDIRECT1_BOUND <= i ==> ino.indirect2 < |d| && Entry(d, ino.indirect2, LeafNode(i)) < |d|
  {
    hide Owned, TotalFor;
    BlockIdOwned(d, ino, n, i);
    if INODE_DIRECT_COUNT <= i < INDIRECT1_BOUND {
      OwnedAt(d, ino, n, INODE_DIRECT_COUNT, 0);
      assert ino.indirect1 in Owned(d, ino, n);
    } else if INDIRECT1_BOUND <= i {
      OwnedAt(d, ino, n, INDIRECT1_BOUND, 0);
      assert ino.indirect2 in Owned(d, ino, n);
      LeafHomeIs(d, ino, LeafNode(i));
      LeafHomeBefore(i);
      OwnedAt(d, ino, n, LeafHome(LeafNode(i)).0, LeafHome(LeafNode(i)).1);
      assert Entry(d, ino.indirect2, LeafNode(i)) in Owned(d, ino, n);
    }
  }

  /** While data blocks are missing, ids are left. */
  lemma IdsLeft(d0: Disk, base: seq<U32>, ids: seq<U32>, d: Disk, ino: Inode, c: nat, pend: seq<U32>, k: nat, n: nat)
    requires Growing(d0, base, ids, d, ino, c, pend, k)
    requires c < n <= INDIRECT2_BOUND && |base| + |ids| == TotalFor(n)
    requires |pend| <= NodeCount(c)
    ensures k + (NodeCount(c) - |pend|) < |ids|
  {
    hide Owned, TotalFor, NodeCount;
    assert |Owned(d, ino, c) + pend| == |base + ids[..k]|;
    TotalStep(c);
    TotalMono(c + 1, n);
  }

  class DiskInode {
    var size: U32
    var direct: DirectIds
    var indirect1: U32
    var indirect2: U32
    var indirect3: U32
    var kind: InodeKind

    function Value(): Inode
      reads this
    {
      InodeRec(size, direct, indirect1, indirect2, indirect3, kind)
    }

    constructor (ino: Inode)
      ensures Value() == ino
    {
      size, direct, indirect1, indirect2, indirect3, kind :=
        ino.size, ino.direct, ino.indirect1, ino.indirect2, ino.indirect3, ino.kind;
    }

    /** `block_id`: walks the tree through the cache. */
    method LookupBlock(i: nat, c: BlockCacheManager) returns (id: U32)
      requires c.Valid() && |c.pins| < BLOCK_CACHE_SIZE
      requires i < INDIRECT2_BOUND
      requires INODE_DIRECT_COUNT <= i < INDIRECT1_BOUND ==> indirect1 < |c.view|
      requires INDIRECT1_BOUND <= i ==> indirect2 < |c.view| && Entry(c.view, indirect2, LeafNode(i)) < |c.view|
      modifies c
      ensures c.Valid() && c.view == old(c.view) && c.pins == old(c.pins)
      ensures old(c.Synced()) ==> c.Synced()
      ensures id == BlockId(c.view, Value(), i)
    {
      if i < INODE_DIRECT_COUNT {
        id := direct[i];
      } else if i < INDIRECT1_BOUND {
        var b := c.ReadBlock(indirect1);
        id := U32At(b, i - INODE_DIRECT_COUNT);
      } else {
        var last := i - INDIRECT1_BOUND;
        var b2 := c.ReadBlock(indirect2);
        var leaf := U32At(b2, last / INODE_INDIRECT1_COUNT);
        var b1 := c.ReadBlock(leaf);
        id := U32At(b1, last % INODE_INDIRECT1_COUNT);
      }
    }

    // ---- increase_size ----

    /** Grows the file to `newSize`, consuming every one of the ids supplied. */
    method IncreaseSize(newSize: U32, newBlocks: seq<U32>, c: BlockCacheManager)
      requires c.Valid() && |c.pins| <= BLOCK_CACHE_SIZE - 2
      requires size <= newSize <= MAX_SIZE
      requires |newBlocks| == TotalBlocks(newSize) - TotalBlocks(size)
      requires Fresh(c.view, Owned(c.view, Value(), DataBlocks(size)), newBlocks)
      modifies this`size, this`direct, this`indirect1, this`indirect2, c
      ensures c.Valid() && c.pins == old(c.pins) && |c.view| == old(|c.view|)
      ensures size == newSize && (DataBlocks(newSize) <= INODE_DIRECT_COUNT ==> indirect1 == old(indirect1))
      ensures Owned(c.view, Value(), DataBlocks(size)) == old(Owned(c.view, Value(), DataBlocks(size))) + newBlocks
      ensures forall i :: 0 <= i < old(DataBlocks(size)) ==>
                BlockId(c.view, Value(), i) == old(BlockId(c.view, Value(), i))
      ensures forall b :: 0 <= b < |c.view| && b !in Owned(c.view, Value(), DataBlocks(size)) ==>
                c.view[b] == old(c.view)[b]
      ensures forall i :: 0 <= i < DataBlocks(size) ==> DataKept(old(c.view), c.view, BlockId(c.view, Value(), i))
    {
      hide Owned, BlockId, TotalFor, Growing, SetEntry;
      ghost var d0, ino0 := c.view, Value();
      var current := DataBlocks(size);
      ghost var n0 := current;
      ghost var base := Owned(d0, ino0, n0);
      size := newSize;
      var total := DataBlocks(size);
      GrowthStarts(d0, ino0, Value(), n0, newBlocks);
      assert |base| + |newBlocks| == TotalFor(total);
      var next := 0;
      current, next := FillDirect(total, newBlocks, current, next, c, d0, base);
      if total > INODE_DIRECT_COUNT {
        if current == INODE_DIRECT_COUNT {
          IdsLeft(d0, base, newBlocks, c.view, Value(), current, [], next, total);
          ghost var before := Value();
          indirect1 := newBlocks[next];
          StepRoot(d0, base, newBlocks, c.view, before, current, next, Value());
          next := next + 1;
        }
        current, next := FillIndirect1(total, newBlocks, current, next, c, d0, base);
        if total > INDIRECT1_BOUND {
          if current == INDIRECT1_BOUND {
            IdsLeft(d0, base, newBlocks, c.view, Value(), current, [], next, total);
            ghost var before := Value();
            indirect2 := newBlocks[next];
            StepRoot(d0, base, newBlocks, c.view, before, current, next, Value());
            next := next + 1;
          }
          next := FillIndirect2(total, newBlocks, current, next, c, d0, base);
        }
      }
      GrowthEnds(d0, ino0, n0, newBlocks, c.view, Value(), total, next);
    }

    method FillDirect(total: nat, newBlocks: seq<U32>, from: nat, used: nat, c: BlockCacheManager,
                      ghost d0: Disk, ghost base: seq<U32>) returns (current: nat, next: nat)
      requires c.Valid() && Fresh(d0, base, newBlocks) && |base| + |newBlocks| == TotalFor(total)
      requires from <= total <= INDIRECT2_BOUND
      requires Growing(d0, base, newBlocks, c.view, Value(), from, [], used)
      modifies this`direct
      ensures current == if from < total && from < INODE_DIRECT_COUNT
                         then (if total < INODE_DIRECT_COUNT then total else INODE_DIRECT_COUNT) else from
      ensures Growing(d0, base, newBlocks, c.view, Value(), current, [], next)
    {
      hide Growing, TotalFor;
      current, next := from, used;
      while current < total && current < INODE_DIRECT_COUNT
        invariant from <= current <= total
        invariant current <= INODE_DIRECT_COUNT || current == from
        invariant Growing(d0, base, newBlocks, c.view, Value(), current, [], next)
      {
        IdsLeft(d0, base, newBlocks, c.view, Value(), current, [], next, total);
        ghost var before := Value();
        direct := direct[current := newBlocks[next]];
        StepDirect(d0, base, newBlocks, c.view, before, current, next, Value());
        current, next := current + 1, next + 1;
      }
    }

    method FillIndirect1(total: nat, newBlocks: seq<U32>, from: nat, used: nat, c: BlockCacheManager,
                         ghost d0: Disk, ghost base: seq<U32>) returns (current: nat, next: nat)
      requires c.Valid() && |c.pins| < BLOCK_CACHE_SIZE
      requires Fresh(d0, base, newBlocks) && |base| + |newBlocks| == TotalFor(total)
      requires INODE_DIRECT_COUNT <= from <= total <= INDIRECT2_BOUND && INODE_DIRECT_COUNT < total
      requires Growing(d0, base, newBlocks, c.view, Value(), from,
                       if from == INODE_DIRECT_COUNT then [indirect1] else [], used)
      modifies c
      ensures c.Valid() && c.pins == old(c.pins)
      ensures current == if from < INDIRECT1_BOUND
                         then (if total < INDIRECT1_BOUND then total else INDIRECT1_BOUND) else from
      ensures Growing(d0, base, newBlocks, c.view, Value(), current, [], next)
    {
      hide Growing, TotalFor, BlockId, Owned, NodeIds, BlockCacheManager.Valid, BlockCacheManager.Synced, OnlyMarked,
        SetU32, Fresh;
      ghost var ino := Value();
      current, next := from, used;
      Indirect1OnDisk(d0, base, newBlocks, c.view, ino, from, used);
      c.Acquire(indirect1);
      while current < total && current < INDIRECT1_BOUND
        invariant from <= current <= total
        invariant current <= INDIRECT1_BOUND || current == from
        invariant Value() == ino
        invariant c.Valid() && c.pins == old(c.pins) + multiset{indirect1} && indirect1 < |c.view|
        invariant Growing(d0, base, newBlocks, c.view, ino, current,
                          if current == INODE_DIRECT_COUNT then [indirect1] else [], next)
      {
        AddIndirect1(current, newBlocks, next, total, c, d0, base);
        current, next := current + 1, next + 1;
      }
      c.Release(indirect1);
    }

    /** One iteration of the indirect loop. */
    method AddIndirect1(current: nat, newBlocks: seq<U32>, next: nat, ghost total: nat, c: BlockCacheManager,
                        ghost d0: Disk, ghost base: seq<U32>)
      requires c.Valid() && indirect1 in c.pins && indirect1 < |c.view|
      requires Fresh(d0, base, newBlocks) && |base| + |newBlocks| == TotalFor(total)
      requires INODE_DIRECT_COUNT <= current < INDIRECT1_BOUND && current < total <= INDIRECT2_BOUND
      requires Growing(d0, base, newBlocks, c.view, Value(), current,
                       if current == INODE_DIRECT_COUNT then [indirect1] else [], next)
      modifies c
      ensures c.Valid() && c.pins == old(c.pins) && |c.view| == old(|c.view|)
      ensures Growing(d0, base, newBlocks, c.view, Value(), current + 1, [], next + 1)
    {
      hide Growing, TotalFor, BlockId, Owned, NodeIds, BlockCacheManager.Valid, OnlyMarked, SetU32, Fresh;
      Indirect1Step(d0, base, newBlocks, c.view, Value(), current, next, total);
      var b := c.Read(indirect1);
      c.Modify(indirect1, SetU32(b, current - INODE_DIRECT_COUNT, newBlocks[next]));
    }

    method FillIndirect2(total: nat, newBlocks: seq<U32>, from: nat, used: nat, c: BlockCacheManager,
                         ghost d0: Disk, ghost base: seq<U32>) returns (next: nat)
      requires c.Valid() && |c.pins| <= BLOCK_CACHE_SIZE - 2
      requires Fresh(d0, base, newBlocks) && |base| + |newBlocks| == TotalFor(total)
      requires INDIRECT1_BOUND <= from <= total <= INDIRECT2_BOUND && INDIRECT1_BOUND < total
      requires Growing(d0, base, newBlocks, c.view, Value(), from,
                       if from == INDIRECT1_BOUND then [indirect2] else [], used)
      modifies c
      ensures c.Valid() && c.pins == old(c.pins)
      ensures Growing(d0, base, newBlocks, c.view, Value(), total, [], next)
    {
      hide Growing, TotalFor, BlockId, Owned, NodeIds, LeafNode, LeafSlot, BlockCacheManager.Valid,
        BlockCacheManager.Synced, Fresh;
      ghost var ino := Value();
      next := used;
      var a0, b0 := (from - INDIRECT1_BOUND) / INODE_INDIRECT1_COUNT, (from - INDIRECT1_BOUND) % INODE_INDIRECT1_COUNT;
      var a1 := (total - INDIRECT1_BOUND) / INODE_INDIRECT1_COUNT;
      var b1 := (total - INDIRECT1_BOUND) % INODE_INDIRECT1_COUNT;
      Indirect2OnDisk(d0, base, newBlocks, c.view, ino, from, used);
      c.Acquire(indirect2);
      ghost var current := from;
      while a0 < a1 || (a0 == a1 && b0 < b1)
        invariant INDIRECT1_BOUND <= current <= total && current == INDIRECT1_BOUND + INODE_INDIRECT1_COUNT * a0 + b0
        invariant 0 <= b0 < INODE_INDIRECT1_COUNT
        invariant Value() == ino
        invariant c.Valid() && c.pins == old(c.pins) + multiset{indirect2} && indirect2 < |c.view| == |d0|
        invariant Growing(d0, base, newBlocks, c.view, ino, current,
                          if current == INDIRECT1_BOUND then [indirect2] else [], next)
        decreases total - current
      {
        LeafSplit(a0, b0);
        LoopGuard(current, a0, b0, total, a1, b1);
        next := GrowOne(a0, b0, newBlocks, next, total, c, d0, base, current);
        current, b0 := current + 1, b0 + 1;
        if b0 == INODE_INDIRECT1_COUNT {
          b0, a0 := 0, a0 + 1;
        }
      }
      c.Release(indirect2);
      LoopGuard(current, a0, b0, total, a1, b1);
    }

    /** One iteration of the double-indirect loop. */
    method GrowOne(a0: nat, b0: nat, newBlocks: seq<U32>, used: nat, ghost total: nat, c: BlockCacheManager,
                   ghost d0: Disk, ghost base: seq<U32>, ghost current: nat) returns (next: nat)
      requires c.Valid() && |c.pins| < BLOCK_CACHE_SIZE && indirect2 in c.pins && indirect2 < |c.view|
      requires Fresh(d0, base, newBlocks) && |base| + |newBlocks| == TotalFor(total)
      requires INDIRECT1_BOUND <= current < total <= INDIRECT2_BOUND
      requires LeafNode(current) == a0 && LeafSlot(current) == b0
      requires Growing(d0, base, newBlocks, c.view, Value(), current,
                       if current == INDIRECT1_BOUND then [indirect2] else [], used)
      modifies c
      ensures c.Valid() && c.pins == old(c.pins) && |c.view| == old(|c.view|)
      ensures Growing(d0, base, newBlocks, c.view, Value(), current + 1, [], next)
    {
      hide Growing, TotalFor, BlockId, Owned, NodeIds, BlockCacheManager.Valid;
      next := used;
      if b0 == 0 {
        next := NewLeaf(a0, newBlocks, next, total, c, d0, base, current);
      }
      AddToLeaf(a0, b0, newBlocks, next, total, c, d0, base, current);
      next := next + 1;
    }

    method AddToLeaf(a0: nat, b0: nat, newBlocks: seq<U32>, next: nat, ghost total: nat, c: BlockCacheManager,
                     ghost d0: Disk, ghost base: seq<U32>, ghost current: nat)
      requires c.Valid() && |c.pins| < BLOCK_CACHE_SIZE && indirect2 in c.pins && indirect2 < |c.view|
      requires Fresh(d0, base, newBlocks) && |base| + |newBlocks| == TotalFor(total)
      requires INDIRECT1_BOUND <= current < total <= INDIRECT2_BOUND
      requires LeafNode(current) == a0 && LeafSlot(current) == b0
      requires Growing(d0, base, newBlocks, c.view, Value(), current,
                       if b0 == 0 then NodeIds(c.view, Value(), current) else [], next)
      modifies c
      ensures c.Valid() && c.pins == old(c.pins) && |c.view| == old(|c.view|)
      ensures Growing(d0, base, newBlocks, c.view, Value(), current + 1, [], next + 1)
    {
      hide Growing, TotalFor, BlockId, Owned, NodeIds, LeafNode, LeafSlot, BlockCacheManager.Valid;
      ghost var ino := Value();
      LeafStep(d0, base, newBlocks, c.view, ino, current, next, total);
      var b2 := c.Read(indirect2);
      var leaf := U32At(b2, a0);
      c.Acquire(leaf);
      var b := c.Read(leaf);
      c.Modify(leaf, SetU32(b, b0, newBlocks[next]));
      c.Release(leaf);
    }

    method NewLeaf(a0: nat, newBlocks: seq<U32>, used: nat, ghost total: nat, c: BlockCacheManager,
                   ghost d0: Disk, ghost base: seq<U32>, ghost current: nat) returns (next: nat)
      requires c.Valid() && indirect2 in c.pins && indirect2 < |c.view|
      requires Fresh(d0, base, newBlocks) && |base| + |newBlocks| == TotalFor(total)
      requires INDIRECT1_BOUND <= current < total <= INDIRECT2_BOUND
      requires LeafNode(current) == a0 && LeafSlot(current) == 0
      requires Growing(d0, base, newBlocks, c.view, Value(), current,
                       if current == INDIRECT1_BOUND then [indirect2] else [], used)
      modifies c
      ensures c.Valid() && c.pins == old(c.pins) && |c.view| == old(|c.view|)
      ensures Growing(d0, base, newBlocks, c.view, Value(), current, NodeIds(c.view, Value(), current), next)
    {
      hide Growing, TotalFor, BlockId, Owned, NodeIds, LeafNode, LeafSlot, BlockCacheManager.Valid;
      ghost var ino := Value();
      NewLeafStep(d0, base, newBlocks, c.view, ino, current, used, total);
      var b := c.Read(indirect2);
      c.Modify(indirect2, SetU32(b, a0, newBlocks[used]));
      next := used + 1;
    }

    // ---- clear_size ----

    /** Empties the file and hands back every block it held, index blocks included. */
    method ClearSize(c: BlockCacheManager) returns (v: seq<U32>)
      requires c.Valid() && |c.pins| <= BLOCK_CACHE_SIZE - 2
      requires size <= MAX_SIZE && OnDisk(c.view, Value(), DataBlocks(size))
      modifies this, c
      ensures c.Valid() && c.view == old(c.view) && c.pins == old(c.pins)
      ensures v == old(Owned(c.view, Value(), DataBlocks(size)))
      ensures |v| == old(TotalBlocks(size))
      ensures Value() == Cleared(old(Value()))
    {
      hide Owned, TotalFor, BlockId, NodeIds, BlockCacheManager.Valid;
      ghost var d, ino := c.view, Value();
      var n := DataBlocks(size);
      size := 0;
      v := DrainDirect(n, c, ino);
      if n > INODE_DIRECT_COUNT {
        Indirect1Home(d, ino, n);
        v := v + [indirect1];
        v := DrainIndirect1(n, v, c, ino);
        indirect1 := 0;
        if n > INDIRECT1_BOUND {
          Indirect2Home(d, ino, n);
          v := v + [indirect2];
          v := DrainIndirect2(n, v, c, ino);
          indirect2 := 0;
        }
      }
    }

    method DrainDirect(n: nat, c: BlockCacheManager, ghost ino: Inode) returns (v: seq<U32>)
      requires n <= INDIRECT2_BOUND && direct == ino.direct
      modifies this`direct
      ensures v == Owned(c.view, ino, if n < INODE_DIRECT_COUNT then n else INODE_DIRECT_COUNT)
      ensures direct == seq(27, (i: int) => if i < n then 0 else if 0 <= i < 27 then ino.direct[i] else 0)
    {
      hide TotalFor;
      v := [];
      var current := 0;
      while current < n && current < INODE_DIRECT_COUNT
        invariant 0 <= current <= n && current <= INODE_DIRECT_COUNT
        invariant v == Owned(c.view, ino, current)
        invariant forall i :: 0 <= i < 27 ==> direct[i] == if i < current then 0 else ino.direct[i]
      {
        v := v + [direct[current]];
        direct := direct[current := 0];
        current := current + 1;
      }
    }

    method DrainIndirect1(n: nat, w: seq<U32>, c: BlockCacheManager, ghost ino: Inode) returns (v: seq<U32>)
      requires c.Valid() && |c.pins| < BLOCK_CACHE_SIZE
      requires INODE_DIRECT_COUNT < n <= INDIRECT2_BOUND && indirect1 == ino.indirect1 && indirect1 < |c.view|
      requires w == Owned(c.view, ino, INODE_DIRECT_COUNT) + [indirect1]
      modifies c
      ensures c.Valid() && c.view == old(c.view) && c.pins == old(c.pins)
      ensures v == Owned(c.view, ino, if n < INDIRECT1_BOUND then n else INDIRECT1_BOUND)
    {
      hide TotalFor, BlockCacheManager.Valid, Owned, BlockId, NodeIds;
      v := w;
      ghost var d := c.view;
      c.Acquire(indirect1);
      var b := c.Read(indirect1);
      var current := 0;
      while current < n - INODE_DIRECT_COUNT && current < INODE_INDIRECT1_COUNT
        invariant 0 <= current <= INODE_INDIRECT1_COUNT && INODE_DIRECT_COUNT + current <= n
        invariant v == Owned(d, ino, INODE_DIRECT_COUNT + current) + if current == 0 then [ino.indirect1] else []
        modifies {}
      {
        Indirect1Listing(d, ino, current);
        v := v + [U32At(b, current)];
        current := current + 1;
      }
      c.Release(indirect1);
    }

    method DrainIndirect2(n: nat, w: seq<U32>, c: BlockCacheManager, ghost ino: Inode) returns (v: seq<U32>)
      requires c.Valid() && |c.pins| <= BLOCK_CACHE_SIZE - 2
      requires INDIRECT1_BOUND < n <= INDIRECT2_BOUND && indirect2 == ino.indirect2 && OnDisk(c.view, ino, n)
      requires w == Owned(c.view, ino, INDIRECT1_BOUND) + [indirect2]
      modifies c
      ensures c.Valid() && c.view == old(c.view) && c.pins == old(c.pins)
      ensures v == Owned(c.view, ino, n)
    {
      hide TotalFor, BlockCacheManager.Valid, Owned, OnDisk, BlockId, NodeIds;
      v := w;
      var node := indirect2;
      ghost var d := c.view;
      var a1, b1 := (n - INDIRECT1_BOUND) / INODE_INDIRECT1_COUNT, (n - INDIRECT1_BOUND) % INODE_INDIRECT1_COUNT;
      assert n == INDIRECT1_BOUND + INODE_INDIRECT1_COUNT * a1 + b1;
      PathOnDisk(d, ino, n, INDIRECT1_BOUND);
      c.Acquire(node);
      var b2 := c.Read(node);
      var a := 0;
      while a < a1
        invariant 0 <= a <= a1
        invariant c.Valid() && c.view == d && c.pins == old(c.pins) + multiset{node}
        invariant a == 0 ==> v == Owned(d, ino, INDIRECT1_BOUND) + [node]
        invariant a > 0 ==> v == Owned(d, ino, INDIRECT1_BOUND + INODE_INDIRECT1_COUNT * a)
      {
        v := DrainLeaf(a, INODE_INDIRECT1_COUNT, b2, n, v, c, ino);
        a := a + 1;
      }
      if b1 > 0 {
        v := DrainLeaf(a1, b1, b2, n, v, c, ino);
      }
      c.Release(node);
    }

    /** Pushes leaf `a` of the double-indirect tree and its first `count` entries. */
    method DrainLeaf(a: nat, count: nat, b2: Block, n: nat, w: seq<U32>, c: BlockCacheManager, ghost ino: Inode)
      returns (v: seq<U32>)
      requires c.Valid() && |c.pins| < BLOCK_CACHE_SIZE
      requires 0 < count <= INODE_INDIRECT1_COUNT
      requires INDIRECT1_BOUND + INODE_INDIRECT1_COUNT * a + count <= n <= INDIRECT2_BOUND
      requires OnDisk(c.view, ino, n) && ino.indirect2 < |c.view| && b2 == c.view[ino.indirect2]
      requires a == 0 ==> w == Owned(c.view, ino, INDIRECT1_BOUND) + [ino.indirect2]
      requires a > 0 ==> w == Owned(c.view, ino, INDIRECT1_BOUND + INODE_INDIRECT1_COUNT * a)
      modifies c
      ensures c.Valid() && c.view == old(c.view) && c.pins == old(c.pins)
      ensures v == Owned(c.view, ino, INDIRECT1_BOUND + INODE_INDIRECT1_COUNT * a + count)
    {
      hide TotalFor, BlockCacheManager.Valid, BlockCacheManager.Synced, Owned, OnDisk, BlockId, NodeIds, U32At;
      ghost var d := c.view;
      ghost var first := INDIRECT1_BOUND + INODE_INDIRECT1_COUNT * a;
      var leaf := U32At(b2, a);
      LeafSplit(a, 0);
      PathOnDisk(d, ino, n, first);
      LeafPending(d, ino, a);
      c.Acquire(leaf);
      var b := c.Read(leaf);
      v := ListLeaf(a, count, b, w + [leaf], d, ino);
      c.Release(leaf);
    }

    /** The loop over the entries of one leaf. */
    static method ListLeaf(a: nat, count: nat, b: Block, w: seq<U32>, ghost d: Disk, ghost ino: Inode)
      returns (v: seq<U32>)
      requires 0 < count <= INODE_INDIRECT1_COUNT
      requires INDIRECT1_BOUND + INODE_INDIRECT1_COUNT * a + count <= INDIRECT2_BOUND
      requires a < 128 && ino.indirect2 < |d| && U32At(d[ino.indirect2], a) < |d| && b == d[U32At(d[ino.indirect2], a)]
      requires var first := INDIRECT1_BOUND + INODE_INDIRECT1_COUNT * a;
               w == Owned(d, ino, first) + NodeIds(d, ino, first)
      ensures v == Owned(d, ino, INDIRECT1_BOUND + INODE_INDIRECT1_COUNT * a + count)
    {
      hide TotalFor, Owned, NodeIds, U32At;
      v := w;
      ghost var first := INDIRECT1_BOUND + INODE_INDIRECT1_COUNT * a;
      var j := 0;
      while j < count
        invariant 0 <= j <= count
        invariant v == Owned(d, ino, first + j) + if j == 0 then NodeIds(d, ino, first) else []
      {
        LeafListing(d, ino, a, j);
        v := v + [U32At(b, j)];
        j := j + 1;
      }
    }

    // ---- read_at and write_at ----

    /** Reads into `buf` from `offset`, stopping at the end of the file. */
    method ReadAt(offset: nat, buf: array<Byte>, c: BlockCacheManager) returns (readSize: nat)
      requires c.Valid() && |c.pins| < BLOCK_CACHE_SIZE
      requires size <= MAX_SIZE && OnDisk(c.view, Value(), DataBlocks(size))
      modifies buf, c
      ensures c.Valid() && c.view == old(c.view) && c.pins == old(c.pins)
      ensures old(c.Synced()) ==> c.Synced()
      ensures readSize == if offset >= size then 0
                          else if offset + buf.Length <= size then buf.Length else size - offset
      ensures readSize > 0 ==> buf[..readSize] == Content(c.view, Value())[offset..offset + readSize]
      ensures buf[readSize..] == old(buf[readSize..])
    {
      hide Owned, BlockId, TotalFor, BlockCacheManager.Valid, OnDisk, ByteAt;
      var start := offset;
      var end := if offset + buf.Length < size then offset + buf.Length else size;
      if start >= end {
        return 0;
      }
      ghost var d, ino, n := c.view, Value(), DataBlocks(size);
      BlockCountBound(size);
      var startBlock := start / BLOCK_SZ;
      readSize := 0;
      ghost var before := buf[..];
      while true
        invariant offset <= start < end && start == offset + readSize && startBlock == start / BLOCK_SZ
        invariant Value() == ino && c.Valid() && c.view == d && c.pins == old(c.pins)
        invariant old(c.Synced()) ==> c.Synced()
        invariant end <= ino.size && end <= offset + buf.Length
        invariant forall j :: 0 <= j < readSize ==> buf[j] == ByteAt(d, ino, offset + j)
        invariant forall j :: readSize <= j < buf.Length ==> buf[j] == before[j]
        decreases end - start
      {
        var endCurrent := (start / BLOCK_SZ + 1) * BLOCK_SZ;
        if endCurrent > end { endCurrent := end; }
        var len := endCurrent - start;
        ReadChunk(startBlock, start, len, buf, readSize, c);
        readSize := readSize + len;
        if endCurrent == end {
          break;
        }
        startBlock, start := startBlock + 1, endCurrent;
      }
      assert offset + readSize == end;
    }

    /** The part of a read that lies in one data block. */
    method ReadChunk(k: nat, start: nat, len: nat, buf: array<Byte>, at: nat, c: BlockCacheManager)
      requires c.Valid() && |c.pins| < BLOCK_CACHE_SIZE
      requires size <= MAX_SIZE && OnDisk(c.view, Value(), DataBlocks(size))
      requires k == start / BLOCK_SZ < DataBlocks(size) <= INDIRECT2_BOUND
      requires start % BLOCK_SZ + len <= BLOCK_SZ && at + len <= buf.Length
      modifies buf, c
      ensures c.Valid() && c.view == old(c.view) && c.pins == old(c.pins)
      ensures old(c.Synced()) ==> c.Synced()
      ensures forall j :: at <= j < at + len ==>
                (start + (j - at)) / BLOCK_SZ == k && buf[j] == ByteAt(c.view, Value(), start + (j - at))
      ensures forall j :: 0 <= j < buf.Length && !(at <= j < at + len) ==> buf[j] == old(buf[j])
    {
      hide Owned, BlockId, TotalFor, BlockCacheManager.Valid, OnDisk;
      PathOnDisk(c.view, Value(), DataBlocks(size), k);
      var id := LookupBlock(k, c);
      var b := c.ReadBlock(id);
      var shift := start % BLOCK_SZ;
      CopyInto(buf, at, b, shift, len);
      forall j | at <= j < at + len
        ensures (start + (j - at)) / BLOCK_SZ == k && buf[j] == ByteAt(c.view, Value(), start + (j - at))
      {
        SameBlock(start, j - at, len);
      }
    }

    /** The part of a write that lies in one data block. */
    method WriteChunk(k: nat, start: nat, len: nat, offset: nat, buf: seq<Byte>, c: BlockCacheManager, ghost d0: Disk)
      requires c.Valid() && |c.pins| < BLOCK_CACHE_SIZE
      requires size <= MAX_SIZE && k == start / BLOCK_SZ < DataBlocks(size) <= INDIRECT2_BOUND
      requires OnDisk(d0, Value(), DataBlocks(size)) && NoDup(Owned(d0, Value(), DataBlocks(size)))
      requires start % BLOCK_SZ + len <= BLOCK_SZ && offset <= start && start - offset + len <= |buf|
      requires Written(d0, Value(), DataBlocks(size), c.view, offset, buf, start)
      modifies c
      ensures c.Valid() && c.pins == old(c.pins)
      ensures Written(d0, Value(), DataBlocks(size), c.view, offset, buf, start + len)
    {
      hide Owned, BlockId, TotalFor, BlockCacheManager.Valid, OnDisk, NoDup, Written;
      ghost var ino, n := Value(), DataBlocks(size);
      TreeKept(d0, ino, n, c.view, offset, buf, start, k);
      var id := LookupBlock(k, c);
      c.Acquire(id);
      var b := c.Read(id);
      var r: Block := Splice(b, start % BLOCK_SZ, buf[start - offset..start - offset + len]);
      WriteStep(d0, ino, n, c.view, offset, buf, start, len, c.view[id := r]);
      c.Modify(id, r);
      c.Release(id);
    }

    static method CopyInto(buf: array<Byte>, at: nat, b: Block, shift: nat, len: nat)
      requires at + len <= buf.Length && shift + len <= BLOCK_SZ
      modifies buf
      ensures forall j :: 0 <= j < buf.Length ==>
                buf[j] == if at <= j < at + len then b[shift + (j - at)] else old(buf[j])
    {
      forall j | at <= j < at + len {
        buf[j] := b[shift + (j - at)];
      }
    }

    /** Overwrites bytes from `offset`, stopping at the end of the file: the caller has
        grown the file before.  An empty write at a block boundary past the last
        block would address a block the file does not have. */
    method WriteAt(offset: nat, buf: seq<Byte>, c: BlockCacheManager) returns (writeSize: nat)
      requires c.Valid() && |c.pins| < BLOCK_CACHE_SIZE
      requires size <= MAX_SIZE && OnDisk(c.view, Value(), DataBlocks(size))
      requires NoDup(Owned(c.view, Value(), DataBlocks(size)))
      requires offset <= size && offset / BLOCK_SZ < DataBlocks(size)
      modifies c
      ensures c.Valid() && c.pins == old(c.pins)
      ensures writeSize == if offset + |buf| <= size then |buf| else size - offset
      ensures Written(old(c.view), Value(), DataBlocks(size), c.view, offset, buf, offset + writeSize)
    {
      hide Owned, BlockId, TotalFor, BlockCacheManager.Valid, OnDisk, NoDup, Written;
      var start := offset;
      var end := if offset + |buf| < size then offset + |buf| else size;
      ghost var d0, ino, n := c.view, Value(), DataBlocks(size);
      BlockCountBound(size);
      var startBlock := start / BLOCK_SZ;
      writeSize := 0;
      NothingWritten(d0, ino, n, offset, buf);
      while true
        invariant offset <= start <= end && start == offset + writeSize && startBlock == start / BLOCK_SZ < n
        invariant Value() == ino && c.Valid() && c.pins == old(c.pins)
        invariant end <= ino.size && end <= offset + |buf|
        invariant Written(d0, ino, n, c.view, offset, buf, start)
        decreases end - start
      {
        var endCurrent := (start / BLOCK_SZ + 1) * BLOCK_SZ;
        if endCurrent > end { endCurrent := end; }
        var len := endCurrent - start;
        WriteChunk(startBlock, start, len, offset, buf, c, d0);
        writeSize := writeSize + len;
        if endCurrent == end {
          break;
        }
        startBlock, start := startBlock + 1, endCurrent;
      }
    }
  }

  lemma SameBlock(start: nat, j: nat, len: nat)
    requires start % BLOCK_SZ + len <= BLOCK_SZ && j < len
    ensures (start + j) / BLOCK_SZ == start / BLOCK_SZ && (start + j) % BLOCK_SZ == start % BLOCK_SZ + j
  {
  }

  lemma NothingWritten(d: Disk, ino: Inode, n: nat, off: nat, buf: seq<Byte>)
    requires n <= INDIRECT2_BOUND
    ensures Written(d, ino, n, d, off, buf, off)
  {
    hide BlockId;
  }

  /** While data blocks are being written, the path to every data block stays put. */
  lemma TreeKept(d0: Disk, ino: Inode, n: nat, d: Disk, off: nat, buf: seq<Byte>, upto: nat, i: nat)
    requires OnDisk(d0, ino, n) && NoDup(Owned(d0, ino, n)) && Written(d0, ino, n, d, off, buf, upto) && i < n
    ensures BlockId(d, ino, i) == BlockId(d0, ino, i) && BlockId(d, ino, i) < |d|
    ensures INODE_DIRECT_COUNT <= i < INDIRECT1_BOUND ==> ino.indirect1 < |d|
    ensures INDIRECT1_BOUND <= i ==> ino.indirect2 < |d| && Entry(d, ino.indirect2, LeafNode(i)) < |d|
  {
    hide Owned, BlockId, TotalFor, Written;
    WrittenKeepsTree(d0, ino, n, d, off, buf, upto);
    PathOnDisk(d, ino, n, i);
  }

  // ---- Lemmas for clear_size ----

  /** What `clear_size` leaves of the inode: only fields that were in use are zeroed. */
  ghost function Cleared(ino: Inode): Inode {
    var n := DataBlocks(ino.size);
    ino.(size := 0,
         direct := seq(27, (i: int) => if i < n then 0 else if 0 <= i < 27 then ino.direct[i] else 0),
         indirect1 := if n > INODE_DIRECT_COUNT then 0 else ino.indirect1,
         indirect2 := if n > INDIRECT1_BOUND then 0 else ino.indirect2)
  }

  lemma Indirect1Home(d: Disk, ino: Inode, n: nat)
    requires INODE_DIRECT_COUNT < n && OnDisk(d, ino, n)
    ensures ino.indirect1 < |d|
  {
    PathOnDisk(d, ino, n, INODE_DIRECT_COUNT);
  }

  lemma Indirect2Home(d: Disk, ino: Inode, n: nat)
    requires INDIRECT1_BOUND < n && OnDisk(d, ino, n)
    ensures ino.indirect2 < |d|
  {
    PathOnDisk(d, ino, n, INDIRECT1_BOUND);
  }

  lemma Indirect1Listing(d: Disk, ino: Inode, j: nat)
    requires j < INODE_INDIRECT1_COUNT && ino.indirect1 < |d|
    ensures Owned(d, ino, INODE_DIRECT_COUNT + j + 1)
         == Owned(d, ino, INODE_DIRECT_COUNT + j) + (if j == 0 then [ino.indirect1] else [])
            + [U32At(d[ino.indirect1], j)]
  {
    hide TotalFor, Owned;
    OwnedStep(d, ino, INODE_DIRECT_COUNT + j);
  }

  lemma LeafPending(d: Disk, ino: Inode, a: nat)
    requires INDIRECT1_BOUND + INODE_INDIRECT1_COUNT * a < INDIRECT2_BOUND && ino.indirect2 < |d|
    ensures a < 128
    ensures NodeIds(d, ino, INDIRECT1_BOUND + INODE_INDIRECT1_COUNT * a)
         == (if a == 0 then [ino.indirect2] else []) + [U32At(d[ino.indirect2], a)]
  {
    LeafSplit(a, 0);
  }

  lemma LeafListing(d: Disk, ino: Inode, a: nat, j: nat)
    requires j < INODE_INDIRECT1_COUNT && INDIRECT1_BOUND + INODE_INDIRECT1_COUNT * a + j < INDIRECT2_BOUND
    requires ino.indirect2 < |d| && U32At(d[ino.indirect2], a) < |d|
    ensures var first := INDIRECT1_BOUND + INODE_INDIRECT1_COUNT * a;
            Owned(d, ino, first + j + 1)
            == Owned(d, ino, first + j) + (if j == 0 then NodeIds(d, ino, first) else [])
               + [U32At(d[U32At(d[ino.indirect2], a)], j)]
  {
    hide TotalFor, Owned;
    LeafSplit(a, j);
    OwnedStep(d, ino, INDIRECT1_BOUND + INODE_INDIRECT1_COUNT * a + j);
  }

  // ---- Lemmas for increase_size ----

  lemma GrowthStarts(d: Disk, ino: Inode, ino2: Inode, n: nat, ids: seq<U32>)
    requires n <= INDIRECT2_BOUND && ino2 == ino.(size := ino2.size)
    requires Fresh(d, Owned(d, ino, n), ids)
    ensures Growing(d, Owned(d, ino, n), ids, d, ino2, n, [], 0)
  {
    hide Owned, TotalFor, BlockId;
    forall i | 0 <= i < n ensures SameAt(d, ino, d, ino2, i) {}
    OwnedSame(d, ino, d, ino2, n);
    var base := Owned(d, ino, n);
    assert base + ids[..0] == base && base + [] == base;
    forall i | 0 <= i < n ensures DataKept(d, d, BlockId(d, ino2, i)) {
      BlockIdOwned(d, ino, n, i);
      assert BlockId(d, ino, i) in base + ids;
    }
  }

  lemma GrowthEnds(d0: Disk, ino0: Inode, n0: nat, ids: seq<U32>, d: Disk, ino: Inode, n: nat, k: nat)
    requires n0 <= n <= INDIRECT2_BOUND && |ids| == TotalFor(n) - TotalFor(n0)
    requires Growing(d0, Owned(d0, ino0, n0), ids, d, ino, n, [], k)
    ensures k == |ids| && |d| == |d0|
    ensures Owned(d, ino, n) == Owned(d0, ino0, n0) + ids
    ensures forall i :: 0 <= i < n0 ==> BlockId(d, ino, i) == BlockId(d0, ino0, i)
    ensures forall b :: 0 <= b < |d| && b !in Owned(d, ino, n) ==> d[b] == d0[b]
    ensures forall i :: 0 <= i < n ==> DataKept(d0, d, BlockId(d, ino, i))
  {
    hide Owned, TotalFor, BlockId;
    var base := Owned(d0, ino0, n0);
    assert Owned(d, ino, n) == Owned(d, ino, n) + [] == base + ids[..k];
    assert |Owned(d, ino, n)| == |base| + k;
    assert ids[..k] == ids;
    forall i | 0 <= i < n0 ensures BlockId(d, ino, i) == BlockId(d0, ino0, i) {
      OwnedAt(d, ino, n, i, NodeCount(i));
      OwnedAt(d0, ino0, n0, i, NodeCount(i));
    }
  }

  /** The index blocks a growth step reads are among the blocks taken so far. */
  lemma Indirect1OnDisk(d0: Disk, base: seq<U32>, ids: seq<U32>, d: Disk, ino: Inode, c: nat, k: nat)
    requires Fresh(d0, base, ids) && INODE_DIRECT_COUNT <= c
    requires Growing(d0, base, ids, d, ino, c, if c == INODE_DIRECT_COUNT then [ino.indirect1] else [], k)
    ensures ino.indirect1 < |d|
  {
    hide Owned, TotalFor, BlockId;
    var s := Owned(d, ino, c) + if c == INODE_DIRECT_COUNT then [ino.indirect1] else [];
    if c == INODE_DIRECT_COUNT {
      assert s[|s| - 1] == ino.indirect1;
    } else {
      OwnedAt(d, ino, c, INODE_DIRECT_COUNT, 0);
      assert s[TotalFor(INODE_DIRECT_COUNT)] == ino.indirect1;
    }
    assert ino.indirect1 in base + ids[..k];
    assert ino.indirect1 in base + ids;
  }

  lemma Indirect2OnDisk(d0: Disk, base: seq<U32>, ids: seq<U32>, d: Disk, ino: Inode, c: nat, k: nat)
    requires Fresh(d0, base, ids) && INDIRECT1_BOUND <= c
    requires Growing(d0, base, ids, d, ino, c, if c == INDIRECT1_BOUND then [ino.indirect2] else [], k)
    ensures ino.indirect2 < |d| && |d| == |d0|
  {
    hide Owned, TotalFor, BlockId;
    var s := Owned(d, ino, c) + if c == INDIRECT1_BOUND then [ino.indirect2] else [];
    if c == INDIRECT1_BOUND {
      assert s[|s| - 1] == ino.indirect2;
    } else {
      OwnedAt(d, ino, c, INDIRECT1_BOUND, 0);
      assert s[TotalFor(INDIRECT1_BOUND)] == ino.indirect2;
    }
    assert ino.indirect2 in base + ids[..k];
    assert ino.indirect2 in base + ids;
  }

  lemma NodeOnDisk(d0: Disk, base: seq<U32>, ids: seq<U32>, d: Disk, ino: Inode, c: nat, k: nat)
    requires Fresh(d0, base, ids) && INDIRECT1_BOUND <= c < INDIRECT2_BOUND
    requires Growing(d0, base, ids, d, ino, c, NodeIds(d, ino, c), k)
    ensures Entry(d, ino.indirect2, LeafNode(c)) < |d|
  {
    hide Owned, TotalFor, BlockId;
    var a := LeafNode(c);
    LeafHomeIs(d, ino, a);
    LeafHomeBefore(c);
    PositionIn(d, ino, c, LeafHome(a).0, LeafHome(a).1);
    assert Entry(d, ino.indirect2, a) in base + ids[..k];
    assert Entry(d, ino.indirect2, a) in base + ids;
  }

  // ---- One step of each loop, ids at hand and tree extended ----

  lemma Indirect1Step(d0: Disk, base: seq<U32>, ids: seq<U32>, d: Disk, ino: Inode, c: nat, k: nat, n: nat)
    requires Fresh(d0, base, ids) && |base| + |ids| == TotalFor(n) && n <= INDIRECT2_BOUND
    requires INODE_DIRECT_COUNT <= c < INDIRECT1_BOUND && c < n && ino.indirect1 < |d|
    requires Growing(d0, base, ids, d, ino, c, if c == INODE_DIRECT_COUNT then [ino.indirect1] else [], k)
    ensures k < |ids|
    ensures var d2 := d[ino.indirect1 := SetU32(d[ino.indirect1], c - INODE_DIRECT_COUNT, ids[k])];
            Growing(d0, base, ids, d2, ino, c + 1, [], k + 1)
  {
    hide Growing, TotalFor, BlockId, Owned;
    assert NodeIds(d, ino, c) == if c == INODE_DIRECT_COUNT then [ino.indirect1] else [];
    IdsLeft(d0, base, ids, d, ino, c, NodeIds(d, ino, c), k, n);
    StepIndirect1(d0, base, ids, d, ino, c, k, SetEntry(d, ino.indirect1, c - INODE_DIRECT_COUNT, ids[k]));
  }

  lemma NewLeafStep(d0: Disk, base: seq<U32>, ids: seq<U32>, d: Disk, ino: Inode, c: nat, k: nat, n: nat)
    requires Fresh(d0, base, ids) && |base| + |ids| == TotalFor(n) && n <= INDIRECT2_BOUND
    requires INDIRECT1_BOUND <= c < n && LeafSlot(c) == 0 && ino.indirect2 < |d|
    requires Growing(d0, base, ids, d, ino, c, if c == INDIRECT1_BOUND then [ino.indirect2] else [], k)
    ensures k < |ids| && LeafNode(c) < 128
    ensures var d2 := d[ino.indirect2 := SetU32(d[ino.indirect2], LeafNode(c), ids[k])];
            Growing(d0, base, ids, d2, ino, c, NodeIds(d2, ino, c), k + 1)
  {
    hide Growing, TotalFor, BlockId, Owned;
    var pend := if c == INDIRECT1_BOUND then [ino.indirect2] else [];
    IdsLeft(d0, base, ids, d, ino, c, pend, k, n);
    StepLeafNode(d0, base, ids, d, ino, c, pend, k, SetEntry(d, ino.indirect2, LeafNode(c), ids[k]));
  }

  lemma LeafStep(d0: Disk, base: seq<U32>, ids: seq<U32>, d: Disk, ino: Inode, c: nat, k: nat, n: nat)
    requires Fresh(d0, base, ids) && |base| + |ids| == TotalFor(n) && n <= INDIRECT2_BOUND
    requires INDIRECT1_BOUND <= c < n && ino.indirect2 < |d|
    requires Growing(d0, base, ids, d, ino, c, if LeafSlot(c) == 0 then NodeIds(d, ino, c) else [], k)
    ensures k < |ids| && LeafNode(c) < 128
    ensures U32At(d[ino.indirect2], LeafNode(c)) < |d|
    ensures var leaf := U32At(d[ino.indirect2], LeafNode(c));
            var d2 := d[leaf := SetU32(d[leaf], LeafSlot(c), ids[k])];
            Growing(d0, base, ids, d2, ino, c + 1, [], k + 1)
  {
    hide Growing, TotalFor, BlockId, Owned;
    assert NodeIds(d, ino, c) == if LeafSlot(c) == 0 then NodeIds(d, ino, c) else [];
    IdsLeft(d0, base, ids, d, ino, c, NodeIds(d, ino, c), k, n);
    NodeOnDisk(d0, base, ids, d, ino, c, k);
    var leaf := Entry(d, ino.indirect2, LeafNode(c));
    StepLeaf(d0, base, ids, d, ino, c, k, SetEntry(d, leaf, LeafSlot(c), ids[k]));
  }

  lemma LeafSplit(a: nat, b: nat)
    requires b < INODE_INDIRECT1_COUNT && INDIRECT1_BOUND + INODE_INDIRECT1_COUNT * a + b < INDIRECT2_BOUND
    ensures LeafNode(INDIRECT1_BOUND + INODE_INDIRECT1_COUNT * a + b) == a
    ensures LeafSlot(INDIRECT1_BOUND + INODE_INDIRECT1_COUNT * a + b) == b
  {
  }

  /** The pair comparison that drives the double-indirect loop. */
  lemma LoopGuard(c: nat, a0: nat, b0: nat, n: nat, a1: nat, b1: nat)
    requires c == INDIRECT1_BOUND + INODE_INDIRECT1_COUNT * a0 + b0 && b0 < INODE_INDIRECT1_COUNT
    requires n == INDIRECT1_BOUND + INODE_INDIRECT1_COUNT * a1 + b1 && b1 < INODE_INDIRECT1_COUNT
    ensures (a0 < a1 || (a0 == a1 && b0 < b1)) <==> c < n
  {
  }
}
