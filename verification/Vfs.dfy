/**
 * Files: reading, writing and clearing through the whole stack of inode, index
 * tree, bitmap and block cache.
 */
module Vfs {
  import opened Basics
  import opened LittleEndian
  import opened BlockCacheLayer
  import opened BitmapLayer
  import opened Layout
  import opened InodeGrowth
  import opened FileData
  import opened DiskInodeOps
  import opened Mfs
  import opened FsState

  /** What an `Inode` object of the original remembers: where its disk inode is. */
  datatype Handle = Handle(blockId: nat, blockOffset: nat)

  ghost predicate IsHandle(g: Geometry, h: Handle, k: nat) {
    g.Wf() && k < g.InodeCount() && (h.blockId, h.blockOffset) == g.Manager().DiskInodePos(k)
  }

  /** A handle stands for one inode only. */
  lemma HandleUnique(g: Geometry, h: Handle, j: nat, k: nat)
    requires IsHandle(g, h, j) && IsHandle(g, h, k)
    ensures j == k
  {
    if j != k { InodePositions(g, j, k); }
  }

  /** The bytes of a file after `buf` has been written at `offset`: overwritten in
      place, extended when it reaches past the end, with zeros in a gap. */
  function WriteBytes(s: seq<Byte>, offset: nat, buf: seq<Byte>): (r: seq<Byte>)
    ensures |r| == Max(|s|, offset + |buf|)
    ensures forall i :: 0 <= i < |r| ==>
              r[i] == if offset <= i < offset + |buf| then buf[i - offset] else if i < |s| then s[i] else 0
  {
    var padded := if offset + |buf| <= |s| then s else s + Zeros(offset + |buf| - |s|);
    Splice(padded, offset, buf)
  }

  /** Blocks a file must still be given to reach `newSize`. */
  function Missing(size: nat, newSize: nat): int {
    if newSize < size then 0 else TotalBlocks(newSize) - TotalBlocks(size)
  }

  /** The free blocks of the data area suffice for growing inode `k` to `newSize`. */
  ghost predicate RoomFor(d: Disk, g: Geometry, size: nat, newSize: nat)
    requires Sized(d, g)
  {
    |DataUsed(d, g)| + Missing(size, newSize) <= g.DataAreaBlocks()
  }

  // ---- Taking data blocks ----

  ghost predicate Taken(d0: Disk, g: Geometry, d: Disk, v: seq<U32>)
    requires Sized(d0, g)
  {
    && |d| == |d0|
    && NoDup(v)
    && (forall x :: x in v ==> Start(g) <= x < g.total && x !in UsedBlocks(d0, g))
    && UsedBlocks(d, g) == UsedBlocks(d0, g) + (set x: nat | x in v)
    && (forall b :: 0 <= b < |d| && !InDataBitmap(g, b) ==> d[b] == d0[b])
  }

  lemma NotExhausted(d: Disk, g: Geometry)
    requires Sized(d, g) && |DataUsed(d, g)| < g.DataAreaBlocks()
    ensures g.Manager().dataBitmap.InDisk(d) && !Exhausted(g.Manager().dataBitmap, d)
    ensures g.Manager().dataBitmap.start + g.Manager().dataBitmap.blocks == Start(g)
    ensures g.total == Start(g) + g.DataAreaBlocks()
  {
    Regions(d, g);
    RegionsCover(g);
    var bm := g.Manager().dataBitmap;
    if Exhausted(bm, d) {
      SubsetCard(Range(0, bm.Maximum()), bm.Used(d));
    }
  }

  lemma DataUsedIs(d: Disk, g: Geometry)
    requires Sized(d, g)
    ensures g.Manager().dataBitmap.InDisk(d) && DataUsed(d, g) == g.Manager().dataBitmap.Used(d)
  {
  }

  lemma TakenOneMore(d0: Disk, g: Geometry, d: Disk, v: seq<U32>, d2: Disk, id: U32)
    requires Sized(d0, g) && Taken(d0, g, d, v)
    requires Start(g) <= id < g.total && id - Start(g) !in DataUsed(d, g)
    requires |d2| == |d| && DataUsed(d2, g) == DataUsed(d, g) + {id - Start(g)}
    requires var bm := g.Manager().dataBitmap; SameOutside(d, d2, bm.start, bm.start + bm.blocks)
    ensures Taken(d0, g, d2, v + [id])
  {
    hide DataUsed;
    RegionsCover(g);
    assert UsedBlocks(d2, g) == UsedBlocks(d, g) + {id as nat};
  }

  /** The blocks in use lie in the data area. */
  lemma UsedInArea(d: Disk, g: Geometry)
    requires FsInv(d, g)
    ensures forall b :: b in DataUsed(d, g) ==> b < g.DataAreaBlocks()
  {
    hide InodeOf, FileBlocks, DataUsed, FreeIsZero, TailZero, NoDup;
    RegionsCover(g);
    forall b | b in DataUsed(d, g) ensures b < g.DataAreaBlocks() {
      assert b + Start(g) in UsedBlocks(d, g);
      var k :| k in Owners(d, g) && b + Start(g) in Owners(d, g)[k];
      assert FileOk(d, g, InodeOf(d, g, k));
    }
  }

  /** Distinct free blocks of the area fit into what is left of it. */
  lemma TakenFits(d0: Disk, g: Geometry, d: Disk, v: seq<U32>)
    requires FsInv(d0, g) && Taken(d0, g, d, v)
    ensures |DataUsed(d0, g)| + |v| <= g.DataAreaBlocks()
  {
    hide DataUsed, FsInv, Start, NoDup, Range, UsedBlocks;
    VolumeSized(d0, g);
    AreaEnds(d0, g);
    UsedInArea(d0, g);
    var taken := DistinctCard(v);
    FitsBelow(DataUsed(d0, g), UsedBlocks(d0, g), taken, Start(g), g.DataAreaBlocks());
  }

  lemma FitsBelow(used: set<nat>, blocks: set<nat>, taken: set<nat>, start: nat, n: nat)
    requires forall x :: x in blocks <==> x >= start && x - start in used
    requires forall x :: x in used ==> x < n
    requires blocks !! taken && forall x :: x in taken ==> start <= x < start + n
    ensures |used| + |taken| <= n
  {
    hide Range;
    var shifted := set x | x in taken :: x - start;
    ShiftCard(used, blocks, start);
    ShiftCard(shifted, taken, start);
    assert used !! shifted;
    SubsetCard(used + shifted, Range(0, n));
  }

  /** `n` calls of `alloc_data`.  All of them find a block of the data area exactly when the
      area has room for them; `ok` is false where the source panics because the bitmap is
      exhausted. */
  method AllocBlocks(m: BlockManager, n: nat, c: BlockCacheManager, ghost g: Geometry)
    returns (ok: bool, v: seq<nat>)
    requires c.Valid() && |c.pins| < BLOCK_CACHE_SIZE && FsInv(c.view, g) && m == g.Manager()
    modifies c
    ensures c.Valid() && c.pins == old(c.pins)
    ensures ok ==> |v| == n && forall x :: x in v ==> Start(g) <= x
    ensures ok && AllBelow(v, g.total) <==> |DataUsed(old(c.view), g)| + n <= g.DataAreaBlocks()
    ensures |DataUsed(old(c.view), g)| + n <= g.DataAreaBlocks() ==>
              (forall i :: 0 <= i < |v| ==> v[i] < 0x1_0000_0000) && Taken(old(c.view), g, c.view, v)
  {
    hide BlockCacheManager.Valid, Taken, DataUsed, FsInv, Start, AllBelow;
    ghost var d0 := c.view;
    NoneBelow(g.total);
    VolumeSized(d0, g);
    TakenNone(d0, g);
    v := [];
    ghost var taken: seq<U32>, inside := [], true;
    ghost var room := |DataUsed(d0, g)| + n <= g.DataAreaBlocks();
    var i := 0;
    while i < n
      invariant 0 <= i <= n && |v| == i && Sized(c.view, g)
      invariant c.Valid() && c.pins == old(c.pins)
      invariant forall x :: x in v ==> Start(g) <= x
      invariant inside <==> AllBelow(v, g.total)
      invariant inside ==> taken == v && Taken(d0, g, c.view, taken)
      invariant room ==> inside && |DataUsed(c.view, g)| + (n - i) <= g.DataAreaBlocks()
    {
      var id;
      ok, id := AllocOne(m, taken, inside, c, g, d0);
      if !ok {
        return;
      }
      inside := inside && id < g.total;
      if inside { taken := taken + [id]; }
      OneMoreBelow(v, id, g.total);
      v := v + [id];
      i := i + 1;
    }
    if inside { TakenFits(d0, g, c.view, taken); }
    ok := true;
  }

  ghost predicate AllBelow(v: seq<nat>, limit: nat) {
    forall x :: x in v ==> x < limit
  }

  lemma NoneBelow(limit: nat)
    ensures AllBelow([], limit)
  {
  }

  lemma OneMoreBelow(v: seq<nat>, id: nat, limit: nat)
    ensures AllBelow(v + [id], limit) <==> AllBelow(v, limit) && id < limit
  {
    assert forall x :: x in v + [id] <==> x in v || x == id;
    assert id in v + [id];
  }

  lemma VolumeSized(d: Disk, g: Geometry)
    requires FsInv(d, g)
    ensures Sized(d, g)
  {
  }

  lemma TakenNone(d: Disk, g: Geometry)
    requires Sized(d, g)
    ensures Taken(d, g, d, [])
  {
  }

  /** One call of `alloc_data`, after calls that all found blocks of the area or not. */
  method AllocOne(m: BlockManager, ghost w: seq<U32>, ghost inside: bool, c: BlockCacheManager, ghost g: Geometry,
                  ghost d0: Disk) returns (found: bool, id: nat)
    requires c.Valid() && |c.pins| < BLOCK_CACHE_SIZE && Sized(c.view, g) && m == g.Manager()
    requires Sized(d0, g) && (inside ==> Taken(d0, g, c.view, w))
    modifies c
    ensures c.Valid() && c.pins == old(c.pins) && |c.view| == old(|c.view|)
    ensures |DataUsed(old(c.view), g)| < g.DataAreaBlocks() ==> found && id < g.total
    ensures found ==> Start(g) <= id && |DataUsed(c.view, g)| == old(|DataUsed(c.view, g)|) + 1
    ensures found && inside && id < g.total ==> id < 0x1_0000_0000 && Taken(d0, g, c.view, w + [id])
  {
    hide BlockCacheManager.Valid, Taken, Exhausted, SameOutside, Bitmap.Used, Bitmap.Maximum, Bitmap.IsSet, DataUsed,
      Geometry.Manager, Geometry.DataAreaBlocks;
    ghost var d := c.view;
    if |DataUsed(d, g)| < g.DataAreaBlocks() { NotExhausted(d, g); }
    AreaEnds(d, g);
    DataUsedIs(d, g);
    found, id := AllocData(m, c);
    DataUsedIs(c.view, g);
    if found && inside && id < g.total {
      TakenOneMore(d0, g, d, w, c.view, id);
    }
  }

  lemma AreaEnds(d: Disk, g: Geometry)
    requires Sized(d, g)
    ensures g.Manager().dataBitmap.InDisk(d)
    ensures g.Manager().dataAreaStart == Start(g) && g.total == Start(g) + g.DataAreaBlocks() < 0x1_0000_0000
  {
    Regions(d, g);
    RegionsCover(g);
  }

  // ---- Growing a file ----

  ghost predicate Grew(d1: Disk, ino0: Inode, v: seq<U32>, d2: Disk, ino2: Inode)
    requires ino0.size <= ino2.size <= MAX_SIZE
  {
    BlockCountBound(ino0.size);
    BlockCountBound(ino2.size);
    var n0, n2 := DataBlocks(ino0.size), DataBlocks(ino2.size);
    && |d2| == |d1| && (n2 <= INODE_DIRECT_COUNT ==> ino2.indirect1 == ino0.indirect1)
    && Owned(d2, ino2, n2) == Owned(d1, ino0, n0) + v
    && (forall i :: 0 <= i < n0 ==> BlockId(d2, ino2, i) == BlockId(d1, ino0, i))
    && (forall b :: 0 <= b < |d2| && b !in Owned(d2, ino2, n2) ==> d2[b] == d1[b])
    && (forall i :: 0 <= i < n2 ==> DataKept(d1, d2, BlockId(d2, ino2, i)))
  }

  /** Bytes of the grown file: the old ones, then zeros. */
  lemma GrewBytes(d0: Disk, g: Geometry, k: nat, d1: Disk, v: seq<U32>, d2: Disk, ino2: Inode, p: nat)
    requires FsInv(d0, g) && k in Live(d0, g) && Taken(d0, g, d1, v)
    requires InodeOf(d0, g, k).size <= ino2.size <= MAX_SIZE && Grew(d1, InodeOf(d0, g, k), v, d2, ino2)
    requires FileBlocks(d1, InodeOf(d0, g, k)) == FileBlocks(d0, InodeOf(d0, g, k))
    requires forall i :: 0 <= i < DataBlocks(InodeOf(d0, g, k).size) ==>
               BlockId(d1, InodeOf(d0, g, k), i) == BlockId(d0, InodeOf(d0, g, k), i)
    requires p < BLOCK_SZ * DataBlocks(ino2.size) && DataBlocks(ino2.size) <= INDIRECT2_BOUND
    ensures ByteAt(d2, ino2, p)
         == if p < BLOCK_SZ * DataBlocks(InodeOf(d0, g, k).size) then ByteAt(d0, InodeOf(d0, g, k), p) else 0
  {
    hide Owned, BlockId, InodeOf, TotalFor, Ownership, TailZero, NoDup, DataUsed, NodeCount;
    var ino0 := InodeOf(d0, g, k);
    var i, n0, n2 := p / BLOCK_SZ, DataBlocks(ino0.size), DataBlocks(ino2.size);
    assert FileOk(d0, g, ino0);
    assert DataKept(d1, d2, BlockId(d2, ino2, i));
    Regions(d0, g);
    if i < n0 {
      BlockIdOwned(d0, ino0, n0, i);
      assert BlockId(d0, ino0, i) in FileBlocks(d0, ino0);
    } else {
      OwnedAt(d2, ino2, n2, i, NodeCount(i));
      TotalMono(n0, i);
      assert BlockId(d2, ino2, i) in v;
    }
  }

  lemma TakenKeepsFile(d0: Disk, g: Geometry, k: nat, d1: Disk, v: seq<U32>)
    requires FsInv(d0, g) && k in Live(d0, g) && Taken(d0, g, d1, v)
    ensures FileBlocks(d1, InodeOf(d0, g, k)) == FileBlocks(d0, InodeOf(d0, g, k))
    ensures FileOk(d1, g, InodeOf(d0, g, k))
    ensures var ino := InodeOf(d0, g, k);
            forall i :: 0 <= i < DataBlocks(ino.size) ==> BlockId(d1, ino, i) == BlockId(d0, ino, i)
    ensures Fresh(d1, FileBlocks(d1, InodeOf(d0, g, k)), v)
  {
    hide InodeOf, BlockId, Owned, TotalFor, Ownership, FreeIsZero, NoDup, DataUsed, NodeCount;
    var ino := InodeOf(d0, g, k);
    assert FileOk(d0, g, ino);
    Regions(d0, g);
    FileFrame(d0, d1, g, ino);
    BlockCountBound(ino.size);
    SameListing(d0, d1, ino, DataBlocks(ino.size));
    FreshIds(d0, g, k, v);
  }

  /** The listing determines the data blocks. */
  lemma SameListing(d: Disk, d2: Disk, ino: Inode, n: nat)
    requires n <= INDIRECT2_BOUND && Owned(d2, ino, n) == Owned(d, ino, n)
    ensures forall i :: 0 <= i < n ==> BlockId(d2, ino, i) == BlockId(d, ino, i)
  {
    hide BlockId, Owned, TotalFor, NodeCount;
    forall i | 0 <= i < n ensures BlockId(d2, ino, i) == BlockId(d, ino, i) {
      OwnedAt(d2, ino, n, i, NodeCount(i));
      OwnedAt(d, ino, n, i, NodeCount(i));
    }
  }

  lemma FreshIds(d0: Disk, g: Geometry, k: nat, v: seq<U32>)
    requires FsInv(d0, g) && k in Live(d0, g) && NoDup(v)
    requires forall x :: x in v ==> Start(g) <= x < g.total && x !in UsedBlocks(d0, g)
    ensures Fresh(d0, FileBlocks(d0, InodeOf(d0, g, k)), v)
  {
    hide InodeOf, FileBlocks, UsedBlocks, TailZero, FreeIsZero;
    var s := FileBlocks(d0, InodeOf(d0, g, k));
    assert FileOk(d0, g, InodeOf(d0, g, k));
    assert Owners(d0, g)[k] == FileSet(d0, InodeOf(d0, g, k));
    assert Owners(d0, g)[k] <= UsedBlocks(d0, g);
    assert forall x :: x in v ==> x !in FileSet(d0, InodeOf(d0, g, k));
    var all := s + v;
    forall i, j | 0 <= i < j < |all| ensures all[i] != all[j] {
      if i < |s| <= j {
        assert all[i] in s && all[j] in v;
      }
    }
  }

  lemma GrewFileOk(d0: Disk, g: Geometry, k: nat, d1: Disk, v: seq<U32>, d2: Disk, ino2: Inode)
    requires FsInv(d0, g) && k in Live(d0, g) && Taken(d0, g, d1, v)
    requires InodeOf(d0, g, k).size <= ino2.size <= MAX_SIZE && Grew(d1, InodeOf(d0, g, k), v, d2, ino2)
    ensures FileOk(d2, g, ino2)
    ensures BytesOf(d2, ino2) == BytesOf(d0, InodeOf(d0, g, k)) + Zeros(ino2.size - InodeOf(d0, g, k).size)
    ensures FileSet(d2, ino2) == FileSet(d0, InodeOf(d0, g, k)) + (set x: nat | x in v)
  {
    hide Owned, BlockId, InodeOf, TotalFor, Ownership, FreeIsZero, ByteAt;
    var ino0 := InodeOf(d0, g, k);
    assert FileOk(d0, g, ino0);
    BlockCountBound(ino0.size);
    BlockCountBound(ino2.size);
    TakenKeepsFile(d0, g, k, d1, v);
    assert FileBlocks(d2, ino2) == FileBlocks(d0, ino0) + v;
    forall p | 0 <= p < BLOCK_SZ * DataBlocks(ino2.size)
      ensures ByteAt(d2, ino2, p) == if p < BLOCK_SZ * DataBlocks(ino0.size) then ByteAt(d0, ino0, p) else 0
    {
      GrewBytes(d0, g, k, d1, v, d2, ino2, p);
    }
  }

  lemma GrewPending(d0: Disk, g: Geometry, k: nat, d1: Disk, v: seq<U32>, d2: Disk, ino2: Inode)
    requires FsInv(d0, g) && k in Live(d0, g) && Taken(d0, g, d1, v)
    requires InodeOf(d0, g, k).size <= ino2.size <= MAX_SIZE && Grew(d1, InodeOf(d0, g, k), v, d2, ino2)
    ensures Pending(d0, g, k, d2, ino2)
    ensures BytesOf(d2, ino2) == BytesOf(d0, InodeOf(d0, g, k)) + Zeros(ino2.size - InodeOf(d0, g, k).size)
  {
    hide InodeOf, BlockId, Owned, TotalFor, BytesOf, FreeIsZero, NoDup, TailZero;
    var ino0 := InodeOf(d0, g, k);
    GrewFileOk(d0, g, k, d1, v, d2, ino2);
    Regions(d0, g);
    assert UsedBlocks(d2, g) == UsedBlocks(d1, g) by {
      hide UsedBlocks, Taken, DataUsed;
      assert |d1| == |d0| by { TakenSize(d0, g, d1, v); }
      SameBitmap(d1, g, d2, FileBlocks(d2, ino2));
    }
    assert Owners(d0, g)[k] == FileSet(d0, ino0);
  }

  lemma TakenSize(d0: Disk, g: Geometry, d: Disk, v: seq<U32>)
    requires Sized(d0, g) && Taken(d0, g, d, v)
    ensures |d| == |d0|
  {
  }

  /** Changing blocks of the data area does not change what is marked used. */
  lemma SameBitmap(d: Disk, g: Geometry, d2: Disk, s: seq<U32>)
    requires Sized(d, g) && |d2| == |d| && InArea(g, s)
    requires forall b :: 0 <= b < |d| && b !in s ==> d2[b] == d[b]
    ensures UsedBlocks(d2, g) == UsedBlocks(d, g) && DataUsed(d2, g) == DataUsed(d, g)
  {
    Regions(d, g);
    RegionsCover(g);
    UsedFrame(g.Manager().dataBitmap, d, d2);
  }

  lemma NothingPending(d: Disk, g: Geometry, k: nat)
    requires FsInv(d, g) && k in Live(d, g)
    ensures Pending(d, g, k, d, InodeOf(d, g, k))
  {
    hide InodeOf, FileBlocks, FreeIsZero;
    assert FileOk(d, g, InodeOf(d, g, k));
    assert Owners(d, g)[k] == FileSet(d, InodeOf(d, g, k));
  }

  /** `Inode::increase_size`: takes the missing blocks and hands them to the inode. */
  method IncreaseSize(m: BlockManager, newSize: nat, ino: DiskInode, c: BlockCacheManager,
                      ghost g: Geometry, ghost k: nat)
    requires c.Valid() && |c.pins| <= BLOCK_CACHE_SIZE - 2
    requires FsInv(c.view, g) && m == g.Manager() && k in Live(c.view, g) && ino.Value() == InodeOf(c.view, g, k)
    requires newSize <= MAX_SIZE && RoomFor(c.view, g, ino.size, newSize)
    modifies c, ino
    ensures c.Valid() && c.pins == old(c.pins)
    ensures Pending(old(c.view), g, k, c.view, ino.Value())
    ensures ino.size == Max(old(ino.size), newSize) && ino.kind == old(ino.kind)
    ensures BytesOf(c.view, ino.Value()) == BytesOf(old(c.view), old(ino.Value())) + Zeros(ino.size - old(ino.size))
  {
    hide BlockCacheManager.Valid, FsInv, Pending, InodeOf, Owned, BlockId, TotalFor, BytesOf, Taken, DataUsed, Fresh;
    ghost var d0 := c.view;
    ghost var before := ino.Value();
    if newSize < ino.size {
      NothingPending(d0, g, k);
      assert BytesOf(d0, before) + Zeros(0) == BytesOf(d0, before);
      return;
    }
    SizeBound(d0, g, k);
    BlockCountBound(newSize);
    TotalMono(DataBlocks(ino.size), DataBlocks(newSize));
    var needed := TotalBlocks(newSize) - TotalBlocks(ino.size);
    var _, v := AllocBlocks(m, needed, c, g);
    ghost var d1 := c.view;
    TakenKeepsFile(d0, g, k, d1, v);
    ino.IncreaseSize(newSize, v, c);
    GrewPending(d0, g, k, d1, v, c.view, ino.Value());
  }

  lemma SizeBound(d: Disk, g: Geometry, k: nat)
    requires FsInv(d, g) && k in Live(d, g)
    ensures Sized(d, g) && InodeOf(d, g, k).size <= MAX_SIZE
    ensures FileOk(d, g, InodeOf(d, g, k))
  {
  }

  // ---- The operations ----

  /** The part of `write_at` that runs inside `modify_disk_inode`. */
  method WriteInode(m: BlockManager, offset: nat, buf: seq<Byte>, ino: DiskInode, c: BlockCacheManager,
                    ghost g: Geometry, ghost k: nat) returns (n: nat)
    requires c.Valid() && |c.pins| <= BLOCK_CACHE_SIZE - 2
    requires FsInv(c.view, g) && m == g.Manager() && k in Live(c.view, g) && ino.Value() == InodeOf(c.view, g, k)
    requires offset + |buf| <= MAX_SIZE && RoomFor(c.view, g, ino.size, offset + |buf|)
    requires |buf| > 0 || offset < ino.size || offset % BLOCK_SZ != 0
    modifies c, ino
    ensures c.Valid() && c.pins == old(c.pins) && n == |buf|
    ensures Pending(old(c.view), g, k, c.view, ino.Value())
    ensures ino.kind == old(ino.kind)
    ensures BytesOf(c.view, ino.Value()) == WriteBytes(BytesOf(old(c.view), old(ino.Value())), offset, buf)
  {
    hide BlockCacheManager.Valid, FsInv, Pending, InodeOf, Owned, BlockId, TotalFor, BytesOf, DataUsed, Written,
      RoomFor;
    ghost var d0, before := c.view, ino.Value();
    IncreaseSize(m, offset + |buf|, ino, c, g, k);
    ghost var d1 := c.view;
    SizeBound(d0, g, k);
    PendingOnDisk(d0, g, k, d1, ino.Value());
    InLastBlock(offset, |buf|, old(ino.size), ino.size);
    n := ino.WriteAt(offset, buf, c);
    WrittenPending(d0, g, k, d1, ino.Value(), c.view, offset, buf, offset + n);
    PaddedBytes(BytesOf(d0, before), offset, buf, ino.size);
  }

  lemma PaddedBytes(s: seq<Byte>, offset: nat, buf: seq<Byte>, size: nat)
    requires size == Max(|s|, offset + |buf|)
    ensures Splice(s + Zeros(size - |s|), offset, buf[..|buf|]) == WriteBytes(s, offset, buf)
  {
    assert buf[..|buf|] == buf;
    if offset + |buf| <= |s| {
      assert s + Zeros(0) == s;
    }
  }

  /** The first block the write loop addresses belongs to the file exactly when the buffer
      is not empty, or starts before the end of the file, or inside a block. */
  lemma InLastBlock(offset: nat, len: nat, size0: nat, size: nat)
    requires size == Max(size0, offset + len)
    ensures offset <= size
    ensures offset / BLOCK_SZ < DataBlocks(size) <==> (len > 0 || offset < size0 || offset % BLOCK_SZ != 0)
  {
    assert offset < size <==> len > 0 || offset < size0;
  }

  lemma PendingOnDisk(d0: Disk, g: Geometry, k: nat, d: Disk, ino: Inode)
    requires Sized(d0, g) && k < g.InodeCount() && Pending(d0, g, k, d, ino)
    ensures ino.size <= MAX_SIZE && DataBlocks(ino.size) <= INDIRECT2_BOUND && |BytesOf(d, ino)| == ino.size
    ensures OnDisk(d, ino, DataBlocks(ino.size)) && NoDup(Owned(d, ino, DataBlocks(ino.size)))
    ensures |d| == |d0|
  {
    hide Owned, InodeOf, UsedBlocks, NoDup;
    BlockCountBound(ino.size);
    assert FileBlocks(d, ino) == Owned(d, ino, DataBlocks(ino.size));
  }

  /** Writing data blocks of the pending file is still pending work on that file. */
  lemma WrittenPending(d0: Disk, g: Geometry, k: nat, d1: Disk, ino: Inode, d2: Disk,
                       offset: nat, buf: seq<Byte>, upto: nat)
    requires Sized(d0, g) && k < g.InodeCount() && Pending(d0, g, k, d1, ino)
    requires ino.size <= MAX_SIZE && DataBlocks(ino.size) <= INDIRECT2_BOUND && upto <= ino.size
    requires Written(d1, ino, DataBlocks(ino.size), d2, offset, buf, upto)
    ensures Pending(d0, g, k, d2, ino)
    ensures BytesOf(d2, ino) == Splice(BytesOf(d1, ino), offset, buf[..upto - offset])
  {
    hide Owned, InodeOf, BlockId, TotalFor, Written, NoDup, TailZero, Content, UsedBlocks, DataUsed;
    BlockCountBound(ino.size);
    WrittenKeepsTree(d1, ino, DataBlocks(ino.size), d2, offset, buf, upto);
    WrittenMeans(d1, ino, d2, offset, buf, upto);
    SameBitmap(d1, g, d2, FileBlocks(d1, ino));
    assert FileSet(d2, ino) == FileSet(d1, ino);
  }

  /** `Inode::write_at`. */
  method WriteAt(m: BlockManager, h: Handle, offset: nat, buf: seq<Byte>, c: BlockCacheManager,
                 ghost g: Geometry, ghost k: nat) returns (n: nat)
    requires c.Valid() && |c.pins| <= BLOCK_CACHE_SIZE - 3
    requires FsInv(c.view, g) && m == g.Manager() && k in Live(c.view, g) && IsHandle(g, h, k)
    requires InodeOf(c.view, g, k).kind == File
    requires offset + |buf| <= MAX_SIZE && RoomFor(c.view, g, InodeOf(c.view, g, k).size, offset + |buf|)
    requires |buf| > 0 || offset < InodeOf(c.view, g, k).size || offset % BLOCK_SZ != 0
    modifies c
    ensures c.Valid() && c.pins == old(c.pins) && c.device == c.view
    ensures FsInv(c.view, g)
    ensures n == |buf| && Live(c.view, g) == Live(old(c.view), g)
    ensures UsedBlocks(c.view, g) == UsedBlocks(old(c.view), g) - Owners(old(c.view), g)[k] + Owners(c.view, g)[k]
    ensures Owners(c.view, g) == Owners(old(c.view), g)[k := Owners(c.view, g)[k]]
    ensures Files(c.view, g)
         == Files(old(c.view), g)[k := Node(File, WriteBytes(Files(old(c.view), g)[k].bytes, offset, buf))]
    ensures SameSuper(old(c.view), c.view)
  {
    hide SameSuper, BlockCacheManager.Valid, FsInv, Pending, InodeOf, BytesOf, DataUsed, RoomFor, LoadInode,
      StoreInode, Stored, WriteBytes, UsedBlocks, Owners;
    ghost var d0 := c.view;
    SizeBound(d0, g, k);
    var ino := OpenInode(h, c, g, k);
    n := WriteInode(m, offset, buf, ino, c, g, k);
    PendingUsed(d0, g, k, c.view, ino.Value());
    CloseInode(h, ino, c, g, k, d0);
    c.SyncAll();
  }

  /** `block_cache(self.block_id).lock()` and the reinterpretation of its bytes as an
      inode; the handle on the block stays out until `CloseInode`. */
  method OpenInode(h: Handle, c: BlockCacheManager, ghost g: Geometry, ghost k: nat) returns (ino: DiskInode)
    requires c.Valid() && |c.pins| < BLOCK_CACHE_SIZE
    requires Sized(c.view, g) && IsHandle(g, h, k)
    modifies c
    ensures c.Valid() && c.view == old(c.view) && c.pins == old(c.pins) + multiset{h.blockId}
    ensures old(c.Synced()) ==> c.Synced()
    ensures fresh(ino) && ino.Value() == InodeOf(c.view, g, k)
  {
    hide BlockCacheManager.Valid, LoadInode;
    Regions(c.view, g);
    c.Acquire(h.blockId);
    var b := c.Read(h.blockId);
    SlotOf(k);
    ino := new DiskInode(LoadInode(b, h.blockOffset / INODE_SIZE));
  }

  lemma SlotOf(k: nat)
    ensures k % INODES_PER_BLOCK * INODE_SIZE / INODE_SIZE == k % INODES_PER_BLOCK
  {
  }

  /** The superblock is the same. */
  ghost predicate SameSuper(d0: Disk, d: Disk) {
    |d| == |d0| > 0 && d[0] == d0[0]
  }

  lemma StoredSameSuper(d0: Disk, g: Geometry, k: nat, d: Disk, ino: Inode)
    requires FsInv(d0, g) && k in Live(d0, g) && Pending(d0, g, k, d, ino)
    ensures Sized(d, g) && SameSuper(d0, Stored(d, g, k, ino))
  {
    hide InodeOf, FileSet, UsedBlocks, FileOk, Ownership, Owners, FreeIsZero, StoreInode;
    PendingKeepsTables(d0, g, k, d, ino);
    Regions(d, g);
    RegionsCover(g);
  }

  /** The mapped inode's bytes become the block's bytes, and the handle is dropped. */
  method CloseInode(h: Handle, ino: DiskInode, c: BlockCacheManager, ghost g: Geometry, ghost k: nat, ghost d0: Disk)
    requires c.Valid() && h.blockId in c.pins && IsHandle(g, h, k)
    requires FsInv(d0, g) && k in Live(d0, g) && Pending(d0, g, k, c.view, ino.Value())
    modifies c
    ensures c.Valid() && c.pins == old(c.pins) - multiset{h.blockId}
    ensures FsInv(c.view, g) && Live(c.view, g) == Live(d0, g)
    ensures Sized(old(c.view), g) && UsedBlocks(c.view, g) == UsedBlocks(old(c.view), g)
    ensures InodeOf(c.view, g, k) == ino.Value()
    ensures Owners(c.view, g) == Owners(d0, g)[k := FileSet(old(c.view), ino.Value())]
    ensures Files(c.view, g) == Files(d0, g)[k := Node(ino.kind, BytesOf(old(c.view), ino.Value()))]
    ensures SameSuper(d0, c.view)
  {
    hide BlockCacheManager.Valid, FsInv, Pending, InodeOf, BytesOf, LoadInode, StoreInode, FileSet, Owners, Files,
      UsedBlocks;
    ghost var d := c.view;
    SizeBound(d0, g, k);
    PendingFileOk(d0, g, k, d, ino.Value());
    Commit(d0, g, k, d, ino.Value());
    StoredSameSuper(d0, g, k, d, ino.Value());
    var b := c.Read(h.blockId);
    SlotOf(k);
    c.Modify(h.blockId, StoreInode(b, h.blockOffset / INODE_SIZE, ino.Value()));
    c.Release(h.blockId);
  }

  /** `Inode::read_at`: exactly the bytes of the file that the range covers. */
  method ReadAt(h: Handle, offset: nat, buf: array<Byte>, c: BlockCacheManager, ghost g: Geometry, ghost k: nat)
    returns (n: nat)
    requires c.Valid() && |c.pins| <= BLOCK_CACHE_SIZE - 2
    requires FsInv(c.view, g) && k in Live(c.view, g) && IsHandle(g, h, k)
    modifies c, buf
    ensures c.Valid() && c.view == old(c.view) && c.pins == old(c.pins)
    ensures old(c.Synced()) ==> c.Synced()
    ensures var bytes := Files(c.view, g)[k].bytes;
            && n == (if offset >= |bytes| then 0
                     else if offset + buf.Length <= |bytes| then buf.Length else |bytes| - offset)
            && (n > 0 ==> buf[..n] == bytes[offset..offset + n])
            && buf[n..] == old(buf[n..])
  {
    hide BlockCacheManager.Valid, FsInv, InodeOf, Owned, Content, TailZero, NoDup, LoadInode;
    SizeBound(c.view, g, k);
    ghost var value := InodeOf(c.view, g, k);
    assert OnDisk(c.view, value, DataBlocks(value.size)) by {
      BlockCountBound(value.size);
      assert FileBlocks(c.view, value) == Owned(c.view, value, DataBlocks(value.size));
    }
    var ino := OpenInode(h, c, g, k);
    n := ino.ReadAt(offset, buf, c);
    c.Release(h.blockId);
  }

  lemma PendingUsed(d0: Disk, g: Geometry, k: nat, d: Disk, ino: Inode)
    requires FsInv(d0, g) && k in Live(d0, g) && Pending(d0, g, k, d, ino)
    ensures Sized(d, g) && UsedBlocks(d, g) == UsedBlocks(d0, g) - Owners(d0, g)[k] + FileSet(d, ino)
  {
  }

  // ---- Clearing ----

  /** The first `i` blocks of `v` have been zeroed and freed. */
  ghost predicate Freed(d0: Disk, g: Geometry, v: seq<U32>, i: nat, d: Disk)
    requires Sized(d0, g) && i <= |v|
  {
    && |d| == |d0|
    && UsedBlocks(d, g) == UsedBlocks(d0, g) - (set x: nat | x in v[..i])
    && (forall b :: 0 <= b < |d| && b !in v[..i] && !InDataBitmap(g, b) ==> d[b] == d0[b])
    && (forall b :: b in v[..i] && b < |d| ==> d[b] == ZeroBlock())
  }

  lemma FreedNone(d: Disk, g: Geometry, v: seq<U32>)
    requires Sized(d, g)
    ensures Freed(d, g, v, 0, d)
  {
  }

  lemma FreedOneMore(d0: Disk, g: Geometry, v: seq<U32>, i: nat, d: Disk, d2: Disk)
    requires Sized(d0, g) && i < |v| && Freed(d0, g, v, i, d) && InArea(g, v)
    requires |d2| == |d| && DataUsed(d2, g) == DataUsed(d, g) - {v[i] - Start(g)}
    requires v[i] < |d| && d2[v[i]] == ZeroBlock()
    requires var bm := g.Manager().dataBitmap;
             SameOutside(d[v[i] := ZeroBlock()], d2, bm.start, bm.start + bm.blocks)
    ensures Freed(d0, g, v, i + 1, d2)
  {
    hide DataUsed;
    Regions(d0, g);
    RegionsCover(g);
    assert v[..i + 1] == v[..i] + [v[i]];
    assert v[i] in v;
    assert UsedBlocks(d2, g) == UsedBlocks(d, g) - {v[i] as nat};
    forall b | b in v[..i] && b < |d2| ensures d2[b] == ZeroBlock() {
      assert b in v;
    }
  }

  /** The loop of `Inode::clear` over the blocks that `clear_size` handed back. */
  method FreeBlocks(m: BlockManager, v: seq<U32>, c: BlockCacheManager, ghost g: Geometry)
    requires c.Valid() && |c.pins| < BLOCK_CACHE_SIZE && Sized(c.view, g) && m == g.Manager()
    requires NoDup(v) && InArea(g, v) && forall x :: x in v ==> x in UsedBlocks(c.view, g)
    modifies c
    ensures c.Valid() && c.pins == old(c.pins) && Freed(old(c.view), g, v, |v|, c.view)
  {
    hide BlockCacheManager.Valid, DataUsed, Freed, InArea, NoDup;
    ghost var d0 := c.view;
    FreedNone(d0, g, v);
    var i := 0;
    while i < |v|
      invariant 0 <= i <= |v|
      invariant c.Valid() && c.pins == old(c.pins)
      invariant Freed(d0, g, v, i, c.view)
    {
      FreeOne(m, v, i, c, g, d0);
      i := i + 1;
    }
  }

  method FreeOne(m: BlockManager, v: seq<U32>, i: nat, c: BlockCacheManager, ghost g: Geometry, ghost d0: Disk)
    requires c.Valid() && |c.pins| < BLOCK_CACHE_SIZE && Sized(d0, g) && m == g.Manager()
    requires NoDup(v) && InArea(g, v) && forall x :: x in v ==> x in UsedBlocks(d0, g)
    requires i < |v| && Freed(d0, g, v, i, c.view)
    modifies c
    ensures c.Valid() && c.pins == old(c.pins) && Freed(d0, g, v, i + 1, c.view)
  {
    hide BlockCacheManager.Valid, Freed, NoDup, Bitmap.Used, Bitmap.Maximum, Bitmap.IsSet, SameOutside, DataUsed,
      Geometry.Manager, Geometry.DataAreaBlocks;
    ghost var d := c.view;
    StillUsed(d0, g, v, i, d);
    DataUsedIs(d, g);
    RegionsCover(g);
    DeallocData(m, c, v[i]);
    DataUsedIs(c.view, g);
    FreedOneMore(d0, g, v, i, d, c.view);
  }

  lemma StillUsed(d0: Disk, g: Geometry, v: seq<U32>, i: nat, d: Disk)
    requires Sized(d0, g) && NoDup(v) && InArea(g, v) && i < |v| && Freed(d0, g, v, i, d)
    requires forall x :: x in v ==> x in UsedBlocks(d0, g)
    ensures |d| == |d0| && Start(g) <= v[i] < |d| && v[i] - Start(g) in DataUsed(d, g)
  {
    hide DataUsed;
    assert v[i] in v;
    assert v[i] !in v[..i];
    assert v[i] in UsedBlocks(d, g);
  }

  lemma FreedPending(d0: Disk, g: Geometry, k: nat, d: Disk, ino: Inode)
    requires FsInv(d0, g) && k in Live(d0, g) && ino.size == 0 && RootUnused(ino)
    requires var v := FileBlocks(d0, InodeOf(d0, g, k)); Freed(d0, g, v, |v|, d)
    ensures Pending(d0, g, k, d, ino) && FileSet(d, ino) == {} && BytesOf(d, ino) == []
  {
    hide InodeOf, DataUsed, Ownership, FreeIsZero, Files, NoDup;
    var v := FileBlocks(d0, InodeOf(d0, g, k));
    assert v[..|v|] == v;
    NoBlocks(d, g, ino);
  }

  lemma NoBlocks(d: Disk, g: Geometry, ino: Inode)
    requires g.Wf() && ino.size == 0 && RootUnused(ino)
    ensures FileBlocks(d, ino) == [] && FileSet(d, ino) == {} && BytesOf(d, ino) == [] && FileOk(d, g, ino)
  {
    assert FileBlocks(d, ino) == [];
  }

  lemma ClearedRoot(d: Disk, g: Geometry, k: nat)
    requires FsInv(d, g) && k in Live(d, g)
    ensures RootUnused(Cleared(InodeOf(d, g, k)))
  {
    hide InodeOf, Ownership, FreeIsZero, TailZero, NoDup;
    assert FileOk(d, g, InodeOf(d, g, k));
  }

  /** `Inode::clear`: the file is empty afterwards, the blocks it held are free and
      zero, and every other file is as before. */
  method Clear(m: BlockManager, h: Handle, c: BlockCacheManager, ghost g: Geometry, ghost k: nat)
    requires c.Valid() && |c.pins| <= BLOCK_CACHE_SIZE - 3
    requires FsInv(c.view, g) && m == g.Manager() && k in Live(c.view, g) && IsHandle(g, h, k)
    requires InodeOf(c.view, g, k).kind == File
    modifies c
    ensures c.Valid() && c.pins == old(c.pins) && c.device == c.view
    ensures FsInv(c.view, g) && Live(c.view, g) == Live(old(c.view), g)
    ensures UsedBlocks(c.view, g) == UsedBlocks(old(c.view), g) - Owners(old(c.view), g)[k]
    ensures Owners(c.view, g) == Owners(old(c.view), g)[k := {}]
    ensures Files(c.view, g) == Files(old(c.view), g)[k := Node(File, [])]
    ensures SameSuper(old(c.view), c.view)
  {
    hide SameSuper, BlockCacheManager.Valid, FsInv, Pending, InodeOf, BytesOf, DataUsed, LoadInode, StoreInode, Stored,
      UsedBlocks, Owners, Files, Owned, TotalFor, Freed, TailZero, NoDup;
    ghost var d0 := c.view;
    SizeBound(d0, g, k);
    var ino := OpenInode(h, c, g, k);
    BlockCountBound(ino.size);
    ghost var value := ino.Value();
    assert FileBlocks(d0, value) == Owned(d0, value, DataBlocks(value.size));
    var size := ino.size;
    var v := ino.ClearSize(c);
    assert |v| == TotalBlocks(size);  // the assertion of the original
    AllUsed(d0, g, k);
    FreeBlocks(m, v, c, g);
    ClearedRoot(d0, g, k);
    FreedPending(d0, g, k, c.view, ino.Value());
    PendingUsed(d0, g, k, c.view, ino.Value());
    CloseInode(h, ino, c, g, k, d0);
    c.SyncAll();
  }

  lemma AllUsed(d: Disk, g: Geometry, k: nat)
    requires FsInv(d, g) && k in Live(d, g)
    ensures forall x :: x in FileBlocks(d, InodeOf(d, g, k)) ==> x in UsedBlocks(d, g)
  {
    hide InodeOf, UsedBlocks, FileBlocks;
    assert Owners(d, g)[k] == FileSet(d, InodeOf(d, g, k));
  }

  /** Writing to an empty file and clearing it gives back exactly the blocks taken. */
  method WriteThenClear(m: BlockManager, h: Handle, offset: nat, buf: seq<Byte>, c: BlockCacheManager,
                        ghost g: Geometry, ghost k: nat)
    requires c.Valid() && |c.pins| <= BLOCK_CACHE_SIZE - 3
    requires FsInv(c.view, g) && m == g.Manager() && k in Live(c.view, g) && IsHandle(g, h, k)
    requires Files(c.view, g)[k] == Node(File, []) && InodeOf(c.view, g, k).kind == File
    requires 0 < |buf| && offset + |buf| <= MAX_SIZE
    requires RoomFor(c.view, g, InodeOf(c.view, g, k).size, offset + |buf|)
    modifies c
    ensures c.Valid() && FsInv(c.view, g) && UsedBlocks(c.view, g) == UsedBlocks(old(c.view), g)
    ensures Files(c.view, g) == Files(old(c.view), g)
  {
    hide BlockCacheManager.Valid, FsInv, InodeOf, DataUsed, UsedBlocks, RoomFor, WriteBytes, Owners, Files, Live;
    ghost var d0 := c.view;
    SizeBound(d0, g, k);
    EmptyOwnsNothing(d0, g, k);
    KindOf(d0, g, k);
    var n := WriteAt(m, h, offset, buf, c, g, k);
    ghost var d1 := c.view;
    SizeBound(d1, g, k);
    KindOf(d1, g, k);
    Clear(m, h, c, g, k);
    UpdateTwice(Owners(d0, g), k, Owners(d1, g)[k], {});
    UpdateTwice(Files(d0, g), k, Files(d1, g)[k], Node(File, []));
    OwnersDetermineUsed(d0, g, c.view);
  }

  lemma KindOf(d: Disk, g: Geometry, k: nat)
    requires Sized(d, g) && k in Live(d, g)
    ensures k in Files(d, g) && k in Owners(d, g) && Files(d, g)[k].kind == InodeOf(d, g, k).kind
  {
  }

  lemma UpdateTwice<V>(m: map<nat, V>, k: nat, v: V, w: V)
    requires k in m && m[k] == w
    ensures m[k := v][k := w] == m
  {
  }

  /** The data bitmap says nothing that the inodes do not say. */
  lemma OwnersDetermineUsed(d: Disk, g: Geometry, d2: Disk)
    requires FsInv(d, g) && FsInv(d2, g) && Owners(d, g) == Owners(d2, g)
    ensures UsedBlocks(d, g) == UsedBlocks(d2, g)
  {
    hide UsedBlocks, Owners;
    var own := Owners(d, g);
    forall x ensures x in UsedBlocks(d, g) <==> x in UsedBlocks(d2, g) {
      if x in UsedBlocks(d, g) {
        var j :| j in own && x in own[j];
        assert own[j] <= UsedBlocks(d2, g);
      }
      if x in UsedBlocks(d2, g) {
        var j :| j in own && x in own[j];
        assert own[j] <= UsedBlocks(d, g);
      }
    }
  }

  lemma EmptyOwnsNothing(d: Disk, g: Geometry, k: nat)
    requires FsInv(d, g) && k in Live(d, g) && Files(d, g)[k].bytes == []
    ensures Owners(d, g)[k] == {}
  {
    hide InodeOf;
    SizeBound(d, g, k);
    assert InodeOf(d, g, k).size == 0;
    assert FileBlocks(d, InodeOf(d, g, k)) == [];
  }
}
