/**
 * The invariant of a volume and its meaning as a map from inode to contents.
 *
 * `FsInv` is block ownership: the blocks of all inodes are pairwise distinct, lie
 * in the data area, are exactly the bits set in the data bitmap, every free block
 * is zero and so is every byte between the end of a file and its last block's end.
 * `Files` is what a user of the volume can observe.
 */
module FsState {
  import opened Basics
  import opened LittleEndian
  import opened BlockCacheLayer
  import opened BitmapLayer
  import opened Layout
  import opened FileData
  import opened Mfs

  ghost predicate Sized(d: Disk, g: Geometry) {
    g.Wf() && g.total <= |d|
  }

  function Start(g: Geometry): nat
    requires g.Wf()
  {
    g.Manager().dataAreaStart
  }

  function InodeBlock(g: Geometry, k: nat): nat
    requires g.Wf()
  {
    g.Manager().DiskInodePos(k).0
  }

  lemma Regions(d: Disk, g: Geometry)
    requires Sized(d, g)
    ensures g.Manager().inodeBitmap.InDisk(d) && g.Manager().dataBitmap.InDisk(d)
    ensures forall k :: 0 <= k < g.InodeCount() ==>
              g.Manager().inodeAreaStart <= InodeBlock(g, k) < g.Manager().dataBitmap.start <= Start(g) <= g.total
  {
    RegionsCover(g);
    forall k | 0 <= k < g.InodeCount()
      ensures g.Manager().inodeAreaStart <= InodeBlock(g, k) < g.Manager().dataBitmap.start <= Start(g) <= g.total
    {
      assert k / INODES_PER_BLOCK < g.InodeAreaBlocks();
    }
  }

  ghost function InodeOf(d: Disk, g: Geometry, k: nat): Inode
    requires Sized(d, g) && k < g.InodeCount()
  {
    Regions(d, g);
    LoadInode(d[InodeBlock(g, k)], k % INODES_PER_BLOCK)
  }

  /** The allocated inodes. */
  ghost function Live(d: Disk, g: Geometry): (s: set<nat>)
    requires Sized(d, g)
    ensures forall k :: k in s ==> k < g.InodeCount()
  {
    Regions(d, g);
    g.Manager().inodeBitmap.Used(d)
  }

  /** The data blocks in use, counted from the start of the data area. */
  ghost function DataUsed(d: Disk, g: Geometry): set<nat>
    requires Sized(d, g)
  {
    Regions(d, g);
    g.Manager().dataBitmap.Used(d)
  }

  /** The same blocks, numbered from the start of the disk. */
  ghost function UsedBlocks(d: Disk, g: Geometry): (r: set<nat>)
    requires Sized(d, g)
    ensures forall b :: b in r <==> b >= Start(g) && b - Start(g) in DataUsed(d, g)
  {
    set x | x in DataUsed(d, g) :: x + Start(g)
  }

  /** Every block an inode holds, data and index. */
  ghost function FileBlocks(d: Disk, ino: Inode): seq<U32> {
    if ino.size <= MAX_SIZE then
      BlockCountBound(ino.size);
      Owned(d, ino, DataBlocks(ino.size))
    else []
  }

  ghost function FileSet(d: Disk, ino: Inode): (r: set<nat>)
    ensures forall x :: x in r <==> x in FileBlocks(d, ino)
  {
    set x: nat | x in FileBlocks(d, ino)
  }

  ghost function BytesOf(d: Disk, ino: Inode): seq<Byte> {
    if ino.size <= MAX_SIZE then Content(d, ino) else []
  }

  ghost predicate InArea(g: Geometry, s: seq<U32>)
    requires g.Wf()
  {
    forall x :: x in s ==> Start(g) <= x < g.total
  }

  /** A file of at most 27 blocks has never been given an index block, or has lost it. */
  ghost predicate RootUnused(ino: Inode) {
    DataBlocks(ino.size) <= INODE_DIRECT_COUNT ==> ino.indirect1 == 0
  }

  ghost predicate FileOk(d: Disk, g: Geometry, ino: Inode)
    requires g.Wf()
  {
    && ino.size <= MAX_SIZE
    && NoDup(FileBlocks(d, ino))
    && InArea(g, FileBlocks(d, ino))
    && TailZero(d, ino) && RootUnused(ino)
  }

  /** Which inode holds which blocks. */
  ghost function Owners(d: Disk, g: Geometry): (m: map<nat, set<nat>>)
    requires Sized(d, g)
  {
    map k | k in Live(d, g) :: FileSet(d, InodeOf(d, g, k))
  }

  /** No block is held by two inodes, and the blocks held are exactly the ones marked
      used: nothing is shared and nothing leaks. */
  ghost predicate Ownership(own: map<nat, set<nat>>, used: set<nat>) {
    && (forall j, k :: j in own && k in own && j != k ==> own[j] !! own[k])
    && (forall k :: k in own ==> own[k] <= used)
    && (forall x :: x in used ==> exists k :: k in own && x in own[k])
  }

  ghost predicate FsInv(d: Disk, g: Geometry) {
    && Sized(d, g)
    && (forall k :: k in Live(d, g) ==> FileOk(d, g, InodeOf(d, g, k)))
    && Ownership(Owners(d, g), UsedBlocks(d, g))
    && FreeIsZero(d, g)
  }

  ghost predicate FreeIsZero(d: Disk, g: Geometry)
    requires Sized(d, g)
  {
    forall b :: Start(g) <= b < g.total && b !in UsedBlocks(d, g) ==> d[b] == ZeroBlock()
  }

  /** Inode `k` gives up what it holds for `after`, taking only blocks that were free. */
  lemma OwnershipUpdate(own: map<nat, set<nat>>, used: set<nat>, k: nat, after: set<nat>)
    requires Ownership(own, used) && k in own
    requires forall x :: x in after ==> x in own[k] || x !in used
    ensures Ownership(own[k := after], used - own[k] + after)
    ensures forall j :: j in own && j != k ==> own[j] !! after
  {
    var own2, used2 := own[k := after], used - own[k] + after;
    forall x | x in used2 ensures exists j :: j in own2 && x in own2[j] {
      if x in after {
        assert x in own2[k];
      } else {
        var j :| j in own && x in own[j];
        assert x in own2[j];
      }
    }
  }

  // ---- What a user sees ----

  datatype Node = Node(kind: InodeKind, bytes: seq<Byte>)

  ghost function Files(d: Disk, g: Geometry): map<nat, Node>
    requires Sized(d, g)
  {
    map k | k in Live(d, g) :: Node(InodeOf(d, g, k).kind, BytesOf(d, InodeOf(d, g, k)))
  }

  // ---- Frames ----

  /** A file is determined by its inode and its own blocks. */
  lemma FileFrame(d: Disk, d2: Disk, g: Geometry, ino: Inode)
    requires g.Wf() && g.total <= |d| == |d2| && FileOk(d, g, ino)
    requires forall b :: b in FileBlocks(d, ino) && b < |d| ==> d2[b] == d[b]
    ensures FileBlocks(d2, ino) == FileBlocks(d, ino)
    ensures BytesOf(d2, ino) == BytesOf(d, ino)
    ensures FileOk(d2, g, ino)
  {
    hide Owned, BlockId, NoDup;
    var n := DataBlocks(ino.size);
    BlockCountBound(ino.size);
    forall b | 0 <= b < |d| && IsNode(d, ino, n, b) ensures d2[b] == d[b] {
      var i, j := NodeHome(d, ino, n, b);
      OwnedAt(d, ino, n, i, j);
      assert b in FileBlocks(d, ino);
    }
    OwnedFrame(d, d2, ino, n);
    forall p | 0 <= p < BLOCK_SZ * n ensures ByteAt(d2, ino, p) == ByteAt(d, ino, p) {
      BlockIdOwned(d, ino, n, p / BLOCK_SZ);
    }
  }

  /** Work on inode `k` that has not been stored yet: starting from `d0`, the disk is
      now `d` and the inode is to become `ino`. */
  ghost predicate Pending(d0: Disk, g: Geometry, k: nat, d: Disk, ino: Inode)
    requires Sized(d0, g) && k < g.InodeCount()
  {
    var before, after := FileSet(d0, InodeOf(d0, g, k)), FileSet(d, ino);
    && |d| == |d0|
    && FileOk(d, g, ino)
    && (forall x :: x in after ==> x in before || x !in UsedBlocks(d0, g))
    && UsedBlocks(d, g) == UsedBlocks(d0, g) - before + after
    && (forall b :: 0 <= b < |d| && b !in before && b !in after && !InDataBitmap(g, b) ==> d[b] == d0[b])
    && (forall b :: b in before && b !in after && b < |d| ==> d[b] == ZeroBlock())
  }

  ghost predicate InDataBitmap(g: Geometry, b: nat)
    requires g.Wf()
  {
    g.Manager().dataBitmap.start <= b < Start(g)
  }

  /** Disk `d` with inode `k` stored. */
  ghost function Stored(d: Disk, g: Geometry, k: nat, ino: Inode): (r: Disk)
    requires Sized(d, g) && k < g.InodeCount()
    ensures |r| == |d|
  {
    Regions(d, g);
    d[InodeBlock(g, k) := StoreInode(d[InodeBlock(g, k)], k % INODES_PER_BLOCK, ino)]
  }

  lemma StoredInodes(d0: Disk, g: Geometry, k: nat, d: Disk, ino: Inode, j: nat)
    requires Sized(d0, g) && |d| == |d0| && k < g.InodeCount() && j < g.InodeCount()
    requires forall b :: g.Manager().inodeAreaStart <= b < g.Manager().dataBitmap.start ==> d[b] == d0[b]
    ensures InodeOf(Stored(d, g, k, ino), g, j) == if j == k then ino else InodeOf(d0, g, j)
  {
    hide LoadInode, StoreInode;
    Regions(d, g);
    var slot := k % INODES_PER_BLOCK;
    if j == k {
      LoadStore(d[InodeBlock(g, k)], slot, ino);
    } else if InodeBlock(g, j) == InodeBlock(g, k) {
      assert j % INODES_PER_BLOCK != slot;
      LoadOther(d[InodeBlock(g, k)], slot, ino, j % INODES_PER_BLOCK);
    }
  }

  /** Storing an inode leaves both bitmaps and every data block alone. */
  lemma StoredFrame(d: Disk, g: Geometry, k: nat, ino: Inode)
    requires Sized(d, g) && k < g.InodeCount()
    ensures UsedBlocks(Stored(d, g, k, ino), g) == UsedBlocks(d, g)
    ensures Live(Stored(d, g, k, ino), g) == Live(d, g)
    ensures forall b :: Start(g) <= b < |d| ==> Stored(d, g, k, ino)[b] == d[b]
  {
    Regions(d, g);
    UsedFrame(g.Manager().dataBitmap, d, Stored(d, g, k, ino));
    UsedFrame(g.Manager().inodeBitmap, d, Stored(d, g, k, ino));
  }

  lemma PendingKeepsTables(d0: Disk, g: Geometry, k: nat, d: Disk, ino: Inode)
    requires FsInv(d0, g) && k in Live(d0, g) && Pending(d0, g, k, d, ino)
    ensures Live(d, g) == Live(d0, g)
    ensures forall b :: 0 <= b < g.Manager().dataBitmap.start ==> d[b] == d0[b]
  {
    hide LoadInode, FileBlocks;
    Regions(d0, g);
    assert FileOk(d0, g, InodeOf(d0, g, k));
    forall b | 0 <= b < g.Manager().dataBitmap.start ensures d[b] == d0[b] {
      RegionsCover(g);
    }
    UsedFrame(g.Manager().inodeBitmap, d0, d);
  }

  /** The other files are out of reach of work on inode `k`. */
  lemma OthersUntouched(d0: Disk, g: Geometry, k: nat, d: Disk, ino: Inode, j: nat)
    requires FsInv(d0, g) && k in Live(d0, g) && j in Live(d0, g) && j != k && Pending(d0, g, k, d, ino)
    ensures var other := InodeOf(d0, g, j);
            && FileOk(d, g, other)
            && FileBlocks(d, other) == FileBlocks(d0, other)
            && BytesOf(d, other) == BytesOf(d0, other)
  {
    hide InodeOf, FileBlocks, BytesOf, FreeIsZero, NoDup, TailZero;
    var other := InodeOf(d0, g, j);
    Regions(d0, g);
    assert FileOk(d0, g, other);
    assert Owners(d0, g)[j] == FileSet(d0, other) && Owners(d0, g)[k] == FileSet(d0, InodeOf(d0, g, k));
    forall b | b in FileBlocks(d0, other) ensures b < |d| && d[b] == d0[b] {
      assert b in Owners(d0, g)[j];
    }
    FileFrame(d0, d, g, other);
  }

  /** Storing the inode completes the work: the invariant holds again and exactly one
      file has changed. */
  lemma Commit(d0: Disk, g: Geometry, k: nat, d: Disk, ino: Inode)
    requires FsInv(d0, g) && k in Live(d0, g) && Pending(d0, g, k, d, ino)
    ensures FsInv(Stored(d, g, k, ino), g)
    ensures Live(Stored(d, g, k, ino), g) == Live(d0, g)
    ensures InodeOf(Stored(d, g, k, ino), g, k) == ino
    ensures UsedBlocks(Stored(d, g, k, ino), g) == UsedBlocks(d, g)
    ensures Owners(Stored(d, g, k, ino), g) == Owners(d0, g)[k := FileSet(d, ino)]
    ensures Files(Stored(d, g, k, ino), g) == Files(d0, g)[k := Node(ino.kind, BytesOf(d, ino))]
  {
    hide InodeOf, FileBlocks, BytesOf, Ownership, FreeIsZero, FileOk, Stored, Pending, Live, UsedBlocks, DataUsed;
    assert FileOk(d, g, ino) && |d| == |d0| by { PendingFileOk(d0, g, k, d, ino); }
    var d2 := Stored(d, g, k, ino);
    PendingKeepsTables(d0, g, k, d, ino);
    StoredFrame(d, g, k, ino);
    Regions(d, g);
    forall j | j in Live(d0, g) && j != k
      ensures InodeOf(d2, g, j) == InodeOf(d0, g, j)
      ensures FileOk(d2, g, InodeOf(d0, g, j))
      ensures FileBlocks(d2, InodeOf(d0, g, j)) == FileBlocks(d0, InodeOf(d0, g, j))
      ensures BytesOf(d2, InodeOf(d0, g, j)) == BytesOf(d0, InodeOf(d0, g, j))
    {
      StoredInodes(d0, g, k, d, ino, j);
      OthersUntouched(d0, g, k, d, ino, j);
      StoredFile(d, g, k, ino, InodeOf(d0, g, j));
    }
    StoredInodes(d0, g, k, d, ino, k);
    StoredFile(d, g, k, ino, ino);
    PendingOwnership(d0, g, k, d, ino);
    assert Owners(d2, g) == Owners(d0, g)[k := FileSet(d, ino)];
    PendingZero(d0, g, k, d, ino, d2);
  }

  lemma StoredFile(d: Disk, g: Geometry, k: nat, ino: Inode, file: Inode)
    requires Sized(d, g) && k < g.InodeCount() && FileOk(d, g, file)
    ensures FileOk(Stored(d, g, k, ino), g, file)
    ensures FileBlocks(Stored(d, g, k, ino), file) == FileBlocks(d, file)
    ensures BytesOf(Stored(d, g, k, ino), file) == BytesOf(d, file)
  {
    hide FileBlocks, BytesOf, Stored, Live, DataUsed;
    StoredFrame(d, g, k, ino);
    FileFrame(d, Stored(d, g, k, ino), g, file);
  }

  lemma PendingFileOk(d0: Disk, g: Geometry, k: nat, d: Disk, ino: Inode)
    requires Sized(d0, g) && k < g.InodeCount() && Pending(d0, g, k, d, ino)
    ensures FileOk(d, g, ino) && |d| == |d0|
  {
  }

  lemma PendingOwnership(d0: Disk, g: Geometry, k: nat, d: Disk, ino: Inode)
    requires FsInv(d0, g) && k in Live(d0, g) && Pending(d0, g, k, d, ino)
    ensures Ownership(Owners(d0, g)[k := FileSet(d, ino)], UsedBlocks(d, g))
  {
    hide Ownership, InodeOf, FileSet, FileOk, FreeIsZero;
    OwnershipUpdate(Owners(d0, g), UsedBlocks(d0, g), k, FileSet(d, ino));
  }

  lemma PendingZero(d0: Disk, g: Geometry, k: nat, d: Disk, ino: Inode, d2: Disk)
    requires FsInv(d0, g) && k in Live(d0, g) && Pending(d0, g, k, d, ino)
    requires Sized(d2, g) && UsedBlocks(d2, g) == UsedBlocks(d, g)
    requires |d2| == |d| && forall b :: Start(g) <= b < |d| ==> d2[b] == d[b]
    ensures FreeIsZero(d2, g)
  {
    hide FileBlocks, Ownership, InodeOf, Owners, FileOk;
    Regions(d0, g);
  }

  // ---- Counting ----

  lemma {:induction false} DistinctCard(s: seq<U32>) returns (r: set<nat>)
    requires NoDup(s)
    ensures r == (set x: nat | x in s) && |r| == |s|
  {
    if s == [] {
      r := {};
    } else {
      var last := s[|s| - 1];
      assert s == s[..|s| - 1] + [last];
      var t := DistinctCard(s[..|s| - 1]);
      assert last !in s[..|s| - 1];
      r := t + {last as nat};
    }
  }

  lemma {:induction false} ShiftCard(a: set<nat>, b: set<nat>, start: nat)
    requires forall x :: x in b <==> x >= start && x - start in a
    ensures |a| == |b|
    decreases a
  {
    if a == {} {
      assert b == {};
    } else {
      var x :| x in a;
      assert x + start in b;
      ShiftCard(a - {x}, b - {x + start}, start);
    }
  }
}
