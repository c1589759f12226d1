/**
 * Bringing inodes into being: formatting a volume, and allocating an inode on it.
 */
module Format {
  import opened Basics
  import opened BlockCacheLayer
  import opened BitmapLayer
  import opened Layout
  import opened Mfs
  import opened FsState
  import opened Vfs

  function EmptyInode(kind: InodeKind): Inode {
    InodeRec(0, seq(27, i => 0), 0, 0, 0, kind)
  }

  lemma EmptyFile(d: Disk, g: Geometry, kind: InodeKind)
    requires g.Wf()
    ensures FileOk(d, g, EmptyInode(kind))
    ensures FileSet(d, EmptyInode(kind)) == {} && BytesOf(d, EmptyInode(kind)) == []
  {
    assert FileBlocks(d, EmptyInode(kind)) == [];
  }

  /** Only the inode bitmap differs, by the new inode `id`. */
  ghost predicate InodeTaken(d0: Disk, g: Geometry, d1: Disk, id: nat)
    requires Sized(d0, g)
  {
    && |d1| == |d0| && id < g.InodeCount() && id !in Live(d0, g)
    && Live(d1, g) == Live(d0, g) + {id}
    && var bm := g.Manager().inodeBitmap; SameOutside(d0, d1, bm.start, bm.start + bm.blocks)
  }

  lemma TakenFiles(d0: Disk, g: Geometry, d1: Disk, id: nat, j: nat)
    requires FsInv(d0, g) && InodeTaken(d0, g, d1, id) && j in Live(d0, g)
    ensures InodeOf(d1, g, j) == InodeOf(d0, g, j) && FileOk(d1, g, InodeOf(d0, g, j))
    ensures FileSet(d1, InodeOf(d0, g, j)) == FileSet(d0, InodeOf(d0, g, j))
    ensures BytesOf(d1, InodeOf(d0, g, j)) == BytesOf(d0, InodeOf(d0, g, j))
  {
    hide LoadInode, FileBlocks, BytesOf, Owners, UsedBlocks;
    Regions(d0, g);
    assert FileOk(d0, g, InodeOf(d0, g, j));
    FileFrame(d0, d1, g, InodeOf(d0, g, j));
  }

  /** A new, empty inode: every other file, and every data block, is as before. */
  lemma AddInode(d0: Disk, g: Geometry, d1: Disk, id: nat, kind: InodeKind)
    requires FsInv(d0, g) && InodeTaken(d0, g, d1, id)
    ensures FsInv(Stored(d1, g, id, EmptyInode(kind)), g)
    ensures Live(Stored(d1, g, id, EmptyInode(kind)), g) == Live(d0, g) + {id}
    ensures forall j :: j in Live(d0, g) ==> InodeOf(Stored(d1, g, id, EmptyInode(kind)), g, j) == InodeOf(d0, g, j)
    ensures DataUsed(Stored(d1, g, id, EmptyInode(kind)), g) == DataUsed(d0, g)
    ensures Files(Stored(d1, g, id, EmptyInode(kind)), g) == Files(d0, g)[id := Node(kind, [])]
  {
    hide InodeOf, FileBlocks, BytesOf, Ownership, FreeIsZero, FileOk, Stored, Live, UsedBlocks, DataUsed, FileSet,
      InodeTaken;
    TakenSameSize(d0, g, d1, id);
    var e := EmptyInode(kind);
    var d2 := Stored(d1, g, id, e);
    StoredFrame(d1, g, id, e);
    forall j | j in Live(d0, g)
      ensures InodeOf(d2, g, j) == InodeOf(d0, g, j) && FileOk(d2, g, InodeOf(d0, g, j))
      ensures FileSet(d2, InodeOf(d0, g, j)) == FileSet(d0, InodeOf(d0, g, j))
      ensures BytesOf(d2, InodeOf(d0, g, j)) == BytesOf(d0, InodeOf(d0, g, j))
    {
      TakenFiles(d0, g, d1, id, j);
      StoredInodes(d1, g, id, d1, e, j);
      StoredFile(d1, g, id, e, InodeOf(d0, g, j));
      SameFileSet(d1, d2, InodeOf(d0, g, j));
    }
    StoredInodes(d1, g, id, d1, e, id);
    EmptyFile(d2, g, kind);
    NewOwnership(Owners(d0, g), UsedBlocks(d0, g), id);
    assert Owners(d2, g) == Owners(d0, g)[id := {}];
    UsedSame(d0, g, d1, id, d2);
  }

  lemma TakenSameSize(d0: Disk, g: Geometry, d1: Disk, id: nat)
    requires Sized(d0, g) && InodeTaken(d0, g, d1, id)
    ensures Sized(d1, g) && |d1| == |d0| && id < g.InodeCount() && id !in Live(d0, g)
    ensures Live(d1, g) == Live(d0, g) + {id}
  {
  }

  lemma SameFileSet(d: Disk, d2: Disk, ino: Inode)
    requires FileBlocks(d2, ino) == FileBlocks(d, ino)
    ensures FileSet(d2, ino) == FileSet(d, ino)
  {
  }

  lemma NewOwnership(own: map<nat, set<nat>>, used: set<nat>, id: nat)
    requires Ownership(own, used) && id !in own
    ensures Ownership(own[id := {}], used)
  {
    var own2 := own[id := {}];
    forall x | x in used ensures exists k :: k in own2 && x in own2[k] {
      var k :| k in own && x in own[k];
      assert x in own2[k];
    }
  }

  lemma UsedSame(d0: Disk, g: Geometry, d1: Disk, id: nat, d2: Disk)
    requires FsInv(d0, g) && InodeTaken(d0, g, d1, id)
    requires Sized(d2, g) && |d2| == |d1| && UsedBlocks(d2, g) == UsedBlocks(d1, g)
    requires forall b :: Start(g) <= b < |d1| ==> d2[b] == d1[b]
    ensures UsedBlocks(d2, g) == UsedBlocks(d0, g) && DataUsed(d2, g) == DataUsed(d0, g)
    ensures FreeIsZero(d2, g)
  {
    hide Owners, Live, FileOk, Bitmap.Maximum, Bitmap.IsSet;
    Regions(d0, g);
    RegionsCover(g);
    UsedFrame(g.Manager().dataBitmap, d0, d1);
    forall x ensures x in DataUsed(d2, g) <==> x in DataUsed(d0, g) {
      assert x in DataUsed(d2, g) <==> x >= 0 && x + Start(g) in UsedBlocks(d2, g);
      assert x in DataUsed(d0, g) <==> x >= 0 && x + Start(g) in UsedBlocks(d0, g);
    }
  }

  lemma NowTaken(d0: Disk, g: Geometry, d1: Disk, id: nat)
    requires Sized(d0, g) && |d1| == |d0| && id < g.Manager().inodeBitmap.Maximum() && LowestClear(Live(d0, g), id)
    requires Live(d1, g) == Live(d0, g) + {id}
    requires var bm := g.Manager().inodeBitmap; SameOutside(d0, d1, bm.start, bm.start + bm.blocks)
    ensures InodeTaken(d0, g, d1, id)
  {
  }

  /** Takes the lowest free inode and initialises it. */
  method NewInode(m: BlockManager, kind: InodeKind, c: BlockCacheManager, ghost g: Geometry)
    returns (id: nat, h: Handle)
    requires c.Valid() && |c.pins| < BLOCK_CACHE_SIZE
    requires FsInv(c.view, g) && m == g.Manager() && |Live(c.view, g)| < g.InodeCount()
    modifies c
    ensures c.Valid() && c.pins == old(c.pins)
    ensures |c.view| == old(|c.view|) > 0 && c.view[0] == old(c.view)[0]
    ensures FsInv(c.view, g) && IsHandle(g, h, id)
    ensures LowestClear(Live(old(c.view), g), id)
    ensures Live(c.view, g) == Live(old(c.view), g) + {id}
    ensures forall j :: j in Live(old(c.view), g) ==> InodeOf(c.view, g, j) == InodeOf(old(c.view), g, j)
    ensures DataUsed(c.view, g) == DataUsed(old(c.view), g)
    ensures Files(c.view, g) == Files(old(c.view), g)[id := Node(kind, [])]
  {
    hide BlockCacheManager.Valid, FsInv, InodeOf, Files, LoadInode, StoreInode, Stored, Bitmap.Used,
      Bitmap.Maximum, Bitmap.IsSet, DataUsed, Geometry.DataAreaBlocks;
    ghost var d0 := c.view;
    InodeAvailable(d0, g);
    var found;
    found, id := AllocInode(m, c);
    ghost var d1 := c.view;
    NowTaken(d0, g, d1, id);
    AddInode(d0, g, d1, id, kind);
    h := InitInode(m, id, kind, c, g);
    assert c.view[0] == d0[0] by { StoredKeepsSuper(d0, g, d1, id, EmptyInode(kind)); }
  }

  lemma StoredKeepsSuper(d0: Disk, g: Geometry, d1: Disk, id: nat, ino: Inode)
    requires Sized(d0, g) && InodeTaken(d0, g, d1, id)
    ensures |d0| > 0 && Stored(d1, g, id, ino)[0] == d0[0]
  {
    Regions(d1, g);
    RegionsCover(g);
  }

  /** `new_inode.initialize(inode_type)` in the slot of inode `id`. */
  method InitInode(m: BlockManager, id: nat, kind: InodeKind, c: BlockCacheManager, ghost g: Geometry)
    returns (h: Handle)
    requires c.Valid() && |c.pins| < BLOCK_CACHE_SIZE
    requires Sized(c.view, g) && m == g.Manager() && id < g.InodeCount()
    modifies c
    ensures c.Valid() && c.pins == old(c.pins) && IsHandle(g, h, id)
    ensures c.view == Stored(old(c.view), g, id, EmptyInode(kind))
  {
    hide BlockCacheManager.Valid, StoreInode;
    Regions(c.view, g);
    var (blockId, offset) := m.DiskInodePos(id);
    h := Handle(blockId, offset);
    SlotOf(id);
    c.Acquire(blockId);
    var b := c.Read(blockId);
    c.Modify(blockId, StoreInode(b, offset / INODE_SIZE, EmptyInode(kind)));
    c.Release(blockId);
  }

  lemma InodeAvailable(d: Disk, g: Geometry)
    requires FsInv(d, g) && |Live(d, g)| < g.InodeCount()
    ensures Sized(d, g) && g.Manager().inodeBitmap.InDisk(d) && !Exhausted(g.Manager().inodeBitmap, d)
  {
    Regions(d, g);
    RegionsCover(g);
    var bm := g.Manager().inodeBitmap;
    if Exhausted(bm, d) {
      SubsetCard(Range(0, bm.Maximum()), bm.Used(d));
    }
  }

  // ---- Formatting ----

  ghost predicate Blank(d: Disk, g: Geometry) {
    g.Wf() && g.total <= |d| && forall b :: 0 < b < g.total ==> d[b] == ZeroBlock()
  }

  /** A zeroed volume satisfies the invariant with no inode at all. */
  lemma BlankInv(d: Disk, g: Geometry)
    requires Blank(d, g)
    ensures FsInv(d, g) && Live(d, g) == {} && Files(d, g) == map[]
  {
    hide Live, UsedBlocks, DataUsed, ZeroBlock, Blank;
    BlankBits(d, g);
    NoFiles(d, g);
  }

  lemma BlankBits(d: Disk, g: Geometry)
    requires Blank(d, g)
    ensures Sized(d, g) && Live(d, g) == {} && UsedBlocks(d, g) == {} && FreeIsZero(d, g)
  {
    hide ZeroBlock, Bitmap.Used, Bitmap.IsSet, Bitmap.Maximum;
    Regions(d, g);
    RegionsCover(g);
    NoBits(g.Manager().inodeBitmap, d);
    NoBits(g.Manager().dataBitmap, d);
  }

  lemma NoFiles(d: Disk, g: Geometry)
    requires Sized(d, g) && Live(d, g) == {} && UsedBlocks(d, g) == {} && FreeIsZero(d, g)
    ensures FsInv(d, g) && Files(d, g) == map[]
  {
    hide Live, UsedBlocks, FreeIsZero, InodeOf, FileSet, BytesOf, FileOk;
    assert Owners(d, g) == map[];
  }

  lemma NoBits(bm: Bitmap, d: Disk)
    requires bm.InDisk(d) && forall b :: bm.start <= b < bm.start + bm.blocks ==> d[b] == ZeroBlock()
    ensures bm.Used(d) == {}
  {
    forall bit: nat | bit < bm.Maximum() ensures !bm.IsSet(d, bit) {
      ZeroBlockBits(bit % BLOCK_BITS);
      assert d[bm.start + bit / BLOCK_BITS] == ZeroBlock();
    }
  }

  method ZeroAll(total: nat, c: BlockCacheManager)
    requires c.Valid() && |c.pins| < BLOCK_CACHE_SIZE && total <= |c.view|
    modifies c
    ensures c.Valid() && c.pins == old(c.pins) && |c.view| == old(|c.view|)
    ensures forall b :: 0 <= b < total ==> c.view[b] == ZeroBlock()
  {
    hide BlockCacheManager.Valid;
    var i := 0;
    while i < total
      invariant 0 <= i <= total
      invariant c.Valid() && c.pins == old(c.pins) && |c.view| == old(|c.view|)
      invariant forall b :: 0 <= b < i ==> c.view[b] == ZeroBlock()
    {
      c.WriteBlock(i, ZeroBlock());
      i := i + 1;
    }
  }

  /** `BlockManager::create`: whatever the device held, the volume is now a valid one
      whose only inode is an empty root directory, and `open` finds this layout. */
  method Create(total: nat, inodeBitmapBlocks: nat, c: BlockCacheManager) returns (m: BlockManager)
    requires c.Valid() && |c.pins| < BLOCK_CACHE_SIZE
    requires Geometry(total, inodeBitmapBlocks).Wf() && total <= |c.view|
    modifies c
    ensures c.Valid() && c.pins == old(c.pins) && c.device == c.view
    ensures var g := Geometry(total, inodeBitmapBlocks);
            && m == g.Manager()
            && FsInv(c.view, g)
            && Files(c.view, g) == map[0 := Node(Dir, [])]
            && OpenSuper(c.view[0]) == Opened(m)
  {
    hide BlockCacheManager.Valid, FsInv, Files, InodeOf, Bitmap.Used, Bitmap.Maximum, Bitmap.IsSet, OpenSuper,
      SuperBlock, Blank;
    ghost var g := Geometry(total, inodeBitmapBlocks);
    m := Geometry(total, inodeBitmapBlocks).Manager();
    ZeroAll(total, c);
    var b := c.ReadBlock(0);
    var super := SuperBlock(b, Geometry(total, inodeBitmapBlocks));
    c.WriteBlock(0, super);
    OpenAfterCreate(b, g);
    assert Blank(c.view, g) by { BlankNow(c.view, g); }
    BlankInv(c.view, g);
    ghost var d1 := c.view;
    var id, h := NewRoot(m, c, g);
    c.SyncAll();
  }

  lemma BlankNow(d: Disk, g: Geometry)
    requires g.Wf() && g.total <= |d| && forall b :: 0 < b < g.total ==> d[b] == ZeroBlock()
    ensures Blank(d, g)
  {
  }

  lemma LowestOfNone(id: nat)
    requires LowestClear({}, id)
    ensures id == 0
  {
    var none: set<nat> := {};
    assert forall i :: 0 <= i < id ==> i in none;
    assert !(0 in none);
  }

  /** The first inode of an empty table is inode 0. */
  method NewRoot(m: BlockManager, c: BlockCacheManager, ghost g: Geometry) returns (id: nat, h: Handle)
    requires c.Valid() && |c.pins| < BLOCK_CACHE_SIZE
    requires FsInv(c.view, g) && Sized(c.view, g) && m == g.Manager()
    requires Live(c.view, g) == {} && Files(c.view, g) == map[]
    modifies c
    ensures c.Valid() && c.pins == old(c.pins)
    ensures FsInv(c.view, g) && id == 0 && IsHandle(g, h, 0)
    ensures Files(c.view, g) == map[0 := Node(Dir, [])]
    ensures |c.view| == old(|c.view|) > 0 && c.view[0] == old(c.view)[0]
  {
    hide BlockCacheManager.Valid, FsInv, InodeOf, Files, Bitmap.Used, Live, DataUsed;
    id, h := NewInode(m, Dir, c, g);
    assert id == 0 by { LowestOfNone(id); }
  }
}
