/**
 * Where the file system stops being one: the last block, and the empty write.
 *
 * Bits of the data bitmap past the data area are not reserved, and nothing looks at how
 * many blocks are left.  `Vfs.AllocBlocks` says exactly when that goes well; here are the
 * volume where it does not, and the write that addresses a block the file does not have.
 */
module FsLimits {
  import opened Basics
  import opened BlockCacheLayer
  import opened BitmapLayer
  import opened Layout
  import opened Mfs
  import opened FsState
  import opened Vfs
  import opened Format

  /** On a volume whose data area is in use to the last block, the lowest clear bit stands
      for the block just past the end. */
  lemma FullVolume(d: Disk, g: Geometry, bit: nat)
    requires FsInv(d, g) && |DataUsed(d, g)| == g.DataAreaBlocks() && LowestClear(DataUsed(d, g), bit)
    ensures Start(g) + bit == g.total
  {
    hide FsInv, DataUsed, Range, Start;
    VolumeSized(d, g);
    AreaEnds(d, g);
    UsedInArea(d, g);
    var n := g.DataAreaBlocks();
    assert DataUsed(d, g) <= Range(0, n);
    SubsetCard(DataUsed(d, g), Range(0, n));
    assert DataUsed(d, g) == Range(0, n);
    assert bit !in Range(0, n) && n !in DataUsed(d, g);
  }

  /** A volume of 1027 blocks with one block for the inode bitmap has no data area at all:
      the first block it hands out is number 1027, the first one it does not have. */
  method FirstBlockEscapes(c: BlockCacheManager) returns (found: bool, id: nat)
    requires c.Valid() && c.pins == multiset{} && 1027 <= |c.view|
    modifies c
    ensures found && id == 1027 == Geometry(1027, 1).total
  {
    hide BlockCacheManager.Valid, FsInv, Bitmap.Used, Bitmap.IsSet, DataUsed;
    ghost var g := Geometry(1027, 1);
    var m := Create(1027, 1, c);
    ghost var d := c.view;
    VolumeSized(d, g);
    AreaEnds(d, g);
    UsedInArea(d, g);
    assert DataUsed(d, g) == {};
    DataUsedIs(d, g);
    assert 0 < m.dataBitmap.Maximum() && 0 !in m.dataBitmap.Used(d);
    found, id := AllocData(m, c);
  }

  /** The write loop of an empty buffer addresses block `offset / 512` all the same. */
  lemma EmptyWriteAddresses(offset: nat, size: nat)
    ensures offset / BLOCK_SZ < DataBlocks(Max(size, offset)) <==> offset < size || offset % BLOCK_SZ != 0
  {
    InLastBlock(offset, 0, size, Max(size, offset));
  }

  /** An empty write at the end of any file of exactly 27 blocks: the loop looks for block 27
      through an index block the file does not have, reads the first word of block 0, and
      takes the magic number for the number of a block. */
  lemma EmptyWriteEscapes(d: Disk, b: Block, g: Geometry, k: nat)
    requires FsInv(d, g) && k in Live(d, g) && |d| > 0 && d[0] == SuperBlock(b, g)
    requires InodeOf(d, g, k).size == 13824
    ensures DataBlocks(13824) == 27 == 13824 / BLOCK_SZ
    ensures BlockId(d, InodeOf(d, g, k), 27) == MFS_MAGIC
    ensures |d| <= MFS_MAGIC ==> BlockId(d, InodeOf(d, g, k), 27) >= |d|
  {
    hide InodeOf, Ownership, FreeIsZero, NoDup;
    assert FileOk(d, g, InodeOf(d, g, k));
    assert U32At(SuperBlock(b, g), 0) == MFS_MAGIC;
  }
}
