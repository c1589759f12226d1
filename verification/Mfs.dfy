/**
 * The on-disk regions of a volume, the inode table, and the block manager.
 */
module Mfs {
  import opened LittleEndian
  import opened BlockCacheLayer
  import opened BitmapLayer
  import opened Layout

  const MFS_MAGIC: U32 := 0x3b80_0001
  const INODE_SIZE := 128
  const INODES_PER_BLOCK := 4

  // ---- Inodes in their blocks ----

  /** Consecutive little-endian u32 words. */
  function EncodeWords(ws: seq<U32>): (s: seq<Byte>)
    ensures |s| == 4 * |ws|
  {
    if ws == [] then [] else Encode(ws[0], 4) + EncodeWords(ws[1..])
  }

  lemma {:induction false} EncodeWordsAt(ws: seq<U32>, j: nat)
    requires j < |ws|
    ensures EncodeWords(ws)[4 * j..4 * j + 4] == Encode(ws[j], 4)
  {
    if j > 0 {
      EncodeWordsAt(ws[1..], j - 1);
      assert EncodeWords(ws)[4 * j..4 * j + 4] == EncodeWords(ws[1..])[4 * (j - 1)..4 * (j - 1) + 4];
    }
  }

  function InodeWords(ino: Inode): (ws: seq<U32>)
    ensures |ws| == 31
  {
    [ino.size] + ino.direct + [ino.indirect1, ino.indirect2, ino.indirect3]
  }

  function WordsAt(b: Block, slot: nat): (ws: seq<U32>)
    requires slot < INODES_PER_BLOCK
    ensures |ws| == 31
  {
    seq<U32>(31, (i: nat) requires i < 31 => U32At(b, 32 * slot + i))
  }

  function InodeOfWords(ws: seq<U32>, kind: InodeKind): Inode
    requires |ws| == 31
  {
    InodeRec(ws[0], ws[1..28], ws[28], ws[29], ws[30], kind)
  }

  /** The inode stored in quarter `slot` of a block of the inode area. */
  function LoadInode(b: Block, slot: nat): Inode
    requires slot < INODES_PER_BLOCK
  {
    InodeOfWords(WordsAt(b, slot), if b[INODE_SIZE * slot + 124] == 1 then Dir else File)
  }

  function StoreInode(b: Block, slot: nat, ino: Inode): Block
    requires slot < INODES_PER_BLOCK
  {
    b[..INODE_SIZE * slot] + EncodeWords(InodeWords(ino)) + [if ino.kind.Dir? then 1 else 0]
    + b[INODE_SIZE * slot + 125..]
  }

  lemma LoadStore(b: Block, slot: nat, ino: Inode)
    requires slot < INODES_PER_BLOCK
    ensures LoadInode(StoreInode(b, slot, ino), slot) == ino
  {
    var r := StoreInode(b, slot, ino);
    var ws := InodeWords(ino);
    forall i | 0 <= i < 31 ensures WordsAt(r, slot)[i] == ws[i] {
      EncodeWordsAt(ws, i);
      assert r[4 * (32 * slot + i)..4 * (32 * slot + i) + 4] == EncodeWords(ws)[4 * i..4 * i + 4];
      Pow256Values();
      DecodeEncode(ws[i], 4);
    }
    assert WordsAt(r, slot) == ws;
    assert ws[1..28] == ino.direct;
  }

  lemma LoadOther(b: Block, slot: nat, ino: Inode, other: nat)
    requires slot < INODES_PER_BLOCK && other < INODES_PER_BLOCK && other != slot
    ensures LoadInode(StoreInode(b, slot, ino), other) == LoadInode(b, other)
  {
    var r := StoreInode(b, slot, ino);
    forall i | 0 <= i < 31 ensures WordsAt(r, other)[i] == WordsAt(b, other)[i] {
      assert r[4 * (32 * other + i)..4 * (32 * other + i) + 4] == b[4 * (32 * other + i)..4 * (32 * other + i) + 4];
      assert U32At(r, 32 * other + i) == U32At(b, 32 * other + i);
    }
    assert WordsAt(r, other) == WordsAt(b, other);
  }

  /** The bytes of an inode on the disk: size, 27 direct ids, three roots, each of four
      bytes with the lowest first, then the kind. */
  lemma InodeBytes(b: Block, slot: nat, ino: Inode, w: nat, i: nat)
    requires slot < INODES_PER_BLOCK && w < 31 && i < 4
    ensures var r := StoreInode(b, slot, ino);
            var word: nat := if w == 0 then ino.size else if w <= 27 then ino.direct[w - 1]
                             else if w == 28 then ino.indirect1 else if w == 29 then ino.indirect2 else ino.indirect3;
            && r[128 * slot + 4 * w + i] == word / Pow256(i) % 256
            && r[128 * slot + 124] == (if ino.kind.Dir? then 1 else 0)
  {
    hide Encode, Pow256;
    var ws := InodeWords(ino);
    EncodeWordsAt(ws, w);
    EncodeAt(ws[w], 4, i);
    assert EncodeWords(ws)[4 * w + i] == EncodeWords(ws)[4 * w..4 * w + 4][i];
  }

  // ---- Regions ----

  /** Bits of the bitmaps, blocks and offsets; all the numbers `create` computes. */
  datatype Geometry = Geometry(total: nat, inodeBitmapBlocks: nat) {

    function InodeCount(): nat { inodeBitmapBlocks * BLOCK_BITS }

    function InodeAreaBlocks(): nat { (InodeCount() * INODE_SIZE + BLOCK_SZ - 1) / BLOCK_SZ }

    function InodeTotalBlocks(): nat { inodeBitmapBlocks + InodeAreaBlocks() }

    /** What the unsigned subtractions of `create` need, room for the root inode, and
        inode numbers that fit the u32 they are kept in. */
    predicate Wf() {
      && inodeBitmapBlocks >= 1 && InodeCount() <= 0x1_0000_0000
      && 1 + InodeTotalBlocks() <= total < 0x1_0000_0000
    }

    function DataTotalBlocks(): nat
      requires Wf()
    { total - 1 - InodeTotalBlocks() }

    function DataBitmapBlocks(): nat
      requires Wf()
    { (DataTotalBlocks() + 4096) / 4097 }

    function DataAreaBlocks(): nat
      requires Wf()
    { DataTotalBlocks() - DataBitmapBlocks() }

    function Manager(): BlockManager
      requires Wf()
    {
      BlockManager(Bitmap(1, inodeBitmapBlocks), Bitmap(1 + InodeTotalBlocks(), DataBitmapBlocks()),
                   1 + inodeBitmapBlocks, 1 + InodeTotalBlocks() + DataBitmapBlocks())
    }
  }

  datatype BlockManager = BlockManager(inodeBitmap: Bitmap, dataBitmap: Bitmap,
                                       inodeAreaStart: nat, dataAreaStart: nat) {

    /** Block and byte offset of inode `id`. */
    function DiskInodePos(id: nat): (pos: (nat, nat)) {
      (inodeAreaStart + id / INODES_PER_BLOCK, id % INODES_PER_BLOCK * INODE_SIZE)
    }
  }

  /** Superblock, inode bitmap, inode area, data bitmap and data area follow one
      another without gap or overlap and end at `total`; the data bitmap has a bit
      for every block of the data area, which it would not with fewer blocks, and every bit
      of the inode bitmap has a slot. */
  lemma RegionsCover(g: Geometry)
    requires g.Wf()
    ensures var m := g.Manager();
            && m.inodeBitmap.start == 1
            && m.inodeAreaStart == m.inodeBitmap.start + m.inodeBitmap.blocks
            && m.dataBitmap.start == m.inodeAreaStart + g.InodeAreaBlocks()
            && m.dataAreaStart == m.dataBitmap.start + m.dataBitmap.blocks
            && g.total == m.dataAreaStart + g.DataAreaBlocks()
    ensures g.DataAreaBlocks() <= g.Manager().dataBitmap.Maximum()
    ensures forall n :: 0 <= n < g.DataBitmapBlocks() ==> n * 4096 < g.DataTotalBlocks() - n
    ensures g.InodeAreaBlocks() * INODES_PER_BLOCK == g.InodeCount() == g.Manager().inodeBitmap.Maximum()
  {
    var t := g.DataTotalBlocks();
    assert 4097 * ((t + 4096) / 4097) >= t;
    assert g.InodeAreaBlocks() == 1024 * g.inodeBitmapBlocks;
  }

  /** Different inodes never share a byte, and all lie in the inode area. */
  lemma InodePositions(g: Geometry, i: nat, j: nat)
    requires g.Wf() && i < g.InodeCount() && j < g.InodeCount() && i != j
    ensures var (b1, o1) := g.Manager().DiskInodePos(i);
            var (b2, o2) := g.Manager().DiskInodePos(j);
            && g.Manager().inodeAreaStart <= b1 < g.Manager().dataBitmap.start
            && o1 + INODE_SIZE <= BLOCK_SZ
            && 512 * b1 + o1 == 512 * g.Manager().inodeAreaStart + 128 * i
            && (b1 != b2 || o1 + INODE_SIZE <= o2 || o2 + INODE_SIZE <= o1)
  {
    RegionsCover(g);
    var q, r := i % INODES_PER_BLOCK, j % INODES_PER_BLOCK;
    assert i == i / INODES_PER_BLOCK * INODES_PER_BLOCK + q && j == j / INODES_PER_BLOCK * INODES_PER_BLOCK + r;
    assert q * INODE_SIZE / INODE_SIZE == q;
  }

  // ---- Superblock ----

  /** Block `b` with its first words replaced by `ws`. */
  function StoreWords(b: Block, ws: seq<U32>): (r: Block)
    requires |ws| <= 128
    ensures forall i :: 0 <= i < 128 ==> U32At(r, i) == if i < |ws| then ws[i] else U32At(b, i)
  {
    if ws == [] then b else SetU32(StoreWords(b, ws[..|ws| - 1]), |ws| - 1, ws[|ws| - 1])
  }

  /** Block 0 after `initialize` has overwritten the six words of the superblock. */
  function SuperBlock(b: Block, g: Geometry): Block
    requires g.Wf()
  {
    StoreWords(b, [MFS_MAGIC, g.total, g.inodeBitmapBlocks, g.InodeAreaBlocks(),
                            g.DataBitmapBlocks(), g.DataAreaBlocks()])
  }

  /** `open`: rebuilds the manager from the superblock alone, `None` for the failed
      magic assertion. */
  datatype OpenResult = NotMfs | Opened(manager: BlockManager)

  function OpenSuper(b: Block): OpenResult {
    if U32At(b, 0) != MFS_MAGIC then NotMfs
    else
      var inodeTotal := U32At(b, 2) + U32At(b, 3);
      Opened(BlockManager(Bitmap(1, U32At(b, 2)), Bitmap(1 + inodeTotal, U32At(b, 4)),
                          1 + U32At(b, 2), 1 + inodeTotal + U32At(b, 4)))
  }

  method Open(c: BlockCacheManager) returns (r: OpenResult)
    requires c.Valid() && |c.pins| < BLOCK_CACHE_SIZE && |c.view| > 0
    modifies c
    ensures c.Valid() && c.view == old(c.view) && c.pins == old(c.pins)
    ensures old(c.Synced()) ==> c.Synced()
    ensures r == OpenSuper(c.view[0])
    ensures forall g: Geometry, b: Block :: g.Wf() && c.view[0] == SuperBlock(b, g) ==> r == Opened(g.Manager())
  {
    var b := c.ReadBlock(0);
    r := OpenSuper(b);
    forall g: Geometry, b0: Block | g.Wf() && b == SuperBlock(b0, g) ensures r == Opened(g.Manager()) {
      OpenAfterCreate(b0, g);
    }
  }

  /** Opening a volume gives back the layout it was created with. */
  lemma OpenAfterCreate(b: Block, g: Geometry)
    requires g.Wf()
    ensures OpenSuper(SuperBlock(b, g)) == Opened(g.Manager())
  {
  }

  /** The bytes of the superblock: six words of four bytes with the lowest first. */
  lemma SuperBlockBytes(b: Block, g: Geometry, w: nat, i: nat)
    requires g.Wf() && w < 6 && i < 4
    ensures var word: nat := if w == 0 then 0x3b80_0001 else if w == 1 then g.total
                             else if w == 2 then g.inodeBitmapBlocks else if w == 3 then g.InodeAreaBlocks()
                             else if w == 4 then g.DataBitmapBlocks() else g.DataAreaBlocks();
            SuperBlock(b, g)[4 * w + i] == word / Pow256(i) % 256
  {
    hide Encode, Decode, Pow256;
    var r := SuperBlock(b, g);
    var word := U32At(r, w);
    EncodeDecode(r[4 * w..4 * w + 4]);
    EncodeAt(word, 4, i);
    assert r[4 * w..4 * w + 4][i] == r[4 * w + i];
  }

  // ---- Allocation ----

  method AllocInode(m: BlockManager, c: BlockCacheManager) returns (found: bool, id: nat)
    requires c.Valid() && |c.pins| < BLOCK_CACHE_SIZE && m.inodeBitmap.InDisk(c.view)
    modifies c
    ensures c.Valid() && c.pins == old(c.pins) && |c.view| == old(|c.view|)
    ensures found <==> !Exhausted(m.inodeBitmap, old(c.view))
    ensures found ==> id < m.inodeBitmap.Maximum() && LowestClear(m.inodeBitmap.Used(old(c.view)), id)
    ensures found ==> m.inodeBitmap.Used(c.view) == m.inodeBitmap.Used(old(c.view)) + {id}
    ensures !found ==> c.view == old(c.view)
    ensures SameOutside(old(c.view), c.view, m.inodeBitmap.start, m.inodeBitmap.start + m.inodeBitmap.blocks)
  {
    found, id := Alloc(m.inodeBitmap, c);
  }

  /** Takes the lowest free data block.  The bitmap may have bits beyond the data area,
      so staying inside it is a matter of how many blocks are in use. */
  method AllocData(m: BlockManager, c: BlockCacheManager) returns (found: bool, id: nat)
    requires c.Valid() && |c.pins| < BLOCK_CACHE_SIZE && m.dataBitmap.InDisk(c.view)
    modifies c
    ensures c.Valid() && c.pins == old(c.pins) && |c.view| == old(|c.view|)
    ensures found <==> !Exhausted(m.dataBitmap, old(c.view))
    ensures found ==> m.dataAreaStart <= id <= m.dataAreaStart + |m.dataBitmap.Used(old(c.view))|
    ensures found ==> id - m.dataAreaStart !in m.dataBitmap.Used(old(c.view))
    ensures found ==> m.dataBitmap.Used(c.view) == m.dataBitmap.Used(old(c.view)) + {id - m.dataAreaStart}
    ensures !found ==> c.view == old(c.view)
    ensures SameOutside(old(c.view), c.view, m.dataBitmap.start, m.dataBitmap.start + m.dataBitmap.blocks)
  {
    hide Exhausted, Bitmap.Used, Bitmap.Maximum, Bitmap.IsSet, LowestClear, BlockCacheManager.Valid, SameOutside;
    ghost var used := m.dataBitmap.Used(c.view);
    var bit;
    found, bit := Alloc(m.dataBitmap, c);
    id := m.dataAreaStart + bit;
    if found {
      FirstFitBound(used, bit);
    }
  }

  /** Zeroes a data block and frees its bit. */
  method DeallocData(m: BlockManager, c: BlockCacheManager, id: nat)
    requires c.Valid() && |c.pins| < BLOCK_CACHE_SIZE && m.dataBitmap.InDisk(c.view)
    requires m.dataBitmap.start + m.dataBitmap.blocks <= m.dataAreaStart <= id < |c.view|
    requires id - m.dataAreaStart in m.dataBitmap.Used(c.view)
    modifies c
    ensures c.Valid() && c.pins == old(c.pins) && |c.view| == old(|c.view|)
    ensures m.dataBitmap.Used(c.view) == m.dataBitmap.Used(old(c.view)) - {id - m.dataAreaStart}
    ensures c.view[id] == ZeroBlock()
    ensures SameOutside(old(c.view)[id := ZeroBlock()], c.view,
                        m.dataBitmap.start, m.dataBitmap.start + m.dataBitmap.blocks)
  {
    UsedFrame(m.dataBitmap, c.view, c.view[id := ZeroBlock()]);
    c.WriteBlock(id, ZeroBlock());
    Dealloc(m.dataBitmap, c, id - m.dataAreaStart);
  }
}
