/**
 * The index tree of a disk inode.
 *
 * An inode names its data blocks through 27 direct ids, one block of 128 ids
 * and one two-level tree of 128 * 128 ids.  `Owned` lists every block an inode
 * holds, index blocks included, in the order in which growing the file takes
 * them; its length is what `total_blocks` computes.
 */
module Layout {
  import opened Basics
  import opened LittleEndian
  import opened BlockCacheLayer

  const INODE_DIRECT_COUNT := 27
  const INODE_INDIRECT1_COUNT := 128
  const INDIRECT1_BOUND := 155
  const INODE_INDIRECT2_COUNT := 16384
  const INDIRECT2_BOUND := 16539

  /** The largest size in bytes whose blocks the double-indirect tree can hold. */
  const MAX_SIZE := 8467968

  datatype InodeKind = File | Dir

  datatype InodeRec = InodeRec(size: U32, direct: seq<U32>, indirect1: U32, indirect2: U32, indirect3: U32,
                               kind: InodeKind)

  type Inode = r: InodeRec | |r.direct| == 27
    witness InodeRec(0, seq(27, i => 0), 0, 0, 0, File)

  // ---- Index blocks: arrays of 128 u32 ----

  function U32At(b: Block, i: nat): (v: U32)
    requires i < 128
  {
    Pow256Values();
    Word(b, 4 * i, 4)
  }

  function SetU32(b: Block, i: nat, v: U32): (r: Block)
    requires i < 128
    ensures U32At(r, i) == v
    ensures forall j :: 0 <= j < 128 && j != i ==> U32At(r, j) == U32At(b, j)
  {
    Pow256Values();
    var r: Block := SetWord(b, 4 * i, 4, v);
    WordOfSetWord(b, 4 * i, 4, v);
    assert forall j :: 0 <= j < 128 && j != i ==> U32At(r, j) == U32At(b, j) by {
      forall j | 0 <= j < 128 && j != i ensures U32At(r, j) == U32At(b, j) {
        OtherWordOfSetWord(b, 4 * i, 4, v, 4 * j, 4);
      }
    }
    r
  }

  /** Entry `k` of index block `b`. */
  function Entry(d: Disk, b: nat, k: nat): U32
    requires k < 128
  {
    if b < |d| then U32At(d[b], k) else 0
  }

  function SetEntry(d: Disk, b: nat, k: nat, v: U32): (r: Disk)
    requires k < 128 && b < |d|
    ensures |r| == |d| && Entry(r, b, k) == v
    ensures forall c: nat, j: nat :: j < 128 && (c != b || j != k) ==> Entry(r, c, j) == Entry(d, c, j)
    ensures forall c: nat :: c < |d| && c != b ==> r[c] == d[c]
  {
    d[b := SetU32(d[b], k, v)]
  }

  // ---- Sizes ----

  function DataBlocks(size: nat): nat {
    (size + BLOCK_SZ - 1) / BLOCK_SZ
  }

  /** Blocks needed for `n` data blocks, index blocks included. */
  function TotalFor(n: nat): nat {
    var indirect1 := if n > INODE_DIRECT_COUNT then 1 else 0;
    var indirect2 :=
      if n > INDIRECT1_BOUND then
        var level2 := (n - INDIRECT1_BOUND + INODE_INDIRECT1_COUNT - 1) / INODE_INDIRECT1_COUNT;
        1 + if level2 < INODE_INDIRECT1_COUNT then level2 else INODE_INDIRECT1_COUNT
      else 0;
    var indirect3 :=
      if n > INDIRECT2_BOUND then
        1 + (n - INDIRECT2_BOUND + INODE_INDIRECT2_COUNT - 1) / INODE_INDIRECT2_COUNT
        + (n - INDIRECT2_BOUND + INODE_INDIRECT1_COUNT - 1) / INODE_INDIRECT1_COUNT
      else 0;
    n + indirect1 + indirect2 + indirect3
  }

  /** As many blocks as the bytes need, and no more. */
  lemma DataBlocksLeast(size: nat, n: nat)
    ensures size <= 512 * n <==> DataBlocks(size) <= n
  {
  }

  function TotalBlocks(size: nat): nat {
    TotalFor(DataBlocks(size))
  }

  // ---- The tree ----

  function LeafNode(i: nat): nat
    requires INDIRECT1_BOUND <= i < INDIRECT2_BOUND
  {
    (i - INDIRECT1_BOUND) / INODE_INDIRECT1_COUNT
  }

  function LeafSlot(i: nat): (k: nat)
    requires INDIRECT1_BOUND <= i < INDIRECT2_BOUND
    ensures k < 128
  {
    (i - INDIRECT1_BOUND) % INODE_INDIRECT1_COUNT
  }

  /** The disk block of the file's `i`-th data block. */
  function BlockId(d: Disk, ino: Inode, i: nat): U32
    requires i < INDIRECT2_BOUND
  {
    if i < INODE_DIRECT_COUNT then ino.direct[i]
    else if i < INDIRECT1_BOUND then Entry(d, ino.indirect1, i - INODE_DIRECT_COUNT)
    else Entry(d, Entry(d, ino.indirect2, LeafNode(i)), LeafSlot(i))
  }

  /** How many index blocks come into use together with data block `i`. */
  function NodeCount(i: nat): nat
    requires i < INDIRECT2_BOUND
  {
    if i < INDIRECT1_BOUND then (if i == INODE_DIRECT_COUNT then 1 else 0)
    else if i == INDIRECT1_BOUND then 2
    else if LeafSlot(i) == 0 then 1
    else 0
  }

  /** The index blocks that come into use together with data block `i`. */
  function NodeIds(d: Disk, ino: Inode, i: nat): (s: seq<U32>)
    requires i < INDIRECT2_BOUND
    ensures |s| == NodeCount(i)
  {
    if i < INDIRECT1_BOUND then (if i == INODE_DIRECT_COUNT then [ino.indirect1] else [])
    else if i == INDIRECT1_BOUND then [ino.indirect2, Entry(d, ino.indirect2, 0)]
    else if LeafSlot(i) == 0 then [Entry(d, ino.indirect2, LeafNode(i))]
    else []
  }

  function Chunk(d: Disk, ino: Inode, i: nat): (s: seq<U32>)
    requires i < INDIRECT2_BOUND
    ensures |s| == NodeCount(i) + 1
  {
    NodeIds(d, ino, i) + [BlockId(d, ino, i)]
  }

  /** Every block the first `n` data blocks hold, in the order they were taken. */
  function Owned(d: Disk, ino: Inode, n: nat): (s: seq<U32>)
    requires n <= INDIRECT2_BOUND
    ensures |s| == TotalFor(n)
  {
    if n == 0 then [] else
      hide TotalFor, NodeCount, Chunk;
      TotalStep(n - 1);
      Owned(d, ino, n - 1) + Chunk(d, ino, n - 1)
  }

  lemma OwnedStep(d: Disk, ino: Inode, n: nat)
    requires n < INDIRECT2_BOUND
    ensures Owned(d, ino, n + 1) == Owned(d, ino, n) + NodeIds(d, ino, n) + [BlockId(d, ino, n)]
  {
    hide TotalFor, NodeIds, BlockId, NodeCount;
  }

  lemma TotalStep(n: nat)
    requires n < INDIRECT2_BOUND
    ensures TotalFor(n + 1) == TotalFor(n) + NodeCount(n) + 1
  {
    if n > INDIRECT1_BOUND {
      var m := n - INDIRECT1_BOUND;
      assert (m + 128) / 128 == (m + 127) / 128 + if m % 128 == 0 then 1 else 0;
    }
  }

  lemma {:induction false} TotalMono(m: nat, n: nat)
    requires m <= n <= INDIRECT2_BOUND
    ensures TotalFor(m) + (n - m) <= TotalFor(n)
    decreases n - m
  {
    if m < n {
      TotalMono(m, n - 1);
      TotalStep(n - 1);
    }
  }

  /** Where data block `i` and its index blocks sit in the listing. */
  lemma {:induction false} OwnedAt(d: Disk, ino: Inode, n: nat, i: nat, j: nat)
    requires i < n <= INDIRECT2_BOUND && j <= NodeCount(i)
    ensures TotalFor(i) + j < TotalFor(n)
    ensures Owned(d, ino, n)[TotalFor(i) + j] == Chunk(d, ino, i)[j]
    decreases n
  {
    hide Chunk, TotalFor, NodeCount;
    TotalStep(n - 1);
    if i < n - 1 {
      OwnedAt(d, ino, n - 1, i, j);
    }
  }

  /** In a listing without duplicates, different places of the tree hold different blocks. */
  lemma OwnedDistinct(d: Disk, ino: Inode, n: nat, i1: nat, j1: nat, i2: nat, j2: nat)
    requires n <= INDIRECT2_BOUND && NoDup(Owned(d, ino, n))
    requires i1 < n && j1 <= NodeCount(i1)
    requires i2 < n && j2 <= NodeCount(i2)
    requires i1 != i2 || j1 != j2
    ensures Chunk(d, ino, i1)[j1] != Chunk(d, ino, i2)[j2]
  {
    hide Chunk, TotalFor, NodeCount, Owned;
    OwnedAt(d, ino, n, i1, j1);
    OwnedAt(d, ino, n, i2, j2);
    if i1 < i2 {
      TotalStep(i1);
      TotalMono(i1 + 1, i2);
    } else if i2 < i1 {
      TotalStep(i2);
      TotalMono(i2 + 1, i1);
    }
  }

  /** Injectivity of `block_id` over a file without shared blocks. */
  lemma BlockIdInjective(d: Disk, ino: Inode, n: nat, i1: nat, i2: nat)
    requires n <= INDIRECT2_BOUND && NoDup(Owned(d, ino, n))
    requires i1 < n && i2 < n && i1 != i2
    ensures BlockId(d, ino, i1) != BlockId(d, ino, i2)
  {
    OwnedDistinct(d, ino, n, i1, NodeCount(i1), i2, NodeCount(i2));
  }

  lemma BlockIdOwned(d: Disk, ino: Inode, n: nat, i: nat)
    requires i < n <= INDIRECT2_BOUND
    ensures BlockId(d, ino, i) in Owned(d, ino, n)
  {
    OwnedAt(d, ino, n, i, NodeCount(i));
  }

  /** Every element of the listing is a data block or an index block of the tree. */
  lemma {:induction false} OwnedIs(d: Disk, ino: Inode, n: nat, x: U32) returns (i: nat, j: nat)
    requires n <= INDIRECT2_BOUND && x in Owned(d, ino, n)
    ensures i < n && j <= NodeCount(i) && Chunk(d, ino, i)[j] == x
    decreases n
  {
    hide Chunk, TotalFor, NodeCount;
    if x in Owned(d, ino, n - 1) {
      i, j := OwnedIs(d, ino, n - 1, x);
    } else {
      i := n - 1;
      j :| 0 <= j < |Chunk(d, ino, i)| && Chunk(d, ino, i)[j] == x;
    }
  }

  // ---- Which inode fields and disk blocks the listing reads ----

  /** Node positions `(i, j)`: indirect1 is (27, 0), indirect2 is (155, 0), and the
      a-th leaf of the double-indirect tree is at (155 + 128 a, 0), or (155, 1) for a = 0. */
  function LeafHome(a: nat): (nat, nat)
    requires a < 128
  {
    if a == 0 then (INDIRECT1_BOUND, 1) else (INDIRECT1_BOUND + INODE_INDIRECT1_COUNT * a, 0)
  }

  lemma LeafHomeIs(d: Disk, ino: Inode, a: nat)
    requires a < 128
    ensures LeafHome(a).0 < INDIRECT2_BOUND
    ensures LeafHome(a).1 < NodeCount(LeafHome(a).0)
    ensures Chunk(d, ino, LeafHome(a).0)[LeafHome(a).1] == Entry(d, ino.indirect2, a)
    ensures INDIRECT1_BOUND <= LeafHome(a).0 && LeafNode(LeafHome(a).0) == a && LeafSlot(LeafHome(a).0) == 0
  {
    assert (INODE_INDIRECT1_COUNT * a) / INODE_INDIRECT1_COUNT == a;
    assert (INODE_INDIRECT1_COUNT * a) % INODE_INDIRECT1_COUNT == 0;
  }

  /** Two trees look alike at data block `i`. */
  ghost predicate SameAt(d: Disk, ino: Inode, d2: Disk, ino2: Inode, i: nat)
    requires i < INDIRECT2_BOUND
  {
    if i < INODE_DIRECT_COUNT then ino2.direct[i] == ino.direct[i]
    else if i < INDIRECT1_BOUND then
      && ino2.indirect1 == ino.indirect1
      && Entry(d2, ino.indirect1, i - INODE_DIRECT_COUNT) == Entry(d, ino.indirect1, i - INODE_DIRECT_COUNT)
    else
      var leaf := Entry(d, ino.indirect2, LeafNode(i));
      && ino2.indirect2 == ino.indirect2
      && Entry(d2, ino.indirect2, LeafNode(i)) == leaf
      && Entry(d2, leaf, LeafSlot(i)) == Entry(d, leaf, LeafSlot(i))
  }

  lemma ChunkSame(d: Disk, ino: Inode, d2: Disk, ino2: Inode, i: nat)
    requires i < INDIRECT2_BOUND && SameAt(d, ino, d2, ino2, i)
    ensures Chunk(d2, ino2, i) == Chunk(d, ino, i)
    ensures BlockId(d2, ino2, i) == BlockId(d, ino, i)
  {
  }

  lemma {:induction false} OwnedSame(d: Disk, ino: Inode, d2: Disk, ino2: Inode, n: nat)
    requires n <= INDIRECT2_BOUND
    requires forall i :: 0 <= i < n ==> SameAt(d, ino, d2, ino2, i)
    ensures Owned(d2, ino2, n) == Owned(d, ino, n)
    ensures forall i :: 0 <= i < n ==> BlockId(d2, ino2, i) == BlockId(d, ino, i)
  {
    hide Chunk, TotalFor, NodeCount, SameAt, BlockId;
    if n > 0 {
      OwnedSame(d, ino, d2, ino2, n - 1);
      ChunkSame(d, ino, d2, ino2, n - 1);
    }
  }

  /** Does the listing up to `n` read index block `b`? */
  ghost predicate IsNode(d: Disk, ino: Inode, n: nat, b: nat)
    requires n <= INDIRECT2_BOUND
  {
    || (n > INODE_DIRECT_COUNT && b == ino.indirect1)
    || (n > INDIRECT1_BOUND && b == ino.indirect2)
    || (exists i :: INDIRECT1_BOUND <= i < n && b == Entry(d, ino.indirect2, LeafNode(i)))
  }

  /** A disk that agrees on the index blocks has the same listing. */
  lemma OwnedFrame(d: Disk, d2: Disk, ino: Inode, n: nat)
    requires n <= INDIRECT2_BOUND && |d2| == |d|
    requires forall b :: 0 <= b < |d| && IsNode(d, ino, n, b) ==> d2[b] == d[b]
    ensures Owned(d2, ino, n) == Owned(d, ino, n)
    ensures forall i :: 0 <= i < n ==> BlockId(d2, ino, i) == BlockId(d, ino, i)
  {
    forall i | 0 <= i < n ensures SameAt(d, ino, d2, ino, i) {
      if i >= INDIRECT1_BOUND {
        assert IsNode(d, ino, n, ino.indirect2);
        assert IsNode(d, ino, n, Entry(d, ino.indirect2, LeafNode(i)));
      } else if i >= INODE_DIRECT_COUNT {
        assert IsNode(d, ino, n, ino.indirect1);
      }
    }
    OwnedSame(d, ino, d2, ino, n);
  }

  /** Every index block has a home in the listing, apart from the data blocks. */
  lemma NodeHome(d: Disk, ino: Inode, n: nat, b: nat) returns (i: nat, j: nat)
    requires n <= INDIRECT2_BOUND && IsNode(d, ino, n, b)
    ensures i < n && j < NodeCount(i) && Chunk(d, ino, i)[j] == b
  {
    if n > INODE_DIRECT_COUNT && b == ino.indirect1 {
      i, j := INODE_DIRECT_COUNT, 0;
    } else if n > INDIRECT1_BOUND && b == ino.indirect2 {
      i, j := INDIRECT1_BOUND, 0;
    } else {
      var m :| INDIRECT1_BOUND <= m < n && b == Entry(d, ino.indirect2, LeafNode(m));
      LeafHomeIs(d, ino, LeafNode(m));
      i, j := LeafHome(LeafNode(m)).0, LeafHome(LeafNode(m)).1;
    }
  }

  lemma NodeIsNotData(d: Disk, ino: Inode, n: nat, b: nat, i: nat)
    requires n <= INDIRECT2_BOUND && NoDup(Owned(d, ino, n)) && IsNode(d, ino, n, b) && i < n
    ensures b in Owned(d, ino, n) && b != BlockId(d, ino, i)
  {
    var i1, j1 := NodeHome(d, ino, n, b);
    OwnedAt(d, ino, n, i1, j1);
    OwnedDistinct(d, ino, n, i1, j1, i, NodeCount(i));
  }
}
