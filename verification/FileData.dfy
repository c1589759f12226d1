/**
 * The bytes of a file: what the index tree and the data blocks mean together.
 */
module FileData {
  import opened Basics
  import opened LittleEndian
  import opened BlockCacheLayer
  import opened Layout

  /** All blocks of the first `n` data blocks exist on the disk. */
  ghost predicate OnDisk(d: Disk, ino: Inode, n: nat) {
    n <= INDIRECT2_BOUND && forall x :: x in Owned(d, ino, n) ==> x < |d|
  }

  lemma DataOnDisk(d: Disk, ino: Inode, n: nat, i: nat)
    requires OnDisk(d, ino, n) && i < n
    ensures BlockId(d, ino, i) < |d|
  {
    BlockIdOwned(d, ino, n, i);
  }

  lemma BlockCountBound(size: nat)
    requires size <= MAX_SIZE
    ensures DataBlocks(size) <= INDIRECT2_BOUND && size <= BLOCK_SZ * DataBlocks(size)
    ensures forall p :: 0 <= p < BLOCK_SZ * DataBlocks(size) ==> p / BLOCK_SZ < DataBlocks(size)
  {
  }

  /** Byte `p` of the file whose tree is read from `t` and whose data from `d`. */
  function ByteVia(t: Disk, d: Disk, ino: Inode, p: nat): Byte
    requires p / BLOCK_SZ < INDIRECT2_BOUND
  {
    var b := BlockId(t, ino, p / BLOCK_SZ);
    if b < |d| then d[b][p % BLOCK_SZ] else 0
  }

  function ByteAt(d: Disk, ino: Inode, p: nat): Byte
    requires p / BLOCK_SZ < INDIRECT2_BOUND
  {
    ByteVia(d, d, ino, p)
  }

  function Content(d: Disk, ino: Inode): (s: seq<Byte>)
    requires ino.size <= MAX_SIZE
    ensures |s| == ino.size
  {
    seq(ino.size, (p: nat) requires p < ino.size => ByteAt(d, ino, p))
  }

  /** Bytes between the end of the file and the end of its last block are zero. */
  ghost predicate TailZero(d: Disk, ino: Inode)
    requires ino.size <= MAX_SIZE
  {
    BlockCountBound(ino.size);
    forall p :: ino.size <= p < BLOCK_SZ * DataBlocks(ino.size) ==> ByteAt(d, ino, p) == 0
  }

  function Splice<T>(s: seq<T>, off: nat, t: seq<T>): (r: seq<T>)
    requires off + |t| <= |s|
    ensures |r| == |s|
    ensures forall i :: 0 <= i < |s| ==> r[i] == if off <= i < off + |t| then t[i - off] else s[i]
  {
    s[..off] + t + s[off + |t|..]
  }

  ghost predicate IsData(t: Disk, ino: Inode, n: nat, b: nat)
    requires n <= INDIRECT2_BOUND
  {
    exists i :: 0 <= i < n && BlockId(t, ino, i) == b
  }

  /** Bytes `off .. upto` of the file are those of `buf`, nothing else has changed. */
  ghost predicate Written(d0: Disk, ino: Inode, n: nat, d: Disk, off: nat, buf: seq<Byte>, upto: nat)
    requires n <= INDIRECT2_BOUND
  {
    && |d| == |d0| && off <= upto && upto - off <= |buf|
    && (forall b :: 0 <= b < |d| && !IsData(d0, ino, n, b) ==> d[b] == d0[b])
    && (forall p :: 0 <= p < BLOCK_SZ * n ==>
          ByteVia(d0, d, ino, p) == if off <= p < upto then buf[p - off] else ByteVia(d0, d0, ino, p))
  }

  lemma WriteStep(d0: Disk, ino: Inode, n: nat, d: Disk, off: nat, buf: seq<Byte>, start: nat, len: nat, d2: Disk)
    requires OnDisk(d0, ino, n) && NoDup(Owned(d0, ino, n)) && Written(d0, ino, n, d, off, buf, start)
    requires start / BLOCK_SZ < n && start % BLOCK_SZ + len <= BLOCK_SZ && start - off + len <= |buf|
    requires var id := BlockId(d0, ino, start / BLOCK_SZ);
             && id < |d|
             && d2 == d[id := Splice(d[id], start % BLOCK_SZ, buf[start - off..start - off + len])]
    ensures Written(d0, ino, n, d2, off, buf, start + len)
  {
    hide Owned, BlockId;
    var k := start / BLOCK_SZ;
    var id := BlockId(d0, ino, k);
    assert IsData(d0, ino, n, id);
    forall p | 0 <= p < BLOCK_SZ * n
      ensures ByteVia(d0, d2, ino, p) == if off <= p < start + len then buf[p - off] else ByteVia(d0, d0, ino, p)
    {
      var i := p / BLOCK_SZ;
      DataOnDisk(d0, ino, n, i);
      if i == k {
        assert p - start == p % BLOCK_SZ - start % BLOCK_SZ;
      } else {
        BlockIdInjective(d0, ino, n, i, k);
        assert !(start <= p < start + len);
      }
    }
  }

  /** Writing data blocks leaves the tree alone. */
  lemma WrittenKeepsTree(d0: Disk, ino: Inode, n: nat, d: Disk, off: nat, buf: seq<Byte>, upto: nat)
    requires n <= INDIRECT2_BOUND && NoDup(Owned(d0, ino, n)) && Written(d0, ino, n, d, off, buf, upto)
    ensures |d| == |d0| && Owned(d, ino, n) == Owned(d0, ino, n)
    ensures forall i :: 0 <= i < n ==> BlockId(d, ino, i) == BlockId(d0, ino, i)
    ensures forall b :: 0 <= b < |d| && b !in Owned(d, ino, n) ==> d[b] == d0[b]
  {
    hide Owned, BlockId, ByteVia;
    forall b | 0 <= b < |d| && IsNode(d0, ino, n, b) ensures d[b] == d0[b] {
      if IsData(d0, ino, n, b) {
        var i :| 0 <= i < n && BlockId(d0, ino, i) == b;
        NodeIsNotData(d0, ino, n, b, i);
      }
    }
    OwnedFrame(d0, d, ino, n);
    forall b | 0 <= b < |d| && b !in Owned(d, ino, n) ensures d[b] == d0[b] {
      if IsData(d0, ino, n, b) {
        var i :| 0 <= i < n && BlockId(d0, ino, i) == b;
        BlockIdOwned(d0, ino, n, i);
      }
    }
  }

  lemma WrittenMeans(d0: Disk, ino: Inode, d: Disk, off: nat, buf: seq<Byte>, upto: nat)
    requires ino.size <= MAX_SIZE && DataBlocks(ino.size) <= INDIRECT2_BOUND
    requires NoDup(Owned(d0, ino, DataBlocks(ino.size)))
    requires Written(d0, ino, DataBlocks(ino.size), d, off, buf, upto) && upto <= ino.size
    ensures Content(d, ino) == Splice(Content(d0, ino), off, buf[..upto - off])
    ensures TailZero(d0, ino) ==> TailZero(d, ino)
  {
    hide Owned, BlockId, NoDup;
    var n := DataBlocks(ino.size);
    BlockCountBound(ino.size);
    WrittenKeepsTree(d0, ino, n, d, off, buf, upto);
    forall p | 0 <= p < BLOCK_SZ * n
      ensures ByteAt(d, ino, p) == if off <= p < upto then buf[p - off] else ByteAt(d0, ino, p)
    {
      assert ByteVia(d0, d, ino, p) == if off <= p < upto then buf[p - off] else ByteVia(d0, d0, ino, p);
    }
  }
}
