/**
 * Growing an index tree one block id at a time.
 *
 * `Growing` is the invariant of all the loops of `increase_size`: the ids taken
 * so far are exactly appended to the listing of owned blocks, no block outside
 * that listing has been written, and no data block has been written at all.
 */
module InodeGrowth {
  import opened Basics
  import opened LittleEndian
  import opened BlockCacheLayer
  import opened Layout

  /** Ids `ids[..k]` have been taken on top of `base`; `c` data blocks are in place and
      `pend` are index blocks taken for data block `c` that is still to come. */
  ghost predicate Growing(d0: Disk, base: seq<U32>, ids: seq<U32>,
                          d: Disk, ino: Inode, c: nat, pend: seq<U32>, k: nat)
  {
    && c <= INDIRECT2_BOUND
    && |d| == |d0| && k <= |ids|
    && Owned(d, ino, c) + pend == base + ids[..k]
    && (forall b :: 0 <= b < |d| && b !in base + ids[..k] ==> d[b] == d0[b])
    && (forall i :: 0 <= i < c ==> DataKept(d0, d, BlockId(d, ino, i)))
  }

  ghost predicate DataKept(d0: Disk, d: Disk, x: nat) {
    x < |d0| && x < |d| && d[x] == d0[x]
  }

  /** Ids that may be handed to an inode: all different, all on the disk. */
  ghost predicate Fresh(d: Disk, base: seq<U32>, ids: seq<U32>) {
    NoDup(base + ids) && forall x :: x in base + ids ==> x < |d|
  }

  lemma FreshNext(d: Disk, base: seq<U32>, ids: seq<U32>, k: nat)
    requires Fresh(d, base, ids) && k < |ids|
    ensures base + ids[..k + 1] == base + ids[..k] + [ids[k]]
    ensures ids[k] !in base + ids[..k] && ids[k] < |d|
    ensures NoDup(base + ids[..k]) && forall x :: x in base + ids[..k] ==> x < |d|
  {
    var all := base + ids;
    assert base + ids[..k] == all[..|base| + k];
    assert ids[k] == all[|base| + k] && ids[k] in all;
    forall x | x in base + ids[..k] ensures x in all {}
  }

  /** Positions in the listing extended with the index blocks of data block `c`. */
  lemma NodesDistinct(d: Disk, ino: Inode, c: nat, i1: nat, j1: nat, i2: nat, j2: nat)
    requires c < INDIRECT2_BOUND && NoDup(Owned(d, ino, c) + NodeIds(d, ino, c))
    requires i1 <= c && j1 <= NodeCount(i1) && (i1 == c ==> j1 < NodeCount(i1))
    requires i2 <= c && j2 <= NodeCount(i2) && (i2 == c ==> j2 < NodeCount(i2))
    requires i1 != i2 || j1 != j2
    ensures Chunk(d, ino, i1)[j1] != Chunk(d, ino, i2)[j2]
  {
    hide NodeCount, TotalFor, BlockId, NodeIds, Owned, Chunk;
    PositionIn(d, ino, c, i1, j1);
    PositionIn(d, ino, c, i2, j2);
    if i1 < i2 {
      TotalStep(i1);
      TotalMono(i1 + 1, i2);
    } else if i2 < i1 {
      TotalStep(i2);
      TotalMono(i2 + 1, i1);
    }
  }

  lemma PositionIn(d: Disk, ino: Inode, c: nat, i: nat, j: nat)
    requires c < INDIRECT2_BOUND
    requires i <= c && j <= NodeCount(i) && (i == c ==> j < NodeCount(i))
    ensures TotalFor(i) + j < |Owned(d, ino, c) + NodeIds(d, ino, c)|
    ensures (Owned(d, ino, c) + NodeIds(d, ino, c))[TotalFor(i) + j] == Chunk(d, ino, i)[j]
  {
    hide NodeCount, TotalFor, BlockId, NodeIds, Owned;
    if i < c {
      OwnedAt(d, ino, c, i, j);
    }
  }

  /** Writing one index block keeps everything the invariant says about the past. */
  lemma WriteNode(d0: Disk, base: seq<U32>, ids: seq<U32>, d: Disk, ino: Inode, c: nat, pend: seq<U32>, k: nat,
                  w: nat, d2: Disk)
    requires Fresh(d0, base, ids) && Growing(d0, base, ids, d, ino, c, pend, k)
    requires w in pend || IsNode(d, ino, c, w)
    requires |d2| == |d| && forall b :: 0 <= b < |d| && b != w ==> d2[b] == d[b]
    requires forall i :: 0 <= i < c ==> SameAt(d, ino, d2, ino, i)
    ensures Growing(d0, base, ids, d2, ino, c, pend, k)
    ensures Owned(d2, ino, c) == Owned(d, ino, c)
    ensures w in base + ids[..k]
    ensures k < |ids| ==> w != ids[k] && DataKept(d0, d2, ids[k])
  {
    hide Owned, SameAt, BlockId, IsNode;
    OwnedSame(d, ino, d2, ino, c);
    var s := base + ids[..k];
    assert NoDup(s) by {
      if k < |ids| { FreshNext(d0, base, ids, k); } else { assert base + ids[..k] == base + ids; }
    }
    assert Owned(d, ino, c) == s[..|Owned(d, ino, c)|] && pend == s[|Owned(d, ino, c)|..];
    assert NoDup(Owned(d, ino, c));
    if w !in pend && c > 0 {
      NodeIsNotData(d, ino, c, w, 0);
    } else if w !in pend {
      var i, j := NodeHome(d, ino, c, w);
    }
    assert w in s;
    forall i | 0 <= i < c ensures DataKept(d0, d2, BlockId(d2, ino, i)) {
      assert DataKept(d0, d, BlockId(d, ino, i));
      BlockIdOwned(d, ino, c, i);
      if w !in pend {
        NodeIsNotData(d, ino, c, w, i);
      }
    }
    if k < |ids| { FreshNext(d0, base, ids, k); }
  }

  /** Data block `c` is now in place: its id is `ids[k]`. */
  lemma Advance(d0: Disk, base: seq<U32>, ids: seq<U32>, d: Disk, ino: Inode, c: nat, k: nat)
    requires c < INDIRECT2_BOUND && k < |ids| && Fresh(d0, base, ids)
    requires Growing(d0, base, ids, d, ino, c, NodeIds(d, ino, c), k)
    requires BlockId(d, ino, c) == ids[k] && DataKept(d0, d, ids[k])
    ensures Growing(d0, base, ids, d, ino, c + 1, [], k + 1)
  {
    hide BlockId, NodeIds, Owned;
    FreshNext(d0, base, ids, k);
    OwnedStep(d, ino, c);
  }

  lemma StepDirect(d0: Disk, base: seq<U32>, ids: seq<U32>, d: Disk, ino: Inode, c: nat, k: nat, ino2: Inode)
    requires Fresh(d0, base, ids) && Growing(d0, base, ids, d, ino, c, [], k)
    requires c < INODE_DIRECT_COUNT && k < |ids|
    requires ino2 == ino.(direct := ino.direct[c := ids[k]])
    ensures Growing(d0, base, ids, d, ino2, c + 1, [], k + 1)
  {
    OwnedSame(d, ino, d, ino2, c);
    FreshNext(d0, base, ids, k);
    Advance(d0, base, ids, d, ino2, c, k);
  }

  /** Setting `indirect1` (or `indirect2`) just before its first entry. */
  lemma StepRoot(d0: Disk, base: seq<U32>, ids: seq<U32>, d: Disk, ino: Inode, c: nat, k: nat, ino2: Inode)
    requires Fresh(d0, base, ids) && Growing(d0, base, ids, d, ino, c, [], k) && k < |ids|
    requires || (c == INODE_DIRECT_COUNT && ino2 == ino.(indirect1 := ids[k]))
             || (c == INDIRECT1_BOUND && ino2 == ino.(indirect2 := ids[k]))
    ensures Growing(d0, base, ids, d, ino2, c, [ids[k]], k + 1)
  {
    hide Owned, BlockId;
    forall i | 0 <= i < c ensures SameAt(d, ino, d, ino2, i) {}
    OwnedSame(d, ino, d, ino2, c);
    FreshNext(d0, base, ids, k);
    assert Owned(d, ino, c) + [] == Owned(d, ino, c);
  }

  lemma StepIndirect1(d0: Disk, base: seq<U32>, ids: seq<U32>, d: Disk, ino: Inode, c: nat, k: nat, d2: Disk)
    requires INODE_DIRECT_COUNT <= c < INDIRECT1_BOUND && k < |ids| && Fresh(d0, base, ids)
    requires Growing(d0, base, ids, d, ino, c, NodeIds(d, ino, c), k)
    requires ino.indirect1 < |d| && d2 == SetEntry(d, ino.indirect1, c - INODE_DIRECT_COUNT, ids[k])
    ensures Growing(d0, base, ids, d2, ino, c + 1, [], k + 1)
  {
    hide Owned;
    forall i | 0 <= i < c ensures SameAt(d, ino, d2, ino, i) {}
    WriteNode(d0, base, ids, d, ino, c, NodeIds(d, ino, c), k, ino.indirect1, d2);
    Advance(d0, base, ids, d2, ino, c, k);
  }

  /** A new leaf of the double-indirect tree. */
  lemma StepLeafNode(d0: Disk, base: seq<U32>, ids: seq<U32>, d: Disk, ino: Inode, c: nat, pend: seq<U32>, k: nat,
                     d2: Disk)
    requires INDIRECT1_BOUND <= c < INDIRECT2_BOUND && LeafSlot(c) == 0 && k < |ids| && Fresh(d0, base, ids)
    requires pend == if c == INDIRECT1_BOUND then [ino.indirect2] else []
    requires Growing(d0, base, ids, d, ino, c, pend, k)
    requires ino.indirect2 < |d| && d2 == SetEntry(d, ino.indirect2, LeafNode(c), ids[k])
    ensures Growing(d0, base, ids, d2, ino, c, NodeIds(d2, ino, c), k + 1)
    ensures Entry(d2, ino.indirect2, LeafNode(c)) == ids[k]
  {
    hide Owned;
    FreshNext(d0, base, ids, k);
    var s := base + ids[..k];
    assert Owned(d, ino, c) == s[..|Owned(d, ino, c)|] && pend == s[|Owned(d, ino, c)|..];
    forall i | 0 <= i < c ensures SameAt(d, ino, d2, ino, i) {
      LeafNodeKeeps(d, ino, c, pend, i);
    }
    WriteNode(d0, base, ids, d, ino, c, pend, k, ino.indirect2, d2);
    assert NodeIds(d2, ino, c) == pend + [ids[k]];
    assert Owned(d2, ino, c) + NodeIds(d2, ino, c) == Owned(d2, ino, c) + pend + [ids[k]];
  }

  lemma LeafNodeKeeps(d: Disk, ino: Inode, c: nat, pend: seq<U32>, i: nat)
    requires INDIRECT1_BOUND <= c < INDIRECT2_BOUND && LeafSlot(c) == 0 && i < c
    requires pend == if c == INDIRECT1_BOUND then [ino.indirect2] else []
    requires NoDup(Owned(d, ino, c) + pend)
    ensures INODE_DIRECT_COUNT <= i ==> ino.indirect1 != ino.indirect2
    ensures INDIRECT1_BOUND <= i ==> LeafNode(i) < LeafNode(c) && Entry(d, ino.indirect2, LeafNode(i)) != ino.indirect2
  {
    hide Owned;
    var s := Owned(d, ino, c) + pend;
    if INODE_DIRECT_COUNT <= i {
      OwnedAt(d, ino, c, INODE_DIRECT_COUNT, 0);
      assert s[TotalFor(INODE_DIRECT_COUNT)] == ino.indirect1;
      if c == INDIRECT1_BOUND {
        assert s[TotalFor(c)] == ino.indirect2;
      } else {
        assert NoDup(Owned(d, ino, c)) by { assert s == Owned(d, ino, c); }
        OwnedDistinct(d, ino, c, INODE_DIRECT_COUNT, 0, INDIRECT1_BOUND, 0);
      }
    }
    if INDIRECT1_BOUND <= i {
      assert NoDup(Owned(d, ino, c)) by { assert s == Owned(d, ino, c); }
      LeafHomeIs(d, ino, LeafNode(i));
      OwnedDistinct(d, ino, c, INDIRECT1_BOUND, 0, LeafHome(LeafNode(i)).0, LeafHome(LeafNode(i)).1);
    }
  }

  /** A new entry in the current leaf. */
  lemma StepLeaf(d0: Disk, base: seq<U32>, ids: seq<U32>, d: Disk, ino: Inode, c: nat, k: nat, d2: Disk)
    requires INDIRECT1_BOUND <= c < INDIRECT2_BOUND && k < |ids| && Fresh(d0, base, ids)
    requires Growing(d0, base, ids, d, ino, c, NodeIds(d, ino, c), k)
    requires Entry(d, ino.indirect2, LeafNode(c)) < |d|
    requires d2 == SetEntry(d, Entry(d, ino.indirect2, LeafNode(c)), LeafSlot(c), ids[k])
    ensures Growing(d0, base, ids, d2, ino, c + 1, [], k + 1)
  {
    hide Owned, TotalFor;
    var leaf := Entry(d, ino.indirect2, LeafNode(c));
    FreshNext(d0, base, ids, k);
    assert leaf != ino.indirect2 by {
      LeafHomeIs(d, ino, LeafNode(c));
      LeafHomeBefore(c);
      NodesDistinct(d, ino, c, INDIRECT1_BOUND, 0, LeafHome(LeafNode(c)).0, LeafHome(LeafNode(c)).1);
    }
    forall i | 0 <= i < c ensures SameAt(d, ino, d2, ino, i) {
      LeafKeeps(d, ino, c, i);
    }
    assert leaf in NodeIds(d, ino, c) || IsNode(d, ino, c, leaf) by {
      if LeafSlot(c) != 0 {
        assert LeafNode(c - 1) == LeafNode(c);
      }
    }
    WriteNode(d0, base, ids, d, ino, c, NodeIds(d, ino, c), k, leaf, d2);
    assert NodeIds(d2, ino, c) == NodeIds(d, ino, c);
    Advance(d0, base, ids, d2, ino, c, k);
  }

  lemma LeafHomeBefore(c: nat)
    requires INDIRECT1_BOUND <= c < INDIRECT2_BOUND
    ensures LeafHome(LeafNode(c)).0 <= c
  {
  }

  lemma LeafKeeps(d: Disk, ino: Inode, c: nat, i: nat)
    requires INDIRECT1_BOUND <= c < INDIRECT2_BOUND && i < c
    requires NoDup(Owned(d, ino, c) + NodeIds(d, ino, c))
    ensures INODE_DIRECT_COUNT <= i ==> ino.indirect1 != Entry(d, ino.indirect2, LeafNode(c))
    ensures INDIRECT1_BOUND <= i && LeafNode(i) != LeafNode(c)
            ==> Entry(d, ino.indirect2, LeafNode(i)) != Entry(d, ino.indirect2, LeafNode(c))
    ensures INDIRECT1_BOUND <= i && LeafNode(i) == LeafNode(c) ==> LeafSlot(i) != LeafSlot(c)
  {
    hide Owned, TotalFor, NodeIds, BlockId;
    var a := LeafNode(c);
    LeafHomeIs(d, ino, a);
    LeafHomeBefore(c);
    if INODE_DIRECT_COUNT <= i {
      assert Chunk(d, ino, INODE_DIRECT_COUNT)[0] == ino.indirect1 by { Root1(d, ino); }
      NodesDistinct(d, ino, c, INODE_DIRECT_COUNT, 0, LeafHome(a).0, LeafHome(a).1);
    }
    if INDIRECT1_BOUND <= i && LeafNode(i) != a {
      LeafHomeIs(d, ino, LeafNode(i));
      LeafHomeBefore(i);
      NodesDistinct(d, ino, c, LeafHome(LeafNode(i)).0, LeafHome(LeafNode(i)).1, LeafHome(a).0, LeafHome(a).1);
    }
  }

  lemma Root1(d: Disk, ino: Inode)
    ensures NodeCount(INODE_DIRECT_COUNT) == 1 && Chunk(d, ino, INODE_DIRECT_COUNT)[0] == ino.indirect1
  {
  }
}
