/**
 * On-disk bitmaps: consecutive blocks of 64 little-endian u64 words, one bit
 * per resource.  `Used` is the set of bits that are set; `Alloc` adds the lowest
 * clear bit to it and `Dealloc` takes one away.
 */
module BitmapLayer {
  import opened Basics
  import opened LittleEndian
  import opened BlockCacheLayer

  const BLOCK_BITS := 4096
  const U64_MAX := 0xFFFF_FFFF_FFFF_FFFF

  // ---- Bits of one word ----

  function Pow2(n: nat): (p: nat)
    ensures p > 0
  {
    if n == 0 then 1 else 2 * Pow2(n - 1)
  }

  predicate BitOf(x: nat, i: nat) {
    if i == 0 then x % 2 == 1 else BitOf(x / 2, i - 1)
  }

  lemma {:induction false} AddClearBit(x: nat, i: nat, j: nat)
    requires !BitOf(x, i)
    ensures BitOf(x + Pow2(i), j) <==> j == i || BitOf(x, j)
    decreases i
  {
    if i == 0 {
      assert (x + 1) / 2 == x / 2;
    } else {
      assert (x + Pow2(i)) / 2 == x / 2 + Pow2(i - 1);
      if j > 0 {
        AddClearBit(x / 2, i - 1, j - 1);
      }
    }
  }

  lemma {:induction false} SubSetBit(x: nat, i: nat, j: nat)
    requires BitOf(x, i)
    ensures x >= Pow2(i)
    ensures BitOf(x - Pow2(i), j) <==> j != i && BitOf(x, j)
    decreases i
  {
    if i == 0 {
      assert (x - 1) / 2 == x / 2;
    } else {
      SubSetBit(x / 2, i - 1, if j > 0 then j - 1 else 0);
      assert (x - Pow2(i)) / 2 == x / 2 - Pow2(i - 1);
    }
  }

  /** A word with a clear bit below `n` stays below 2^n when that bit is added. */
  lemma {:induction false} AddBitBound(x: nat, i: nat, n: nat)
    requires i < n && x < Pow2(n) && !BitOf(x, i)
    ensures x + Pow2(i) < Pow2(n)
    decreases i
  {
    if i > 0 {
      AddBitBound(x / 2, i - 1, n - 1);
    } else {
      assert Pow2(n) == 2 * Pow2(n - 1);
    }
  }

  lemma {:induction false} OnesBits(n: nat, i: nat)
    requires i < n
    ensures BitOf(Pow2(n) - 1, i)
    decreases i
  {
    if i > 0 {
      OnesBits(n - 1, i - 1);
      assert (Pow2(n) - 1) / 2 == Pow2(n - 1) - 1;
    }
  }

  lemma {:induction false} NotAllOnes(x: nat, n: nat) returns (i: nat)
    requires x < Pow2(n) - 1
    ensures i < n && !BitOf(x, i)
    decreases n
  {
    if x % 2 == 0 {
      i := 0;
    } else {
      var j := NotAllOnes(x / 2, n - 1);
      i := j + 1;
    }
  }

  lemma Pow2Of64()
    ensures Pow2(64) == U64_MAX + 1 == Pow256(8)
  {
    assert Pow2(4) == 16;
    assert Pow2(8) == 16 * Pow2(4);
    assert Pow2(12) == 16 * Pow2(8);
    assert Pow2(16) == 16 * Pow2(12);
    assert Pow2(20) == 16 * Pow2(16);
    assert Pow2(24) == 16 * Pow2(20);
    assert Pow2(28) == 16 * Pow2(24);
    assert Pow2(32) == 16 * Pow2(28);
    assert Pow2(36) == 16 * Pow2(32);
    assert Pow2(40) == 16 * Pow2(36);
    assert Pow2(44) == 16 * Pow2(40);
    assert Pow2(48) == 16 * Pow2(44);
    assert Pow2(52) == 16 * Pow2(48);
    assert Pow2(56) == 16 * Pow2(52);
    assert Pow2(60) == 16 * Pow2(56);
    assert Pow2(64) == 16 * Pow2(60);
    Pow256Values();
  }

  /** `u64::trailing_ones` for a word that is not all ones. */
  method TrailingOnes(x: nat) returns (n: nat)
    requires x < U64_MAX
    ensures n < 64 && !BitOf(x, n)
    ensures forall i :: 0 <= i < n ==> BitOf(x, i)
  {
    hide BitOf;
    Pow2Of64();
    ghost var clear := NotAllOnes(x, 64);
    var y := x;
    n := 0;
    while y % 2 == 1
      invariant n <= 64
      invariant forall i :: 0 <= i < n ==> BitOf(x, i)
      invariant forall j: nat :: BitOf(x, n + j) == BitOf(y, j)
      decreases 64 - n
    {
      NextBit(x, n, y);
      y := y / 2;
      n := n + 1;
    }
    NextBit(x, n, y);
  }

  /** From the bits of `y` to those of `y / 2`. */
  lemma NextBit(x: nat, n: nat, y: nat)
    requires forall j: nat :: BitOf(x, n + j) == BitOf(y, j)
    ensures BitOf(x, n) <==> y % 2 == 1
    ensures forall j: nat :: BitOf(x, n + 1 + j) == BitOf(y / 2, j)
  {
    assert BitOf(x, n + 0) == BitOf(y, 0);
    forall j: nat ensures BitOf(x, n + 1 + j) == BitOf(y / 2, j) {
      assert BitOf(x, n + (1 + j)) == BitOf(y, 1 + j);
    }
  }

  // ---- Bits of one block ----

  function U64At(b: Block, w: nat): (v: nat)
    requires w < 64
    ensures v <= U64_MAX
  {
    Pow256Values();
    Word(b, 8 * w, 8)
  }

  function SetU64(b: Block, w: nat, v: nat): (r: Block)
    requires w < 64 && v <= U64_MAX
    ensures U64At(r, w) == v
    ensures forall u :: 0 <= u < 64 && u != w ==> U64At(r, u) == U64At(b, u)
  {
    Pow256Values();
    var r: Block := SetWord(b, 8 * w, 8, v);
    WordOfSetWord(b, 8 * w, 8, v);
    assert forall u :: 0 <= u < 64 && u != w ==> U64At(r, u) == U64At(b, u) by {
      forall u | 0 <= u < 64 && u != w ensures U64At(r, u) == U64At(b, u) {
        OtherWordOfSetWord(b, 8 * w, 8, v, 8 * u, 8);
      }
    }
    r
  }

  predicate BlockBit(b: Block, j: nat)
    requires j < BLOCK_BITS
  {
    BitOf(U64At(b, j / 64), j % 64)
  }

  lemma BlockSetBit(b: Block, j: nat, r: Block, k: nat)
    requires j < BLOCK_BITS && k < BLOCK_BITS && !BlockBit(b, j)
    requires U64At(b, j / 64) + Pow2(j % 64) <= U64_MAX
    requires r == SetU64(b, j / 64, U64At(b, j / 64) + Pow2(j % 64))
    ensures BlockBit(r, k) <==> k == j || BlockBit(b, k)
  {
    if k / 64 == j / 64 {
      AddClearBit(U64At(b, j / 64), j % 64, k % 64);
    }
  }

  lemma BlockClearBit(b: Block, j: nat, r: Block, k: nat)
    requires j < BLOCK_BITS && k < BLOCK_BITS && BlockBit(b, j)
    requires U64At(b, j / 64) >= Pow2(j % 64)
    requires r == SetU64(b, j / 64, U64At(b, j / 64) - Pow2(j % 64))
    ensures BlockBit(r, k) <==> k != j && BlockBit(b, k)
  {
    if k / 64 == j / 64 {
      SubSetBit(U64At(b, j / 64), j % 64, k % 64);
    }
  }

  lemma ZeroBlockBits(j: nat)
    requires j < BLOCK_BITS
    ensures !BlockBit(ZeroBlock(), j)
  {
    DecodeZeros(ZeroBlock()[8 * (j / 64)..8 * (j / 64) + 8]);
    ZeroBits(j % 64);
  }

  lemma {:induction false} ZeroBits(i: nat)
    ensures !BitOf(0, i)
  {
    if i > 0 { ZeroBits(i - 1); }
  }

  /** The first clear bit of a block, as the closure in `alloc` finds it: the first
      word that is not all ones, then that word's trailing ones. */
  method FirstClear(b: Block) returns (found: bool, j: nat)
    ensures found ==> j < BLOCK_BITS && !BlockBit(b, j) && forall i :: 0 <= i < j ==> BlockBit(b, i)
    ensures !found ==> forall i :: 0 <= i < BLOCK_BITS ==> BlockBit(b, i)
  {
    var w := 0;
    while w < 64 && U64At(b, w) == U64_MAX
      invariant w <= 64
      invariant forall i :: 0 <= i < 64 * w ==> BlockBit(b, i)
    {
      forall i | 64 * w <= i < 64 * (w + 1) ensures BlockBit(b, i) {
        Pow2Of64();
        OnesBits(64, i % 64);
      }
      w := w + 1;
    }
    if w == 64 {
      return false, 0;
    }
    var n := TrailingOnes(U64At(b, w));
    found, j := true, 64 * w + n;
    assert j / 64 == w && j % 64 == n;
    forall i | 64 * w <= i < j ensures BlockBit(b, i) {
      assert i / 64 == w && i % 64 == i - 64 * w;
    }
  }

  /** Bits below 8 are those of the lowest byte, the others those of the rest. */
  lemma {:induction false} LowBit(a: nat, r: nat, n: nat, k: nat)
    requires a < Pow2(n)
    ensures BitOf(a + Pow2(n) * r, k) <==> if k < n then BitOf(a, k) else BitOf(r, k - n)
    decreases n
  {
    if n == 0 {
      assert a + Pow2(0) * r == r;
    } else {
      assert Pow2(n) * r == 2 * (Pow2(n - 1) * r);
      assert (a + Pow2(n) * r) / 2 == a / 2 + Pow2(n - 1) * r && (a + Pow2(n) * r) % 2 == a % 2;
      if k > 0 {
        LowBit(a / 2, r, n - 1, k - 1);
      }
    }
  }

  lemma {:induction false} BitInByte(s: seq<Byte>, k: nat)
    requires k < 8 * |s|
    ensures BitOf(Decode(s), k) <==> BitOf(s[k / 8], k % 8)
    decreases |s|
  {
    assert Pow2(8) == 256 by { assert Pow2(4) == 16; }
    LowBit(s[0], Decode(s[1..]), 8, k);
    if k >= 8 {
      BitInByte(s[1..], k - 8);
      assert s[1..][(k - 8) / 8] == s[k / 8];
    }
  }

  lemma {:induction false} BitIs(x: nat, i: nat)
    ensures BitOf(x, i) <==> x / Pow2(i) % 2 == 1
  {
    if i > 0 {
      BitIs(x / 2, i - 1);
      DivideTwice(x, 2, Pow2(i - 1));
    }
  }

  /** On the disk: bit `j` of a block is bit `j % 8` of its byte `j / 8`. */
  lemma BlockBitIs(b: Block, j: nat)
    requires j < BLOCK_BITS
    ensures BlockBit(b, j) <==> b[j / 8] / Pow2(j % 8) % 2 == 1
  {
    hide BitOf, Decode, Pow2;
    ByteOfBit(j);
    BitInWord(b, j / 64, j % 64);
    BitIs(b[j / 8], j % 8);
  }

  lemma ByteOfBit(j: nat)
    ensures 8 * (j / 64) + j % 64 / 8 == j / 8 && j % 64 % 8 == j % 8
  {
    assert j == 64 * (j / 64) + j % 64;
  }

  lemma BitInWord(b: Block, w: nat, k: nat)
    requires w < 64 && k < 64
    ensures BitOf(U64At(b, w), k) <==> BitOf(b[8 * w + k / 8], k % 8)
  {
    hide BitOf, Decode;
    BitInByte(b[8 * w..8 * w + 8], k);
  }

  // ---- A whole bitmap ----

  datatype Bitmap = Bitmap(start: nat, blocks: nat) {
    function Maximum(): (m: nat) {
      blocks * BLOCK_BITS
    }

    /** Which block, word and bit of the bitmap holds bit number `bit`. */
    static function Decomposition(bit: nat): (r: (nat, nat, nat))
      ensures r.1 < 64 && r.2 < 64
      ensures bit == r.0 * BLOCK_BITS + r.1 * 64 + r.2
    {
      (bit / BLOCK_BITS, bit % BLOCK_BITS / 64, bit % BLOCK_BITS % 64)
    }

    predicate InDisk(d: Disk) {
      start + blocks <= |d|
    }

    predicate IsSet(d: Disk, bit: nat)
      requires InDisk(d) && bit < Maximum()
    {
      BlockBit(d[start + bit / BLOCK_BITS], bit % BLOCK_BITS)
    }

    ghost function Used(d: Disk): (s: set<nat>)
      requires InDisk(d)
      ensures forall bit :: bit in s <==> 0 <= bit < Maximum() && IsSet(d, bit)
    {
      set bit: nat | bit < Maximum() && IsSet(d, bit)
    }
  }

  /** The bitmap only looks at its own blocks. */
  lemma UsedFrame(bm: Bitmap, d: Disk, d2: Disk)
    requires bm.InDisk(d) && |d2| == |d|
    requires forall i :: bm.start <= i < bm.start + bm.blocks ==> d2[i] == d[i]
    ensures bm.Used(d2) == bm.Used(d)
  {
  }

  lemma UsedAfterBlockUpdate(bm: Bitmap, d: Disk, bit: nat, r: Block, on: bool)
    requires bm.InDisk(d) && bit < bm.Maximum()
    requires forall k :: 0 <= k < BLOCK_BITS ==>
               (BlockBit(r, k) <==> if k == bit % BLOCK_BITS then on else BlockBit(d[bm.start + bit / BLOCK_BITS], k))
    ensures on ==> bm.Used(d[bm.start + bit / BLOCK_BITS := r]) == bm.Used(d) + {bit}
    ensures !on ==> bm.Used(d[bm.start + bit / BLOCK_BITS := r]) == bm.Used(d) - {bit}
  {
    var d2 := d[bm.start + bit / BLOCK_BITS := r];
    forall x: nat | x < bm.Maximum()
      ensures bm.IsSet(d2, x) <==> if x == bit then on else bm.IsSet(d, x)
    {
      if x / BLOCK_BITS == bit / BLOCK_BITS && x % BLOCK_BITS == bit % BLOCK_BITS {
        assert x == bit;
      }
    }
  }

  ghost predicate LowestClear(used: set<nat>, bit: nat) {
    bit !in used && forall i :: 0 <= i < bit ==> i in used
  }

  /** First fit keeps allocations dense: the lowest clear bit is at most the number
      of set bits, so it stays inside any area larger than the number in use. */
  lemma FirstFitBound(used: set<nat>, bit: nat)
    requires LowestClear(used, bit)
    ensures bit <= |used| && bit !in used
  {
    assert Range(0, bit) <= used;
    SubsetCard(Range(0, bit), used);
  }

  lemma {:induction false} SubsetCard(a: set<nat>, b: set<nat>)
    requires a <= b
    ensures |a| <= |b|
    ensures a != b ==> |a| < |b|
  {
    if a != {} {
      var x :| x in a;
      SubsetCard(a - {x}, b - {x});
    }
  }

  lemma BlockUsed(bm: Bitmap, d: Disk, k: nat, b: Block, n: nat)
    requires bm.InDisk(d) && k < bm.blocks && n <= BLOCK_BITS && b == d[bm.start + k]
    requires forall i :: 0 <= i < n ==> BlockBit(b, i)
    ensures forall i :: k * BLOCK_BITS <= i < k * BLOCK_BITS + n ==> i in bm.Used(d)
  {
    forall i | k * BLOCK_BITS <= i < k * BLOCK_BITS + n ensures i in bm.Used(d) {
      SplitBit(k, i - k * BLOCK_BITS);
      assert BlockBit(b, i - k * BLOCK_BITS);
      assert bm.IsSet(d, i);
    }
  }

  lemma AllocInBlock(bm: Bitmap, d: Disk, k: nat, b: Block, j: nat, r: Block)
    requires bm.InDisk(d) && k < bm.blocks && j < BLOCK_BITS && b == d[bm.start + k]
    requires forall i :: 0 <= i < k * BLOCK_BITS ==> i in bm.Used(d)
    requires !BlockBit(b, j)
    requires forall i :: 0 <= i < j ==> BlockBit(b, i)
    requires forall i :: 0 <= i < BLOCK_BITS ==> (BlockBit(r, i) <==> i == j || BlockBit(b, i))
    ensures k * BLOCK_BITS + j < bm.Maximum()
    ensures LowestClear(bm.Used(d), k * BLOCK_BITS + j)
    ensures bm.Used(d[bm.start + k := r]) == bm.Used(d) + {k * BLOCK_BITS + j}
  {
    var bit := k * BLOCK_BITS + j;
    SplitBit(k, j);
    BlockUsed(bm, d, k, b, j);
    assert bit !in bm.Used(d);
    UsedAfterBlockUpdate(bm, d, bit, r, true);
  }

  ghost predicate Exhausted(bm: Bitmap, d: Disk)
    requires bm.InDisk(d)
  {
    forall i :: 0 <= i < bm.Maximum() ==> i in bm.Used(d)
  }

  method Alloc(bm: Bitmap, c: BlockCacheManager) returns (found: bool, bit: nat)
    requires c.Valid() && |c.pins| < BLOCK_CACHE_SIZE && bm.InDisk(c.view)
    modifies c
    ensures c.Valid() && c.pins == old(c.pins) && |c.view| == old(|c.view|)
    ensures found <==> !Exhausted(bm, old(c.view))
    ensures found ==> bit < bm.Maximum() && LowestClear(bm.Used(old(c.view)), bit)
    ensures found ==> bm.Used(c.view) == bm.Used(old(c.view)) + {bit}
    ensures !found ==> c.view == old(c.view)
    ensures SameOutside(old(c.view), c.view, bm.start, bm.start + bm.blocks)
  {
    hide BlockCacheManager.Valid, Bitmap.Used, Bitmap.IsSet, BlockBit, LowestClear;
    ghost var d := c.view;
    var k := 0;
    while k < bm.blocks
      invariant k <= bm.blocks
      invariant c.Valid() && c.pins == old(c.pins) && c.view == d
      invariant forall i :: 0 <= i < k * BLOCK_BITS ==> i in bm.Used(d)
    {
      var b := c.ReadBlock(bm.start + k);
      var j;
      found, j := FirstClear(b);
      if found {
        bit := k * BLOCK_BITS + j;
        var r := SetInBlock(b, j);
        AllocInBlock(bm, d, k, b, j, r);
        c.WriteBlock(bm.start + k, r);
        return;
      }
      BlockUsed(bm, d, k, b, BLOCK_BITS);
      k := k + 1;
    }
    found, bit := false, 0;
  }

  lemma SplitBit(k: nat, j: nat)
    requires j < BLOCK_BITS
    ensures (k * BLOCK_BITS + j) / BLOCK_BITS == k && (k * BLOCK_BITS + j) % BLOCK_BITS == j
  {
  }

  method SetInBlock(b: Block, j: nat) returns (r: Block)
    requires j < BLOCK_BITS && !BlockBit(b, j)
    ensures forall k :: 0 <= k < BLOCK_BITS ==> (BlockBit(r, k) <==> k == j || BlockBit(b, k))
  {
    Pow2Of64();
    AddBitBound(U64At(b, j / 64), j % 64, 64);
    r := SetU64(b, j / 64, U64At(b, j / 64) + Pow2(j % 64));
    forall k | 0 <= k < BLOCK_BITS ensures BlockBit(r, k) <==> k == j || BlockBit(b, k) {
      BlockSetBit(b, j, r, k);
    }
  }

  method ClearInBlock(b: Block, j: nat) returns (r: Block)
    requires j < BLOCK_BITS && BlockBit(b, j)
    ensures forall k :: 0 <= k < BLOCK_BITS ==> (BlockBit(r, k) <==> k != j && BlockBit(b, k))
  {
    SubSetBit(U64At(b, j / 64), j % 64, 0);
    r := SetU64(b, j / 64, U64At(b, j / 64) - Pow2(j % 64));
    forall k | 0 <= k < BLOCK_BITS ensures BlockBit(r, k) <==> k != j && BlockBit(b, k) {
      BlockClearBit(b, j, r, k);
    }
  }

  /** Freeing a bit that is clear is the failed assertion of the original. */
  method Dealloc(bm: Bitmap, c: BlockCacheManager, bit: nat)
    requires c.Valid() && |c.pins| < BLOCK_CACHE_SIZE && bm.InDisk(c.view)
    requires bit in bm.Used(c.view)
    modifies c
    ensures c.Valid() && c.pins == old(c.pins) && |c.view| == old(|c.view|)
    ensures bm.Used(c.view) == bm.Used(old(c.view)) - {bit}
    ensures SameOutside(old(c.view), c.view, bm.start, bm.start + bm.blocks)
  {
    var (k, w, i) := Bitmap.Decomposition(bit);
    SplitBit(k, 64 * w + i);
    var b := c.ReadBlock(bm.start + k);
    var r := ClearInBlock(b, 64 * w + i);
    UsedAfterBlockUpdate(bm, c.view, bit, r, false);
    c.WriteBlock(bm.start + k, r);
  }

  /** Freeing what was just allocated restores the set of used bits exactly. */
  method AllocThenDealloc(bm: Bitmap, c: BlockCacheManager) returns (found: bool)
    requires c.Valid() && |c.pins| < BLOCK_CACHE_SIZE && bm.InDisk(c.view)
    modifies c
    ensures c.Valid() && |c.view| == old(|c.view|) && bm.Used(c.view) == bm.Used(old(c.view))
  {
    var bit;
    found, bit := Alloc(bm, c);
    if found {
      Dealloc(bm, c, bit);
    }
  }
}
