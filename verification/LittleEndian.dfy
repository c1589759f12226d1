/**
 * Bytes and little-endian words.
 *
 * Every on-disk and in-memory structure of the system is a reinterpretation of
 * raw bytes on a little-endian machine: index blocks are arrays of u32, bitmap
 * blocks arrays of u64, page tables arrays of u64, log headers u16 and u32.
 */
module LittleEndian {

  type Byte = x: int | 0 <= x < 256

  type U32 = x: int | 0 <= x < 0x1_0000_0000

  function Zeros(n: nat): (s: seq<Byte>)
    ensures |s| == n && forall i :: 0 <= i < n ==> s[i] == 0
  {
    seq(n, i => 0)
  }

  function Pow256(n: nat): (p: nat)
    ensures p > 0
  {
    if n == 0 then 1 else 256 * Pow256(n - 1)
  }

  lemma Pow256Values()
    ensures Pow256(1) == 0x100
    ensures Pow256(2) == 0x1_0000
    ensures Pow256(4) == 0x1_0000_0000
    ensures Pow256(8) == 0x1_0000_0000_0000_0000
  {
    assert Pow256(3) == 256 * Pow256(2);
    assert Pow256(5) == 256 * Pow256(4);
    assert Pow256(6) == 256 * Pow256(5);
    assert Pow256(7) == 256 * Pow256(6);
  }

  /** `n` little-endian bytes of `v`. */
  function Encode(v: nat, n: nat): (s: seq<Byte>)
    ensures |s| == n
  {
    if n == 0 then [] else [v % 256] + Encode(v / 256, n - 1)
  }

  /** The lowest byte comes first. */
  lemma {:induction false} EncodeAt(v: nat, n: nat, i: nat)
    requires i < n
    ensures Encode(v, n)[i] == v / Pow256(i) % 256
  {
    if i > 0 {
      EncodeAt(v / 256, n - 1, i - 1);
      DivideTwice(v, 256, Pow256(i - 1));
    }
  }

  lemma DivideTwice(a: nat, b: nat, c: nat)
    requires b > 0 && c > 0
    ensures b * c > 0 && a / b / c == a / (b * c)
  {
    Remainder(a, b);
    Remainder(a / b, c);
    FromQuotients(a, b, c, a / b, a / b / c, a / b % c, a % b);
  }

  lemma Remainder(a: nat, b: nat)
    requires b > 0
    ensures a == a / b * b + a % b && 0 <= a % b < b
  {
  }

  lemma FromQuotients(a: nat, b: nat, c: nat, x: nat, q: nat, r: nat, t: nat)
    requires b > 0 && c > 0 && a == x * b + t && t < b && x == q * c + r && r < c
    ensures b * c > 0 && a / (b * c) == q
  {
    Recompose(q, c, r, b);
    Less(r, c, b);
    Less(0, c, b);
    QuotientIs(a, b * c, q, r * b + t);
  }

  lemma Recompose(q: nat, c: nat, r: nat, b: nat)
    ensures (q * c + r) * b == q * (b * c) + r * b
  {
  }

  lemma Less(r: nat, c: nat, b: nat)
    requires r < c
    ensures r * b + b <= b * c
  {
    assert (r + 1) * b <= c * b;
  }

  lemma QuotientIs(a: nat, d: nat, q: nat, r: nat)
    requires d > 0 && a == q * d + r && r < d
    ensures a / d == q
  {
    Remainder(a, d);
    OneQuotient(d, q, r, a / d, a % d);
  }

  lemma OneQuotient(d: nat, q: nat, r: nat, p: nat, t: nat)
    requires q * d + r == p * d + t && r < d && t < d
    ensures p == q
  {
    if p < q {
      Less(p, q, d);
    } else if q < p {
      Less(q, p, d);
    }
  }

  function Decode(s: seq<Byte>): (v: nat)
    ensures v < Pow256(|s|)
  {
    if s == [] then 0 else s[0] + 256 * Decode(s[1..])
  }

  lemma {:induction false} DecodeEncode(v: nat, n: nat)
    requires v < Pow256(n)
    ensures Decode(Encode(v, n)) == v
  {
    if n != 0 {
      DecodeEncode(v / 256, n - 1);
      assert Encode(v, n)[1..] == Encode(v / 256, n - 1);
    }
  }

  lemma SplitLow(b: Byte, rest: nat)
    ensures (b + 256 * rest) % 256 == b && (b + 256 * rest) / 256 == rest
  {
  }

  lemma {:induction false} EncodeDecode(s: seq<Byte>)
    ensures Encode(Decode(s), |s|) == s
  {
    if s != [] {
      var rest := Decode(s[1..]);
      EncodeDecode(s[1..]);
      SplitLow(s[0], rest);
      assert s == [s[0]] + s[1..];
    }
  }

  lemma {:induction false} DecodeZeros(s: seq<Byte>)
    requires forall i :: 0 <= i < |s| ==> s[i] == 0
    ensures Decode(s) == 0
  {
    if s != [] {
      DecodeZeros(s[1..]);
    }
  }

  /** Four bytes, the lowest first. */
  function Number(a: int, b: int, c: int, d: int): int { a + 0x100 * b + 0x1_0000 * c + 0x100_0000 * d }

  /** A number of eight bytes, written out. */
  lemma DecodeEight(s: seq<Byte>)
    requires |s| == 8
    ensures Decode(s) == Number(s[0], s[1], s[2], s[3]) + 0x1_0000_0000 * Number(s[4], s[5], s[6], s[7])
  {
    assert Decode(s[6..]) == s[6] + 256 * Decode(s[6..][1..]) && s[6..][1..] == [s[7]];
    assert Decode([s[7]]) == s[7] + 256 * Decode([s[7]][1..]);
    assert forall i :: 0 <= i < 6 ==> s[i..][1..] == s[i + 1..];
    assert Decode(s[5..]) == s[5] + 256 * Decode(s[6..]);
    assert Decode(s[4..]) == s[4] + 256 * Decode(s[5..]);
    assert Decode(s[3..]) == s[3] + 256 * Decode(s[4..]);
    assert Decode(s[2..]) == s[2] + 256 * Decode(s[3..]);
    assert Decode(s[1..]) == s[1] + 256 * Decode(s[2..]);
  }

  /** The `w`-byte word that starts at byte `off` of `b`. */
  function Word(b: seq<Byte>, off: nat, w: nat): (v: nat)
    requires off + w <= |b|
    ensures v < Pow256(w)
  {
    Decode(b[off..off + w])
  }

  /** `b` with the `w`-byte word at byte `off` overwritten by `v`. */
  function SetWord(b: seq<Byte>, off: nat, w: nat, v: nat): (r: seq<Byte>)
    requires off + w <= |b|
    ensures |r| == |b|
  {
    b[..off] + Encode(v, w) + b[off + w..]
  }

  lemma WordOfSetWord(b: seq<Byte>, off: nat, w: nat, v: nat)
    requires off + w <= |b| && v < Pow256(w)
    ensures Word(SetWord(b, off, w, v), off, w) == v
  {
    assert SetWord(b, off, w, v)[off..off + w] == Encode(v, w);
    DecodeEncode(v, w);
  }

  lemma OtherWordOfSetWord(b: seq<Byte>, off: nat, w: nat, v: nat, off2: nat, w2: nat)
    requires off + w <= |b| && off2 + w2 <= |b|
    requires off2 + w2 <= off || off + w <= off2
    ensures Word(SetWord(b, off, w, v), off2, w2) == Word(b, off2, w2)
  {
    assert SetWord(b, off, w, v)[off2..off2 + w2] == b[off2..off2 + w2];
  }
}
