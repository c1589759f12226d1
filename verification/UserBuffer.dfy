/**
 * User buffers: a range of user addresses as a list of slices of physical pages.
 */
module UserBuffers {
  import opened Basics
  import opened LittleEndian
  import opened PhysMemory
  import opened Sv39

  /** First address that is not in the lower half of the 39-bit address space. */
  const HALF := 0x40_0000_0000
  const VA_LIMIT := 0x80_0000_0000
  const USIZE_LIMIT := 0x1_0000_0000_0000_0000

  /** Bytes `lo .. hi` of page `ppn`. */
  datatype Slice = Slice(ppn: nat, lo: nat, hi: nat)

  /** `usize::from(VirtAddr)`: addresses of the upper half are sign-extended. */
  function ToUsize(va: nat): nat {
    if va >= HALF then va + (USIZE_LIMIT - VA_LIMIT) else va
  }

  function PageOf(m: Mem, root: nat, va: nat): nat
    requires va < VA_LIMIT
  {
    match Translate(m, root, va / PAGE_SIZE)
    case None => 0
    case Some(e) => PpnOf(e)
  }

  /** The byte a user sees at `va`. */
  function VirtByte(m: Mem, root: nat, va: nat): Byte
    requires va < VA_LIMIT && PageOf(m, root, va) < |m|
  {
    m[PageOf(m, root, va)][va % PAGE_SIZE]
  }

  /** It is the byte the hardware goes to. */
  lemma VirtIsHardware(m: Mem, root: nat, frames: set<nat>, va: nat)
    requires TableInv(m, root, frames) && root < PPN_LIMIT && va < VA_LIMIT
    requires HardwareTranslate(m, Token(root), va / 4096).Some?
    ensures var p := HardwareTranslate(m, Token(root), va / 4096).value.ppn;
            PageOf(m, root, va) == p && (p < |m| ==> VirtByte(m, root, va) == m[p][va % 4096])
  {
    hide TableInv, HardwareTranslate, Token, Translate;
    HardwareSees(m, root, frames, va / 4096);
  }

  /** Every page of the range has an entry (else the `unwrap` fails) that points into memory. */
  ghost predicate Reachable(m: Mem, root: nat, lo: nat, hi: nat)
    requires hi <= VA_LIMIT
  {
    forall va :: lo <= va < hi ==> Translate(m, root, va / PAGE_SIZE).Some? && PageOf(m, root, va) < |m|
  }

  ghost function VirtBytes(m: Mem, root: nat, lo: nat, hi: nat): (s: seq<Byte>)
    requires lo <= hi <= VA_LIMIT && Reachable(m, root, lo, hi)
    ensures |s| == hi - lo
  {
    seq<Byte>(hi - lo, (i: nat) requires i < hi - lo => assert lo <= lo + i < hi; VirtByte(m, root, lo + i))
  }

  ghost predicate SlicesOk(m: Mem, v: seq<Slice>) {
    forall i :: 0 <= i < |v| ==> v[i].ppn < |m| && v[i].lo < v[i].hi <= PAGE_SIZE
  }

  ghost function SliceBytes(m: Mem, s: Slice): seq<Byte>
    requires s.ppn < |m| && s.lo < s.hi <= PAGE_SIZE
  {
    m[s.ppn][s.lo..s.hi]
  }

  ghost function Flatten(m: Mem, v: seq<Slice>): seq<Byte>
    requires SlicesOk(m, v)
    decreases |v|
  {
    if v == [] then [] else Flatten(m, v[..|v| - 1]) + SliceBytes(m, v[|v| - 1])
  }

  function TotalLen(v: seq<Slice>): int {
    if v == [] then 0 else TotalLen(v[..|v| - 1]) + (v[|v| - 1].hi - v[|v| - 1].lo)
  }

  /** The places of the bytes `lo .. hi`. */
  ghost function VirtPlaces(m: Mem, root: nat, lo: nat, hi: nat): (ps: seq<Place>)
    requires lo <= hi <= VA_LIMIT
    ensures |ps| == hi - lo
  {
    seq(hi - lo, (i: nat) requires i < hi - lo => Place(PageOf(m, root, lo + i), (lo + i) % PAGE_SIZE))
  }

  // ---- Which buffers can be translated ----

  /** An address that is the sign extension of its low 39 bits. */
  predicate Canonical(p: nat) {
    p < HALF || ToUsize(HALF) <= p < USIZE_LIMIT
  }

  /** Where the next pass of the loop starts. */
  function NextStart(start: nat, end: nat): nat {
    ToUsize(Min((start % VA_LIMIT / PAGE_SIZE + 1) * PAGE_SIZE, end % VA_LIMIT))
  }

  /** Where the loop stands after at most `n` passes. */
  function Passes(start: nat, end: nat, n: nat): nat
    decreases n
  {
    if n == 0 || start >= end then start else Passes(NextStart(start, end), end, n - 1)
  }

  predicate Ends(end: nat) {
    end < VA_LIMIT || end % VA_LIMIT >= HALF
  }

  /** The first address, of 39 bits, that is not translated. */
  function Stop(end: nat): (stop: nat)
    ensures stop < VA_LIMIT
  {
    if end <= ToUsize(HALF) then Min(end, HALF) else end % VA_LIMIT
  }

  /** One pass from an address the loop has not left behind. */
  lemma Progress(covered: nat, end: nat)
    requires Ends(end) && end < USIZE_LIMIT && covered <= Stop(end) && ToUsize(covered) < end
    ensures covered < VA_LIMIT && ToUsize(covered) % VA_LIMIT == covered
    ensures var next := Min((covered / PAGE_SIZE + 1) * PAGE_SIZE, end % VA_LIMIT);
            && covered < next <= Stop(end) && NextStart(ToUsize(covered), end) == ToUsize(next)
  {
    if end < VA_LIMIT {
      assert covered < HALF;
    } else if end > ToUsize(HALF) {
      assert end % VA_LIMIT == end - (USIZE_LIMIT - VA_LIMIT);
    } else {
      assert covered < HALF;
    }
    PageEnd(covered);
  }

  lemma PageEnd(va: nat)
    ensures va < (va / PAGE_SIZE + 1) * PAGE_SIZE
    ensures va < HALF ==> (va / PAGE_SIZE + 1) * PAGE_SIZE <= HALF
  {
  }

  lemma StopIs(covered: nat, end: nat)
    requires Ends(end) && end < USIZE_LIMIT && covered <= Stop(end) && ToUsize(covered) >= end
    ensures covered == Stop(end)
  {
    if end > ToUsize(HALF) {
      assert end % VA_LIMIT == end - (USIZE_LIMIT - VA_LIMIT);
    }
  }

  lemma {:induction false} Reaches(covered: nat, end: nat) returns (n: nat)
    requires Ends(end) && end < USIZE_LIMIT && covered <= Stop(end)
    ensures Passes(ToUsize(covered), end, n) >= end
    decreases Stop(end) - covered
  {
    hide Stop, Ends, ToUsize, NextStart;
    if ToUsize(covered) >= end {
      n := 0;
    } else {
      Progress(covered, end);
      var next := Min((covered / PAGE_SIZE + 1) * PAGE_SIZE, end % VA_LIMIT);
      n := Reaches(next, end);
      n := n + 1;
    }
  }

  lemma {:induction false} NeverEnds(start: nat, end: nat, n: nat)
    requires !Ends(end) && start < HALF
    ensures Passes(start, end, n) < HALF
    decreases n
  {
    if n > 0 {
      NeverEnds(NextStart(start, end), end, n - 1);
    }
  }

  /** The loop ends exactly for an end of at most 39 bits or one that looks like an address
      of the upper half. */
  lemma EndsIff(ptr: nat, end: nat)
    requires Canonical(ptr) && ptr < end < USIZE_LIMIT
    ensures (exists n: nat :: Passes(ptr, end, n) >= end) <==> Ends(end)
  {
    if Ends(end) {
      StartBelow(ptr, end);
      var n := Reaches(ptr % VA_LIMIT, end);
    } else {
      forall n: nat ensures Passes(ptr, end, n) < end {
        assert ptr < HALF;
        NeverEnds(ptr, end, n);
      }
    }
  }

  lemma StartBelow(ptr: nat, end: nat)
    requires Canonical(ptr) && ptr <= end < USIZE_LIMIT && (Ends(end) || ptr == end)
    ensures ptr % VA_LIMIT <= Stop(end) && ToUsize(ptr % VA_LIMIT) == ptr
    ensures ptr < HALF ==> ptr % VA_LIMIT == ptr
    ensures Stop(end) - ptr % VA_LIMIT == end - ptr <==> end <= HALF || ptr >= ToUsize(HALF)
  {
    if ptr >= HALF {
      assert ptr % VA_LIMIT == ptr - (USIZE_LIMIT - VA_LIMIT);
      assert end % VA_LIMIT == end - (USIZE_LIMIT - VA_LIMIT);
    } else if end > ToUsize(HALF) {
      assert end % VA_LIMIT == end - (USIZE_LIMIT - VA_LIMIT);
    }
  }

  /** A length of 2^39 from 0x10000 on: every pass stays where it was. */
  lemma {:induction false} StandsStill(n: nat)
    ensures Passes(0x1_0000, 0x1_0000 + VA_LIMIT, n) == 0x1_0000
    decreases n
  {
    if n > 0 {
      assert NextStart(0x1_0000, 0x1_0000 + VA_LIMIT) == 0x1_0000;
      StandsStill(n - 1);
    }
  }

  /** `translated_byte_buffer`: the slices are nonempty, and together they are the user's
      bytes from `ptr` on, in order.  They are `len` bytes exactly when the range stays in one
      half; one that leaves the lower half is cut there, unless its end is an address of the
      upper half, up to which it then goes on. */
  method TranslatedByteBuffer(m: Mem, root: nat, ptr: nat, len: nat) returns (v: seq<Slice>)
    requires Canonical(ptr) && ptr + len < USIZE_LIMIT && (Ends(ptr + len) || len == 0)
    requires Reachable(m, root, ptr % VA_LIMIT, Stop(ptr + len))
    ensures SlicesOk(m, v)
    ensures ptr % VA_LIMIT <= Stop(ptr + len)
    ensures Flatten(m, v) == VirtBytes(m, root, ptr % VA_LIMIT, Stop(ptr + len))
    ensures NonEmpty(v) && Places(v) == VirtPlaces(m, root, ptr % VA_LIMIT, Stop(ptr + len))
    ensures TotalLen(v) == Stop(ptr + len) - ptr % VA_LIMIT
    ensures TotalLen(v) == len <==> ptr + len <= HALF || ptr >= ToUsize(HALF)
  {
    hide Translate, Flatten, TotalLen, VirtBytes, Stop, Ends, ToUsize, NextStart, Reachable, Places, VirtPlaces;
    var start := ptr;
    var end := ptr + len;
    v := [];
    ghost var lo, covered := ptr % VA_LIMIT, ptr % VA_LIMIT;
    StartBelow(ptr, end);
    NothingYet(m, root, lo);
    while start < end
      invariant lo <= covered <= Stop(end) && start == ToUsize(covered)
      invariant SlicesOk(m, v) && Reachable(m, root, lo, covered)
      invariant Flatten(m, v) == VirtBytes(m, root, lo, covered) && TotalLen(v) == covered - lo
      invariant NonEmpty(v) && Places(v) == VirtPlaces(m, root, lo, covered)
      decreases Stop(end) - covered
    {
      Progress(covered, end);
      var startVa := start % VA_LIMIT;
      var vpn := startVa / PAGE_SIZE;
      ReachesPage(m, root, lo, Stop(end), covered);
      var pte := Translate(m, root, vpn);
      var ppn := PpnOf(pte.value);
      vpn := vpn + 1;
      var endVa := vpn * PAGE_SIZE;
      if endVa > end % VA_LIMIT { endVa := end % VA_LIMIT; }
      var slice := if endVa % PAGE_SIZE == 0 then Slice(ppn, startVa % PAGE_SIZE, PAGE_SIZE)
                   else Slice(ppn, startVa % PAGE_SIZE, endVa % PAGE_SIZE);
      ReachesPart(m, root, lo, Stop(end), covered, endVa);
      OnePage(m, root, lo, v, covered, endVa, slice);
      OnePagePlaces(m, root, lo, v, covered, endVa, slice);
      v := v + [slice];
      covered := endVa;
      start := ToUsize(endVa);
    }
    if len > 0 {
      StopIs(covered, end);
    }
  }

  lemma ReachesPage(m: Mem, root: nat, lo: nat, hi: nat, va: nat)
    requires lo <= va < hi <= VA_LIMIT && Reachable(m, root, lo, hi)
    ensures Translate(m, root, va / PAGE_SIZE).Some?
    ensures PageOf(m, root, va) == PpnOf(Translate(m, root, va / PAGE_SIZE).value)
  {
    hide Translate;
  }

  lemma ReachesPart(m: Mem, root: nat, lo: nat, hi: nat, a: nat, b: nat)
    requires lo <= a <= b <= hi <= VA_LIMIT && Reachable(m, root, lo, hi)
    ensures Reachable(m, root, a, b)
  {
    hide Translate, PageOf;
  }

  /** Two bytes from the last address of the lower half on, in a table that maps only the
      last page of the lower half: the buffer has one byte and nothing is reported. */
  method CutShort(ppn: nat, mem: PhysMem) returns (v: seq<Slice>)
    requires mem.Valid() && ppn < |mem.pages| <= PPN_LIMIT && mem.Free() >= 3
    modifies mem
    ensures ppn < |mem.pages| && SlicesOk(mem.pages, v) && TotalLen(v) == 1
    ensures Flatten(mem.pages, v) == [mem.pages[ppn][PAGE_SIZE - 1]]
  {
    hide PhysMem.Valid, PhysMem.Live, PhysMem.Free, Refines, Table1, Table2, PpnOf, FlagsOf, IsValid, WithV, Translate,
      TotalLen, Flatten;
    var pt := new PageTable(mem);
    var last := HALF / PAGE_SIZE - 1;
    pt.Map(last, ppn, 18, mem);
    var entry := pt.TranslateVpn(last, mem);
    assert last in pt.view && pt.view[last].ppn == ppn;
    assert forall va :: HALF - 1 <= va < HALF ==> va / PAGE_SIZE == last;
    v := TranslatedByteBuffer(mem.pages, pt.root, HALF - 1, 2);
    assert VirtBytes(mem.pages, pt.root, HALF - 1, HALF) == [VirtByte(mem.pages, pt.root, HALF - 1)];
  }

  lemma NothingYet(m: Mem, root: nat, ptr: nat)
    requires ptr <= VA_LIMIT
    ensures Reachable(m, root, ptr, ptr) && Flatten(m, []) == VirtBytes(m, root, ptr, ptr) && TotalLen([]) == 0
    ensures Places([]) == VirtPlaces(m, root, ptr, ptr)
  {
  }

  lemma OnePage(m: Mem, root: nat, ptr: nat, v: seq<Slice>, lo: nat, hi: nat, s: Slice)
    requires ptr <= lo < hi <= VA_LIMIT && Reachable(m, root, ptr, lo) && Reachable(m, root, lo, hi) && SlicesOk(m, v)
    requires hi <= (lo / PAGE_SIZE + 1) * PAGE_SIZE
    requires s.ppn == PageOf(m, root, lo) && s.lo == lo % PAGE_SIZE
    requires s.hi == if hi % PAGE_SIZE == 0 then PAGE_SIZE else hi % PAGE_SIZE
    requires Flatten(m, v) == VirtBytes(m, root, ptr, lo)
    ensures SlicesOk(m, v + [s]) && Reachable(m, root, ptr, hi)
    ensures Flatten(m, v + [s]) == VirtBytes(m, root, ptr, hi)
    ensures TotalLen(v + [s]) == TotalLen(v) + (hi - lo)
  {
    hide Translate;
    SliceSpan(lo, hi);
    assert (v + [s])[..|v|] == v;
    var b := SliceBytes(m, s);
    forall i | 0 <= i < hi - lo ensures b[i] == VirtByte(m, root, lo + i) {
      SamePage(lo, hi, i);
    }
    assert VirtBytes(m, root, ptr, hi) == VirtBytes(m, root, ptr, lo) + b;
  }

  lemma OnePagePlaces(m: Mem, root: nat, ptr: nat, v: seq<Slice>, lo: nat, hi: nat, s: Slice)
    requires ptr <= lo < hi <= VA_LIMIT && hi <= (lo / PAGE_SIZE + 1) * PAGE_SIZE
    requires s.ppn == PageOf(m, root, lo) && s.lo == lo % PAGE_SIZE
    requires s.hi == if hi % PAGE_SIZE == 0 then PAGE_SIZE else hi % PAGE_SIZE
    requires NonEmpty(v) && Places(v) == VirtPlaces(m, root, ptr, lo)
    ensures NonEmpty(v + [s]) && Places(v + [s]) == VirtPlaces(m, root, ptr, hi)
  {
    hide Translate, Places;
    SliceSpan(lo, hi);
    PlacesSnoc(v, s);
    var ps := SlicePlaces(s, 0);
    forall i | 0 <= i < hi - lo ensures ps[i] == Place(PageOf(m, root, lo + i), (lo + i) % PAGE_SIZE) {
      SamePage(lo, hi, i);
    }
    assert VirtPlaces(m, root, ptr, hi) == VirtPlaces(m, root, ptr, lo) + ps;
  }

  lemma SliceSpan(lo: nat, hi: nat)
    requires lo < hi <= (lo / PAGE_SIZE + 1) * PAGE_SIZE
    ensures (if hi % PAGE_SIZE == 0 then PAGE_SIZE else hi % PAGE_SIZE) - lo % PAGE_SIZE == hi - lo
  {
    assert lo == lo / PAGE_SIZE * PAGE_SIZE + lo % PAGE_SIZE;
    assert hi == hi / PAGE_SIZE * PAGE_SIZE + hi % PAGE_SIZE;
  }

  lemma SamePage(lo: nat, hi: nat, i: nat)
    requires lo < hi <= (lo / PAGE_SIZE + 1) * PAGE_SIZE && i < hi - lo
    ensures (lo + i) / PAGE_SIZE == lo / PAGE_SIZE && (lo + i) % PAGE_SIZE == lo % PAGE_SIZE + i
  {
  }

  // ---- Iterating ----

  /** A place in memory: page and offset. */
  datatype Place = Place(ppn: nat, off: nat)

  ghost predicate NonEmpty(v: seq<Slice>) {
    forall i :: 0 <= i < |v| ==> v[i].lo < v[i].hi
  }

  /** The places of one slice from its `j`-th byte on. */
  ghost function SlicePlaces(s: Slice, j: nat): (ps: seq<Place>)
    requires s.lo + j <= s.hi
    ensures |ps| == s.hi - s.lo - j
    ensures forall k :: 0 <= k < |ps| ==> ps[k] == Place(s.ppn, s.lo + j + k)
  {
    seq(s.hi - s.lo - j, (k: nat) => Place(s.ppn, s.lo + j + k))
  }

  /** The places of all slices, in order. */
  ghost function Places(v: seq<Slice>): seq<Place>
    requires NonEmpty(v)
  {
    if v == [] then [] else SlicePlaces(v[0], 0) + Places(v[1..])
  }

  lemma {:induction false} PlacesSnoc(w: seq<Slice>, s: Slice)
    requires NonEmpty(w) && s.lo < s.hi
    ensures NonEmpty(w + [s]) && Places(w + [s]) == Places(w) + SlicePlaces(s, 0)
  {
    if w == [] {
      assert w + [s] == [s];
      assert [s][1..] == [];
    } else {
      PlacesSnoc(w[1..], s);
      assert (w + [s])[1..] == w[1..] + [s];
    }
  }

  class UserBufferIterator {
    const buffers: seq<Slice>
    var currentBuffer: nat
    var currentIdx: nat

    ghost predicate Valid()
      reads this
    {
      && NonEmpty(buffers) && currentBuffer <= |buffers|
      && (currentBuffer < |buffers| ==> currentIdx < buffers[currentBuffer].hi - buffers[currentBuffer].lo)
    }

    /** The places still to be visited. */
    ghost function Rest(): seq<Place>
      reads this
      requires Valid()
    {
      RestFrom(buffers, currentBuffer, currentIdx)
    }

    constructor (v: seq<Slice>)
      requires NonEmpty(v)
      ensures Valid() && buffers == v && Rest() == Places(v)
    {
      buffers, currentBuffer, currentIdx := v, 0, 0;
    }

    /** `next`: the first place not visited yet, and none is skipped or repeated. */
    method Next() returns (r: Option<Place>)
      requires Valid()
      modifies this
      ensures Valid()
      ensures r.None? <==> old(Rest()) == []
      ensures r.None? ==> Rest() == []
      ensures r.Some? ==> old(Rest()) == [r.value] + Rest()
    {
      hide RestFrom;
      if currentBuffer >= |buffers| {
        RestIs(buffers, currentBuffer, currentIdx);
        return None;
      }
      var b := buffers[currentBuffer];
      r := Some(Place(b.ppn, b.lo + currentIdx));
      if currentIdx + 1 == b.hi - b.lo {
        RestAcross(buffers, currentBuffer, currentIdx);
        currentIdx := 0;
        currentBuffer := currentBuffer + 1;
      } else {
        RestInside(buffers, currentBuffer, currentIdx);
        currentIdx := currentIdx + 1;
      }
    }
  }

  /** The places from byte `j` of slice `i` on. */
  ghost function RestFrom(v: seq<Slice>, i: nat, j: nat): seq<Place>
    requires NonEmpty(v) && i <= |v| && (i < |v| ==> j < v[i].hi - v[i].lo)
  {
    if i == |v| then [] else SlicePlaces(v[i], j) + Places(v[i + 1..])
  }

  lemma RestInside(v: seq<Slice>, i: nat, j: nat)
    requires NonEmpty(v) && i < |v| && j + 1 < v[i].hi - v[i].lo
    ensures RestFrom(v, i, j) == [Place(v[i].ppn, v[i].lo + j)] + RestFrom(v, i, j + 1)
  {
    hide Places, SlicePlaces, RestFrom;
    RestIs(v, i, j);
    RestIs(v, i, j + 1);
    FirstPlace(v[i], j, Places(v[i + 1..]));
  }

  lemma RestAcross(v: seq<Slice>, i: nat, j: nat)
    requires NonEmpty(v) && i < |v| && j + 1 == v[i].hi - v[i].lo
    ensures RestFrom(v, i, j) == [Place(v[i].ppn, v[i].lo + j)] + RestFrom(v, i + 1, 0)
  {
    hide Places, SlicePlaces, RestFrom;
    RestIs(v, i, j);
    RestIsPlaces(v, i + 1);
    FirstPlace(v[i], j, Places(v[i + 1..]));
  }

  lemma RestIsPlaces(v: seq<Slice>, i: nat)
    requires NonEmpty(v) && i <= |v|
    ensures RestFrom(v, i, 0) == Places(v[i..])
  {
    hide Places, SlicePlaces;
    RestOfNext(v, i);
  }

  lemma RestIs(v: seq<Slice>, i: nat, j: nat)
    requires NonEmpty(v) && i <= |v| && (i < |v| ==> j < v[i].hi - v[i].lo)
    ensures i == |v| ==> RestFrom(v, i, j) == []
    ensures i < |v| ==> RestFrom(v, i, j) == SlicePlaces(v[i], j) + Places(v[i + 1..])
  {
    hide Places, SlicePlaces;
  }

  lemma FirstPlace(b: Slice, j: nat, tail: seq<Place>)
    requires b.lo + j < b.hi
    ensures SlicePlaces(b, j) + tail == [Place(b.ppn, b.lo + j)] + (SlicePlaces(b, j + 1) + tail)
    ensures j + 1 == b.hi - b.lo ==> SlicePlaces(b, j + 1) + tail == tail
  {
  }

  lemma RestOfNext(v: seq<Slice>, i: nat)
    requires NonEmpty(v) && i <= |v|
    ensures Places(v[i..]) == if i == |v| then [] else SlicePlaces(v[i], 0) + Places(v[i + 1..])
  {
    if i < |v| {
      assert v[i..][1..] == v[i + 1..];
    }
  }

  /** `UserBuffer::len`. */
  method BufferLen(v: seq<Slice>) returns (total: int)
    ensures total == TotalLen(v)
  {
    total := 0;
    var i := 0;
    while i < |v|
      invariant 0 <= i <= |v| && total == TotalLen(v[..i])
    {
      assert v[..i + 1][..i] == v[..i];
      total := total + (v[i].hi - v[i].lo);
      i := i + 1;
    }
    assert v[..i] == v;
  }

  /** The k-th place holds the k-th byte. */
  ghost predicate HoldBytes(m: Mem, ps: seq<Place>, bs: seq<Byte>) {
    && |ps| == |bs|
    && forall k :: 0 <= k < |ps| ==> ps[k].ppn < |m| && ps[k].off < PAGE_SIZE && m[ps[k].ppn][ps[k].off] == bs[k]
  }

  lemma HoldConcat(m: Mem, p1: seq<Place>, b1: seq<Byte>, p2: seq<Place>, b2: seq<Byte>)
    requires HoldBytes(m, p1, b1) && HoldBytes(m, p2, b2)
    ensures HoldBytes(m, p1 + p2, b1 + b2)
  {
  }

  /** The places the iterator visits hold the bytes of the buffer, one by one. */
  lemma {:induction false} PlacesAreBytes(m: Mem, v: seq<Slice>)
    requires SlicesOk(m, v)
    ensures NonEmpty(v) && HoldBytes(m, Places(v), Flatten(m, v))
    decreases |v|
  {
    hide Places, HoldBytes;
    if v == [] {
      NoPlaces(m);
    } else {
      var w, s := v[..|v| - 1], v[|v| - 1];
      PlacesAreBytes(m, w);
      PlacesSnoc(w, s);
      assert v == w + [s];
      SliceHolds(m, s);
      HoldConcat(m, Places(w), Flatten(m, w), SlicePlaces(s, 0), SliceBytes(m, s));
    }
  }

  lemma NoPlaces(m: Mem)
    ensures HoldBytes(m, Places([]), Flatten(m, []))
  {
  }

  lemma SliceHolds(m: Mem, s: Slice)
    requires s.ppn < |m| && s.lo < s.hi <= PAGE_SIZE
    ensures HoldBytes(m, SlicePlaces(s, 0), SliceBytes(m, s))
  {
  }

  /** Every byte of the buffer is visited exactly once, in order: running the iterator to
      its end collects what the slices hold. */
  method CollectAll(m: Mem, v: seq<Slice>) returns (bytes: seq<Byte>)
    requires SlicesOk(m, v)
    ensures bytes == Flatten(m, v)
  {
    hide Places, SlicePlaces, Flatten, UserBufferIterator.Rest, UserBufferIterator.Valid;
    PlacesAreBytes(m, v);
    var it := new UserBufferIterator(v);
    ghost var all := Places(v);
    ghost var held := Flatten(m, v);
    bytes := [];
    var next := it.Next();
    while next.Some?
      invariant it.Valid() && |bytes| <= |all| && fresh(it)
      invariant next.Some? ==> all[|bytes|..] == [next.value] + it.Rest()
      invariant next.None? ==> |bytes| == |all|
      invariant bytes == held[..|bytes|]
      decreases if next.Some? then |it.Rest()| + 1 else 0
    {
      NextByte(m, all, held, bytes, next.value, it.Rest());
      bytes := bytes + [m[next.value.ppn][next.value.off]];
      next := it.Next();
    }
  }

  lemma NextByte(m: Mem, ps: seq<Place>, held: seq<Byte>, done: seq<Byte>, p: Place, rest: seq<Place>)
    requires HoldBytes(m, ps, held) && |done| <= |ps| && done == held[..|done|]
    requires ps[|done|..] == [p] + rest
    ensures |done| < |ps| && rest == ps[|done| + 1..] && p.ppn < |m| && p.off < PAGE_SIZE
    ensures done + [m[p.ppn][p.off]] == held[..|done| + 1]
  {
    assert p == ps[|done|..][0] == ps[|done|];
    assert rest == ([p] + rest)[1..] == ps[|done|..][1..];
  }
}
