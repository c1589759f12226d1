/**
 * Whole runs on one address space: areas are inserted, extended, shrunk and removed.
 *
 * A list of regions is all there is to know about the areas; the pages mapped and the
 * number of frames held are functions of it.
 */
module SpaceRuns {
  import opened Basics
  import opened PhysMemory
  import opened Sv39
  import opened AddressSpace

  datatype Region = Region(start: nat, end: nat, perm: nat)

  function RegionsOf(areas: seq<MapArea>): (rs: seq<Region>)
    ensures |rs| == |areas|
    ensures forall i :: 0 <= i < |areas| ==> rs[i] == Region(areas[i].start, areas[i].end, areas[i].perm)
  {
    seq(|areas|, (i: nat) requires i < |areas| => Region(areas[i].start, areas[i].end, areas[i].perm))
  }

  datatype SpaceOp =
    | Insert(start: nat, end: nat, perm: nat)
    | Append(i: nat, newEnd: nat)
    | Shrink(i: nat, newEnd: nat)
    | Remove(start: nat)

  /** No page of `lo .. hi` is in a region. */
  predicate Vacant(rs: seq<Region>, lo: nat, hi: nat) {
    forall j :: 0 <= j < |rs| ==> rs[j].end <= rs[j].start || rs[j].end <= lo || hi <= rs[j].start || hi <= lo
  }

  predicate Enabled(rs: seq<Region>, op: SpaceOp) {
    match op
    case Insert(start, end, perm) => start <= end <= TRAMPOLINE_VPN && perm < 256 && Vacant(rs, start, end)
    case Append(i, newEnd) => i < |rs| && rs[i].end <= newEnd <= TRAMPOLINE_VPN && Vacant(rs, rs[i].end, newEnd)
    case Shrink(i, newEnd) => i < |rs| && rs[i].start <= newEnd <= rs[i].end
    case Remove(_) => true
  }

  /** Index of the first region that starts at `start`, or the number of regions. */
  function FirstAt(rs: seq<Region>, start: nat): (i: nat)
    ensures i <= |rs| && (i < |rs| ==> rs[i].start == start)
    ensures forall j :: 0 <= j < i ==> rs[j].start != start
  {
    if rs == [] then 0
    else if rs[0].start == start then 0
    else
      var r := FirstAt(rs[1..], start);
      assert forall j :: 0 < j < 1 + r ==> rs[j] == rs[1..][j - 1];
      1 + r
  }

  function Apply(rs: seq<Region>, op: SpaceOp): seq<Region>
    requires Enabled(rs, op)
  {
    match op
    case Insert(start, end, perm) => rs + [Region(start, end, perm)]
    case Append(i, newEnd) => rs[i := rs[i].(end := newEnd)]
    case Shrink(i, newEnd) => rs[i := rs[i].(end := newEnd)]
    case Remove(start) =>
      var i := FirstAt(rs, start);
      if i == |rs| then rs else rs[..i] + rs[i + 1..]
  }

  predicate HasPage(r: Region, v: nat) { r.start <= v < r.end }

  /** Some region has page `v`. */
  ghost predicate InRegions(rs: seq<Region>, v: nat) {
    exists i :: 0 <= i < |rs| && HasPage(rs[i], v)
  }

  /** A region gets another end. */
  lemma NewEnd(rs: seq<Region>, k: nat, end: nat, v: nat)
    requires k < |rs|
    ensures InRegions(rs[k := rs[k].(end := end)], v) <==>
            rs[k].start <= v < end || exists i :: 0 <= i < |rs| && i != k && HasPage(rs[i], v)
  {
    var r := rs[k := rs[k].(end := end)];
    assert forall i :: 0 <= i < |rs| && i != k ==> r[i] == rs[i];
    assert HasPage(r[k], v) <==> rs[k].start <= v < end;
  }

  lemma OneMore(rs: seq<Region>, x: Region, v: nat)
    ensures InRegions(rs + [x], v) <==> InRegions(rs, v) || HasPage(x, v)
  {
    var r := rs + [x];
    assert r[|rs|] == x && forall i :: 0 <= i < |rs| ==> r[i] == rs[i];
  }

  lemma OneLess(rs: seq<Region>, k: nat, v: nat)
    requires k < |rs|
    ensures InRegions(rs[..k] + rs[k + 1..], v) <==> exists i :: 0 <= i < |rs| && i != k && HasPage(rs[i], v)
  {
    var r := rs[..k] + rs[k + 1..];
    assert forall i :: 0 <= i < |r| ==> r[i] == rs[if i < k then i else i + 1];
    forall i | 0 <= i < |rs| && i != k && HasPage(rs[i], v) ensures InRegions(r, v) {
      assert HasPage(r[if i < k then i else i - 1], v);
    }
  }

  /** Which pages there are after an operation, for regions with no page in common. */
  lemma ApplyMeans(rs: seq<Region>, op: SpaceOp, v: nat)
    requires Enabled(rs, op) && forall i :: 0 <= i < |rs| ==> rs[i].start <= rs[i].end
    requires forall i, j :: 0 <= i < |rs| && 0 <= j < |rs| && i != j ==> !(HasPage(rs[i], v) && HasPage(rs[j], v))
    ensures op.Insert? ==> (InRegions(Apply(rs, op), v) <==> InRegions(rs, v) || op.start <= v < op.end)
    ensures op.Append? ==> (InRegions(Apply(rs, op), v) <==> InRegions(rs, v) || rs[op.i].end <= v < op.newEnd)
    ensures op.Shrink? ==> (InRegions(Apply(rs, op), v) <==> InRegions(rs, v) && !(op.newEnd <= v < rs[op.i].end))
    ensures op.Remove? ==>
              var i := FirstAt(rs, op.start);
              InRegions(Apply(rs, op), v) <==> InRegions(rs, v) && !(i < |rs| && HasPage(rs[i], v))
  {
    hide FirstAt;
    match op
    case Insert(start, end, perm) => OneMore(rs, Region(start, end, perm), v);
    case Append(k, newEnd) => NewEnd(rs, k, newEnd, v);
    case Shrink(k, newEnd) => NewEnd(rs, k, newEnd, v);
    case Remove(start) =>
      var k := FirstAt(rs, start);
      if k < |rs| { OneLess(rs, k, v); }
  }

  predicate RunEnabled(rs: seq<Region>, ops: seq<SpaceOp>)
    decreases |ops|
  {
    ops == [] || (Enabled(rs, ops[0]) && RunEnabled(Apply(rs, ops[0]), ops[1..]))
  }

  function Run(rs: seq<Region>, ops: seq<SpaceOp>): seq<Region>
    requires RunEnabled(rs, ops)
    decreases |ops|
  {
    if ops == [] then rs else Run(Apply(rs, ops[0]), ops[1..])
  }

  // ---- Frames ----

  function PagesOf(rs: seq<Region>): int {
    if rs == [] then 0 else PagesOf(rs[..|rs| - 1]) + (rs[|rs| - 1].end - rs[|rs| - 1].start)
  }

  /** The pages of the first `n` areas. */
  ghost function Covered(areas: seq<MapArea>, n: nat): set<nat>
    requires n <= |areas| && forall i :: 0 <= i < n ==> areas[i].start <= areas[i].end
  {
    if n == 0 then {} else Covered(areas, n - 1) + Range(areas[n - 1].start, areas[n - 1].end)
  }

  ghost predicate InFirst(areas: seq<MapArea>, n: nat, v: nat)
    requires n <= |areas|
  {
    exists i :: 0 <= i < n && Covers(areas[i], v)
  }

  lemma InNext(areas: seq<MapArea>, n: nat, v: nat)
    requires n < |areas|
    ensures InFirst(areas, n + 1, v) <==> InFirst(areas, n, v) || Covers(areas[n], v)
  {
  }

  lemma {:induction false} CoveredIs(areas: seq<MapArea>, n: nat, v: nat)
    requires n <= |areas| && forall i :: 0 <= i < n ==> areas[i].start <= areas[i].end
    ensures v in Covered(areas, n) <==> InFirst(areas, n, v)
  {
    hide Range, InFirst;
    if n > 0 {
      CoveredIs(areas, n - 1, v);
      InNext(areas, n - 1, v);
    } else {
      NotInNone(areas, v);
    }
  }

  lemma NotInNone(areas: seq<MapArea>, v: nat)
    ensures !InFirst(areas, 0, v)
  {
  }

  lemma {:induction false} CoveredCount(areas: seq<MapArea>, n: nat)
    requires n <= |areas| && forall i :: 0 <= i < n ==> areas[i].start <= areas[i].end
    requires forall i, j :: 0 <= i < j < n ==> Apart(areas[i], areas[j])
    ensures |Covered(areas, n)| == PagesOf(RegionsOf(areas)[..n])
  {
    hide RegionsOf, PagesOf, Apart, Range, Covered;
    if n == 0 {
      NoPages(RegionsOf(areas));
      NoneCovered(areas);
    } else {
      CoveredCount(areas, n - 1);
      PagesStep(RegionsOf(areas), n - 1);
      LastApart(areas, n);
      NextCovered(areas, n - 1);
    }
  }

  lemma NoneCovered(areas: seq<MapArea>)
    ensures Covered(areas, 0) == {}
  {
  }

  lemma NextCovered(areas: seq<MapArea>, i: nat)
    requires i < |areas| && forall j :: 0 <= j <= i ==> areas[j].start <= areas[j].end
    ensures Covered(areas, i + 1) == Covered(areas, i) + Range(areas[i].start, areas[i].end)
  {
    hide Range;
  }

  lemma NoPages(rs: seq<Region>)
    ensures PagesOf(rs[..0]) == 0
  {
  }

  lemma PagesStep(rs: seq<Region>, n: nat)
    requires n < |rs|
    ensures PagesOf(rs[..n + 1]) == PagesOf(rs[..n]) + (rs[n].end - rs[n].start)
  {
    assert rs[..n + 1][..n] == rs[..n];
  }

  lemma LastApart(areas: seq<MapArea>, n: nat)
    requires 0 < n <= |areas| && forall i :: 0 <= i < n ==> areas[i].start <= areas[i].end
    requires forall i, j :: 0 <= i < j < n ==> Apart(areas[i], areas[j])
    ensures Covered(areas, n - 1) !! Range(areas[n - 1].start, areas[n - 1].end)
  {
    hide Covered, Range;
    var a, b := Covered(areas, n - 1), Range(areas[n - 1].start, areas[n - 1].end);
    forall v | v in a ensures v !in b {
      CoveredIs(areas, n - 1, v);
      var i :| 0 <= i < n - 1 && Covers(areas[i], v);
      assert Apart(areas[i], areas[n - 1]);
    }
  }

  lemma {:induction false} InjectiveCount(m: map<nat, nat>)
    requires forall v, w :: v in m && w in m && v != w ==> m[v] != m[w]
    ensures |m.Values| == |m.Keys|
    decreases |m.Keys|
  {
    if m.Keys == {} {
      assert m.Values == {};
    } else {
      var v :| v in m;
      var rest := m - {v};
      assert rest.Keys == m.Keys - {v};
      InjectiveCount(rest);
      ValuesAfterRemove(m, v);
      assert m[v] in m.Values;
    }
  }

  /** Conservation: the space holds exactly one frame for each page of its regions, the
      pages mapped are those of the regions, and each translates to the frame held for it. */
  lemma FramesAccounted(ms: MemorySet, mem: PhysMem)
    requires ms.Valid(mem)
    ensures |ms.own.Values| == PagesOf(RegionsOf(ms.areas))
    ensures ms.own.Values !! ElemsOf(ms.pt.frames) && ms.own.Values <= mem.Live()
    ensures forall v: nat :: v in ms.own <==> InSome(ms.areas, v)
    ensures forall v :: v in ms.own ==> v in ms.pt.view && ms.pt.view[v].ppn == ms.own[v]
    ensures forall v :: v in ms.pt.view ==> v in ms.own || v == TRAMPOLINE_VPN
  {
    hide PageTable.Valid, WithV, PhysMem.Live;
    var areas, n := ms.areas, |ms.areas|;
    assert forall i :: 0 <= i < n ==> AreaOk(areas[i], ms.own, ms.pt.view);
    CoveredCount(areas, n);
    assert RegionsOf(areas)[..n] == RegionsOf(areas);
    forall v: nat ensures v in ms.own <==> InSome(areas, v) {
      if InSome(areas, v) {
        var i :| 0 <= i < n && Covers(areas[i], v);
        CoveredIsMapped(areas[i], ms.own, ms.pt.view, v);
      }
    }
    var s := Covered(areas, n);
    forall v: nat ensures v in s <==> v in ms.own.Keys {
      CoveredIs(areas, n, v);
      assert InFirst(areas, n, v) <==> InSome(areas, v);
    }
    assert s == ms.own.Keys;
    InjectiveCount(ms.own);
    forall v | v in ms.own ensures v in ms.pt.view && ms.pt.view[v].ppn == ms.own[v] {
      var i :| 0 <= i < n && Covers(areas[i], v);
      CoveredIsMapped(areas[i], ms.own, ms.pt.view, v);
    }
  }

  /** Pages outside all regions are not mapped. */
  lemma VacantIsUnmapped(ms: MemorySet, mem: PhysMem, lo: nat, hi: nat)
    requires ms.Valid(mem) && Vacant(RegionsOf(ms.areas), lo, hi) && hi <= TRAMPOLINE_VPN
    ensures forall v :: lo <= v < hi ==> v !in ms.pt.view
  {
    hide PageTable.Valid, Holds, AreaOk;
    var rs := RegionsOf(ms.areas);
    forall v | lo <= v < hi ensures v !in ms.pt.view {
      forall j | 0 <= j < |ms.areas| ensures !Covers(ms.areas[j], v) {
        assert rs[j] == Region(ms.areas[j].start, ms.areas[j].end, ms.areas[j].perm);
      }
      assert v !in ms.own;
    }
  }

  // ---- Contents ----

  /** What the pages of a space hold, by page number. */
  ghost function BytesOf(own: map<nat, nat>, pages: seq<Page>): (b: map<nat, Page>)
    ensures forall v :: v in b <==> v in own && own[v] < |pages|
    ensures forall v :: v in b ==> b[v] == pages[own[v]]
  {
    map v | v in own && own[v] < |pages| :: pages[own[v]]
  }

  /** Zeroed pages `lo .. hi` added. */
  ghost function WithZeros(bytes: map<nat, Page>, lo: nat, hi: nat): (b: map<nat, Page>)
    requires lo <= hi
    ensures forall v :: v in b <==> v in bytes || lo <= v < hi
    ensures forall v :: v in b ==> b[v] == if lo <= v < hi then ZeroPage() else bytes[v]
  {
    map v | v in bytes.Keys + Range(lo, hi) :: if lo <= v < hi then ZeroPage() else bytes[v]
  }

  ghost function Without(bytes: map<nat, Page>, lo: nat, hi: nat): map<nat, Page> {
    map v | v in bytes && !(lo <= v < hi) :: bytes[v]
  }

  ghost function ApplyBytes(bytes: map<nat, Page>, rs: seq<Region>, op: SpaceOp): map<nat, Page>
    requires Enabled(rs, op)
  {
    match op
    case Insert(start, end, _) => WithZeros(bytes, start, end)
    case Append(i, newEnd) => WithZeros(bytes, rs[i].end, newEnd)
    case Shrink(i, newEnd) => Without(bytes, newEnd, rs[i].end)
    case Remove(start) =>
      var i := FirstAt(rs, start);
      if i == |rs| then bytes else Without(bytes, start, rs[i].end)
  }

  /** Pages owned by a valid space exist. */
  lemma OwnedExist(ms: MemorySet, mem: PhysMem)
    requires ms.Valid(mem)
    ensures forall v :: v in ms.own ==> ms.own[v] < |mem.pages| && ms.own[v] in mem.Live()
    ensures forall v :: v in ms.own ==> ms.own[v] !in ElemsOf(ms.pt.frames)
    ensures ms.Footprint() <= mem.Live()
  {
    hide AreasOk, Refines;
  }

  /** What mapping a range does to the contents. */
  lemma BytesAdded(ms: MemorySet, mem: PhysMem, own0: map<nat, nat>, live0: set<nat>, tables0: set<nat>,
                   pages0: seq<Page>, lo: nat, hi: nat)
    requires lo <= hi && ms.Added(own0, live0, lo, hi, mem)
    requires Since(live0, tables0, pages0, ElemsOf(ms.pt.frames), mem)
    requires forall v :: v in own0 ==> own0[v] in live0 && own0[v] !in tables0 && own0[v] < |pages0|
    requires forall v :: lo <= v < hi ==> v !in own0
    ensures BytesOf(ms.own, mem.pages) == WithZeros(BytesOf(own0, pages0), lo, hi)
  {
    hide PhysMem.Live, BytesOf, WithZeros, ZeroPage;
    forall v | v in own0 ensures v in ms.own && ms.own[v] == own0[v] && mem.pages[own0[v]] == pages0[own0[v]] {
      assert own0[v] in live0;
    }
    ZeroPagesAdded(own0, pages0, ms.own, mem.pages, lo, hi);
  }

  lemma ZeroPagesAdded(own0: map<nat, nat>, pages0: seq<Page>, own: map<nat, nat>, pages: seq<Page>, lo: nat, hi: nat)
    requires lo <= hi && |pages| == |pages0|
    requires forall v :: v in own <==> v in own0 || lo <= v < hi
    requires forall v :: v in own0 ==> own0[v] < |pages0| && !(lo <= v < hi)
    requires forall v :: v in own0 ==> v in own && own[v] == own0[v] && pages[own0[v]] == pages0[own0[v]]
    requires forall v :: v in own && lo <= v < hi ==> own[v] < |pages| && pages[own[v]] == ZeroPage()
    ensures BytesOf(own, pages) == WithZeros(BytesOf(own0, pages0), lo, hi)
  {
    hide BytesOf, WithZeros, ZeroPage;
    var a, b := BytesOf(own, pages), WithZeros(BytesOf(own0, pages0), lo, hi);
    forall v | v in a ensures v in b && b[v] == a[v] {}
    forall v | v in b ensures v in a {}
  }

  /** What unmapping a range does to the contents. */
  lemma BytesRemoved(ms: MemorySet, mem: PhysMem, own0: map<nat, nat>, view0: map<nat, Leaf>, pages0: seq<Page>,
                     lo: nat, hi: nat)
    requires ms.Removed(own0, view0, lo, hi) && |mem.pages| == |pages0|
    requires forall v :: v in own0 ==> own0[v] !in ElemsOf(ms.pt.frames)
    requires forall q :: 0 <= q < |pages0| && q !in ElemsOf(ms.pt.frames) ==> mem.pages[q] == pages0[q]
    ensures BytesOf(ms.own, mem.pages) == Without(BytesOf(own0, pages0), lo, hi)
  {
  }

  /** Frames an operation takes at most; negative when it gives some back. */
  function Cost(rs: seq<Region>, op: SpaceOp): int
    requires Enabled(rs, op)
  {
    match op
    case Insert(start, end, _) => 3 * (end - start)
    case Append(i, newEnd) => 3 * (newEnd - rs[i].end)
    case Shrink(i, newEnd) => newEnd - rs[i].end
    case Remove(start) =>
      var i := FirstAt(rs, start);
      if i == |rs| then 0 else start - rs[i].end
  }

  /** Free frames that are enough for a whole run. */
  function Needed(rs: seq<Region>, ops: seq<SpaceOp>): (n: int)
    requires RunEnabled(rs, ops)
    ensures n >= 0
    decreases |ops|
  {
    if ops == [] then 0
    else
      var n := Cost(rs, ops[0]) + Needed(Apply(rs, ops[0]), ops[1..]);
      if n < 0 then 0 else n
  }

  /** Frames outside the space: the same ones are live, with the same contents. */
  ghost predicate ForeignKept(live0: set<nat>, mine0: set<nat>, pages0: seq<Page>, ms: MemorySet, mem: PhysMem)
    reads ms, ms.pt, mem
  {
    && mem.Live() - ms.Footprint() == live0 - mine0
    && |mem.pages| == |pages0|
    && forall q :: q in live0 - mine0 && q < |pages0| ==> mem.pages[q] == pages0[q]
  }

  method DoOp(ms: MemorySet, op: SpaceOp, mem: PhysMem) returns (ok: bool)
    requires ms.Valid(mem) && Enabled(RegionsOf(ms.areas), op)
    modifies ms, ms.pt, mem
    ensures old(mem.Free()) >= Cost(RegionsOf(old(ms.areas)), op) ==> ok
    ensures ok ==>
              && ms.Valid(mem) && RegionsOf(ms.areas) == Apply(RegionsOf(old(ms.areas)), op)
              && mem.Free() >= old(mem.Free()) - Cost(RegionsOf(old(ms.areas)), op)
              && ForeignKept(old(mem.Live()), old(ms.Footprint()), old(mem.pages), ms, mem)
              && BytesOf(ms.own, mem.pages)
                 == ApplyBytes(BytesOf(old(ms.own), old(mem.pages)), RegionsOf(old(ms.areas)), op)
  {
    hide MemorySet.Valid, MemorySet.Footprint, MemorySet.Added, MemorySet.Removed, Since, PhysMem.Live, PhysMem.Free,
      FirstAt, BytesOf, WithZeros, Without, ForeignKept;
    match op
    case Insert(start, end, perm) =>
      ok := DoInsert(ms, start, end, perm, mem);
    case Append(i, newEnd) =>
      ok := DoAppend(ms, i, newEnd, mem);
    case Shrink(i, newEnd) =>
      DoShrink(ms, i, newEnd, mem);
      ok := true;
    case Remove(start) =>
      DoRemove(ms, start, mem);
      ok := true;
  }

  method DoInsert(ms: MemorySet, start: nat, end: nat, perm: nat, mem: PhysMem) returns (ok: bool)
    requires ms.Valid(mem) && Enabled(RegionsOf(ms.areas), Insert(start, end, perm))
    modifies ms, ms.pt, mem
    ensures old(mem.Free()) >= 3 * (end - start) ==> ok
    ensures ok ==>
              && ms.Valid(mem) && RegionsOf(ms.areas) == RegionsOf(old(ms.areas)) + [Region(start, end, perm)]
              && mem.Free() >= old(mem.Free()) - 3 * (end - start)
              && ForeignKept(old(mem.Live()), old(ms.Footprint()), old(mem.pages), ms, mem)
              && BytesOf(ms.own, mem.pages) == WithZeros(BytesOf(old(ms.own), old(mem.pages)), start, end)
  {
    hide MemorySet.Valid, MemorySet.Footprint, MemorySet.Added, Since, PhysMem.Live, PhysMem.Free, BytesOf, WithZeros,
      ForeignKept;
    ghost var rs := RegionsOf(ms.areas);
    VacantIsUnmapped(ms, mem, start, end);
    OwnedExist(ms, mem);
    OwnedMapped(ms, mem);
    ghost var own0, live0, tables0, pages0, mine0 :=
      ms.own, mem.Live(), ElemsOf(ms.pt.frames), mem.pages, ms.Footprint();
    FootprintHas(ms);
    ok := ms.Push(start, end, perm, mem);
    if ok {
      assert forall j :: 0 <= j < |rs| ==> ms.areas[..|rs|][j] == ms.areas[j];
      BytesAdded(ms, mem, own0, live0, tables0, pages0, start, end);
      SinceKeeps(live0, tables0, mine0, pages0, ms, mem);
    }
  }

  method DoAppend(ms: MemorySet, i: nat, newEnd: nat, mem: PhysMem) returns (ok: bool)
    requires ms.Valid(mem) && Enabled(RegionsOf(ms.areas), Append(i, newEnd))
    modifies ms, ms.pt, mem
    ensures old(mem.Free()) >= 3 * (newEnd - old(ms.areas)[i].end) ==> ok
    ensures ok ==>
              && ms.Valid(mem)
              && RegionsOf(ms.areas) == RegionsOf(old(ms.areas))[i := RegionsOf(old(ms.areas))[i].(end := newEnd)]
              && mem.Free() >= old(mem.Free()) - 3 * (newEnd - old(ms.areas)[i].end)
              && ForeignKept(old(mem.Live()), old(ms.Footprint()), old(mem.pages), ms, mem)
              && BytesOf(ms.own, mem.pages)
                 == WithZeros(BytesOf(old(ms.own), old(mem.pages)), old(ms.areas)[i].end, newEnd)
  {
    hide MemorySet.Valid, MemorySet.Footprint, MemorySet.Added, Since, PhysMem.Live, PhysMem.Free, BytesOf, WithZeros,
      ForeignKept;
    ghost var end0 := ms.areas[i].end;
    VacantIsUnmapped(ms, mem, end0, newEnd);
    OwnedExist(ms, mem);
    OwnedMapped(ms, mem);
    ghost var own0, live0, tables0, pages0, mine0 :=
      ms.own, mem.Live(), ElemsOf(ms.pt.frames), mem.pages, ms.Footprint();
    FootprintHas(ms);
    ok := ms.GrowArea(i, newEnd, mem);
    if ok {
      BytesAdded(ms, mem, own0, live0, tables0, pages0, end0, newEnd);
      SinceKeeps(live0, tables0, mine0, pages0, ms, mem);
    }
  }

  method DoShrink(ms: MemorySet, i: nat, newEnd: nat, mem: PhysMem)
    requires ms.Valid(mem) && Enabled(RegionsOf(ms.areas), Shrink(i, newEnd))
    modifies ms, ms.pt, mem
    ensures ms.Valid(mem)
    ensures RegionsOf(ms.areas) == RegionsOf(old(ms.areas))[i := RegionsOf(old(ms.areas))[i].(end := newEnd)]
    ensures mem.Free() == old(mem.Free()) + (old(ms.areas)[i].end - newEnd)
    ensures ForeignKept(old(mem.Live()), old(ms.Footprint()), old(mem.pages), ms, mem)
    ensures BytesOf(ms.own, mem.pages) == Without(BytesOf(old(ms.own), old(mem.pages)), newEnd, old(ms.areas)[i].end)
  {
    hide MemorySet.Valid, MemorySet.Footprint, MemorySet.Removed, PhysMem.Live, PhysMem.Free, BytesOf, Without;
    OwnedExist(ms, mem);
    FootprintHas(ms);
    ghost var own0, view0, pages0, end0 := ms.own, ms.pt.view, mem.pages, ms.areas[i].end;
    ms.ShrinkArea(i, newEnd, mem);
    BytesRemoved(ms, mem, own0, view0, pages0, newEnd, end0);
  }

  method DoRemove(ms: MemorySet, start: nat, mem: PhysMem)
    requires ms.Valid(mem)
    modifies ms, ms.pt, mem
    ensures ms.Valid(mem) && RegionsOf(ms.areas) == Apply(RegionsOf(old(ms.areas)), Remove(start))
    ensures mem.Free() >= old(mem.Free()) - Cost(RegionsOf(old(ms.areas)), Remove(start))
    ensures ForeignKept(old(mem.Live()), old(ms.Footprint()), old(mem.pages), ms, mem)
    ensures BytesOf(ms.own, mem.pages)
         == ApplyBytes(BytesOf(old(ms.own), old(mem.pages)), RegionsOf(old(ms.areas)), Remove(start))
  {
    hide MemorySet.Valid, MemorySet.Footprint, MemorySet.Removed, PhysMem.Live, PhysMem.Free, BytesOf, Without, FirstAt;
    OwnedExist(ms, mem);
    FootprintHas(ms);
    ghost var own0, view0, pages0, areas0 := ms.own, ms.pt.view, mem.pages, ms.areas;
    ghost var rs := RegionsOf(ms.areas);
    var found, i := ms.RemoveArea(start, mem);
    assert found ==> i == FirstAt(rs, start);
    if found {
      BytesRemoved(ms, mem, own0, view0, pages0, start, areas0[i].end);
    } else {
      BytesSame(own0, ElemsOf(ms.pt.frames), pages0, mem.pages);
    }
  }

  lemma BytesSame(own: map<nat, nat>, tables: set<nat>, pages0: seq<Page>, pages: seq<Page>)
    requires |pages| == |pages0| && forall v :: v in own ==> own[v] !in tables
    requires forall q :: 0 <= q < |pages0| && q !in tables ==> pages[q] == pages0[q]
    ensures BytesOf(own, pages) == BytesOf(own, pages0)
  {
  }

  lemma OwnedMapped(ms: MemorySet, mem: PhysMem)
    requires ms.Valid(mem)
    ensures forall v :: v in ms.own ==> v in ms.pt.view
  {
    hide PageTable.Valid, Holds;
    OwnIsMapped(ms.areas, ms.own, ms.pt.view);
  }

  lemma FootprintHas(ms: MemorySet)
    ensures ElemsOf(ms.pt.frames) <= ms.Footprint()
  {
  }

  lemma SinceKeeps(live0: set<nat>, tables0: set<nat>, mine0: set<nat>, pages0: seq<Page>, ms: MemorySet, mem: PhysMem)
    requires Since(live0, tables0, pages0, ElemsOf(ms.pt.frames), mem) && tables0 <= mine0
    requires mem.Live() - ms.Footprint() == live0 - mine0
    ensures ForeignKept(live0, mine0, pages0, ms, mem)
  {
    hide PhysMem.Live;
  }

  ghost function RunBytes(bytes: map<nat, Page>, rs: seq<Region>, ops: seq<SpaceOp>): map<nat, Page>
    requires RunEnabled(rs, ops)
    decreases |ops|
  {
    if ops == [] then bytes else RunBytes(ApplyBytes(bytes, rs, ops[0]), Apply(rs, ops[0]), ops[1..])
  }

  /** Under every run the areas are what the regions say and the pages hold what was there
      or zeros; the frames of others stay live and keep their contents; and it goes well
      whenever there are enough free frames. */
  method RunSpace(ms: MemorySet, ops: seq<SpaceOp>, mem: PhysMem) returns (ok: bool)
    requires ms.Valid(mem) && RunEnabled(RegionsOf(ms.areas), ops)
    modifies ms, ms.pt, mem
    ensures old(mem.Free()) >= Needed(RegionsOf(old(ms.areas)), ops) ==> ok
    ensures ok ==>
              && ms.Valid(mem) && RegionsOf(ms.areas) == Run(RegionsOf(old(ms.areas)), ops)
              && ForeignKept(old(mem.Live()), old(ms.Footprint()), old(mem.pages), ms, mem)
              && BytesOf(ms.own, mem.pages)
                 == RunBytes(BytesOf(old(ms.own), old(mem.pages)), RegionsOf(old(ms.areas)), ops)
              && |ms.own.Values| == PagesOf(Run(RegionsOf(old(ms.areas)), ops))
  {
    hide MemorySet.Valid, MemorySet.Footprint, PhysMem.Live, PhysMem.Free, Apply, Enabled, Cost, RegionsOf, BytesOf,
      ApplyBytes, ForeignKept;
    ghost var start := RegionsOf(ms.areas);
    ghost var bytes := BytesOf(ms.own, mem.pages);
    ghost var free0 := mem.Free();
    NothingForeign(ms, mem);
    assert ops[0..] == ops;
    var i := 0;
    while i < |ops|
      invariant 0 <= i <= |ops|
      invariant ms.Valid(mem) && RunEnabled(RegionsOf(ms.areas), ops[i..])
      invariant Run(RegionsOf(ms.areas), ops[i..]) == Run(start, ops)
      invariant RunBytes(BytesOf(ms.own, mem.pages), RegionsOf(ms.areas), ops[i..]) == RunBytes(bytes, start, ops)
      invariant free0 >= Needed(start, ops) ==> mem.Free() >= Needed(RegionsOf(ms.areas), ops[i..])
      invariant ForeignKept(old(mem.Live()), old(ms.Footprint()), old(mem.pages), ms, mem)
    {
      assert ops[i..][0] == ops[i] && ops[i..][1..] == ops[i + 1..];
      ghost var live1, mine1, pages1 := mem.Live(), ms.Footprint(), mem.pages;
      ghost var foreign := live1 - mine1;
      ForeignIs(old(mem.Live()), old(ms.Footprint()), old(mem.pages), ms, mem);
      ok := DoOp(ms, ops[i], mem);
      if !ok {
        return;
      }
      ForeignTrans(old(mem.Live()), old(ms.Footprint()), old(mem.pages), live1, mine1, pages1, ms, mem);
      i := i + 1;
    }
    assert ops[i..] == [];
    FramesAccounted(ms, mem);
    ok := true;
  }

  lemma NothingForeign(ms: MemorySet, mem: PhysMem)
    ensures ForeignKept(mem.Live(), ms.Footprint(), mem.pages, ms, mem)
  {
  }

  lemma ForeignIs(live0: set<nat>, mine0: set<nat>, pages0: seq<Page>, ms: MemorySet, mem: PhysMem)
    requires ForeignKept(live0, mine0, pages0, ms, mem)
    ensures mem.Live() - ms.Footprint() == live0 - mine0 && |mem.pages| == |pages0|
    ensures forall q :: q in live0 - mine0 && q < |pages0| ==> mem.pages[q] == pages0[q]
  {
  }

  lemma ForeignTrans(live0: set<nat>, mine0: set<nat>, pages0: seq<Page>, live1: set<nat>, mine1: set<nat>,
                     pages1: seq<Page>, ms: MemorySet, mem: PhysMem)
    requires live1 - mine1 == live0 - mine0 && |pages1| == |pages0|
    requires forall q :: q in live0 - mine0 && q < |pages0| ==> pages1[q] == pages0[q]
    requires ForeignKept(live1, mine1, pages1, ms, mem)
    ensures ForeignKept(live0, mine0, pages0, ms, mem)
  {
  }
}
