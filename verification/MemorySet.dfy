/**
 * Address spaces: page-granular areas backed by their own frames.
 *
 * `own` is the map from virtual page to the frame that some area's tracker owns.
 * `Valid` ties it to the areas on one side and to the page table on the other, so
 * every valid leaf other than the trampoline points at the frame its area owns.
 */
module AddressSpace {
  import opened PhysMemory
  import opened Sv39

  /** The page of the trampoline: the last one. */
  const TRAMPOLINE_VPN := 0x7FF_FFFF
  const TRAMPOLINE_FLAGS := 10  // R | X

  /** A `Framed` area: `frames` are the trackers it owns, by page. */
  datatype MapArea = MapArea(start: nat, end: nat, frames: map<nat, nat>, perm: nat)

  /** The frames of `own` are live, are no tables, and are pairwise distinct. */
  ghost predicate Holds(own: map<nat, nat>, live: set<nat>, tables: set<nat>) {
    && (forall v :: v in own ==> own[v] in live && own[v] !in tables)
    && (forall v, w :: v in own && w in own && v != w ==> own[v] != own[w])
  }

  predicate Covers(a: MapArea, v: nat) {
    a.start <= v < a.end
  }

  ghost predicate AreaOk(a: MapArea, own: map<nat, nat>, view: map<nat, Leaf>) {
    && a.start <= a.end <= TRAMPOLINE_VPN && a.perm < 256
    && (forall v :: v in a.frames <==> Covers(a, v))
    && (forall v :: v in a.frames ==>
          && v in own && own[v] == a.frames[v]
          && v in view && view[v] == Leaf(a.frames[v], WithV(a.perm)))
  }

  ghost predicate InSome(areas: seq<MapArea>, v: nat) {
    exists i :: 0 <= i < |areas| && Covers(areas[i], v)
  }

  ghost predicate Apart(a: MapArea, b: MapArea) {
    a.end <= b.start || b.end <= a.start || a.start == a.end || b.start == b.end
  }

  ghost predicate AreasOk(areas: seq<MapArea>, own: map<nat, nat>, view: map<nat, Leaf>) {
    && (forall i :: 0 <= i < |areas| ==> AreaOk(areas[i], own, view))
    && (forall i, j :: 0 <= i < j < |areas| ==> Apart(areas[i], areas[j]))
    && (forall v :: v in own ==> InSome(areas, v))
    && (forall v :: v in view && v !in own ==> v == TRAMPOLINE_VPN)
  }

  // ---- Areas change ----

  /** An area looks at its own pages only. */
  lemma AreaElsewhere(a: MapArea, own: map<nat, nat>, view: map<nat, Leaf>, own2: map<nat, nat>, view2: map<nat, Leaf>)
    requires AreaOk(a, own, view)
    requires forall v :: v in own && Covers(a, v) ==> v in own2 && own2[v] == own[v]
    requires forall v :: v in view && Covers(a, v) ==> v in view2 && view2[v] == view[v]
    ensures AreaOk(a, own2, view2)
  {
  }

  lemma CoveredIsMapped(a: MapArea, own: map<nat, nat>, view: map<nat, Leaf>, v: nat)
    requires AreaOk(a, own, view) && Covers(a, v)
    ensures v in a.frames && v in own && v in view && own[v] == a.frames[v] && v < TRAMPOLINE_VPN
  {
    assert v in a.frames;
  }

  function Extended(a: MapArea, p: nat): MapArea {
    a.(end := a.end + 1, frames := a.frames[a.end := p])
  }

  lemma ExtendedOk(a: MapArea, own: map<nat, nat>, view: map<nat, Leaf>, p: nat)
    requires AreaOk(a, own, view) && a.end < TRAMPOLINE_VPN
    ensures AreaOk(Extended(a, p), own[a.end := p], view[a.end := Leaf(p, WithV(a.perm))])
  {
    hide WithV;
  }

  /** Area `i` gains the page at its end. */
  lemma ExtendArea(areas: seq<MapArea>, own: map<nat, nat>, view: map<nat, Leaf>, i: nat, p: nat)
    requires AreasOk(areas, own, view) && i < |areas| && areas[i].end < TRAMPOLINE_VPN && areas[i].end !in view
    ensures var a := areas[i];
            AreasOk(areas[i := Extended(a, p)], own[a.end := p], view[a.end := Leaf(p, WithV(a.perm))])
  {
    hide WithV, AreaOk;
    var a := areas[i];
    BoundsOf(a, own, view);
    var v0 := a.end;
    var areas2, own2, view2 := areas[i := Extended(a, p)], own[v0 := p], view[v0 := Leaf(p, WithV(a.perm))];
    ExtendedOk(a, own, view, p);
    forall j | 0 <= j < |areas| && j != i ensures AreaOk(areas[j], own2, view2) && !Covers(areas[j], v0) {
      if Covers(areas[j], v0) { CoveredIsMapped(areas[j], own, view, v0); }
      AreaElsewhere(areas[j], own, view, own2, view2);
    }
    CoverAfter(areas, own, areas2, own2, i, v0);
    forall j, k | 0 <= j < k < |areas2| ensures Apart(areas2[j], areas2[k]) {
      assert Apart(areas[j], areas[k]);
      var other := if j == i then k else j;
      if other != i && (j == i || k == i) {
        BoundsOf(areas[i], own, view);
        BoundsOf(areas[other], own, view);
      }
    }
  }

  lemma BoundsOf(a: MapArea, own: map<nat, nat>, view: map<nat, Leaf>)
    requires AreaOk(a, own, view)
    ensures a.start <= a.end <= TRAMPOLINE_VPN && a.perm < 256
  {
  }

  lemma CoverAfter(areas: seq<MapArea>, own: map<nat, nat>, areas2: seq<MapArea>, own2: map<nat, nat>, i: nat, v0: nat)
    requires |areas2| == |areas| && i < |areas| && forall j :: 0 <= j < |areas| && j != i ==> areas2[j] == areas[j]
    requires forall v :: v in own ==> InSome(areas, v)
    requires forall v :: v in own2 ==> v in own || v == v0
    requires v0 in own2 ==> Covers(areas2[i], v0)
    requires forall v :: v in own2 && v != v0 && Covers(areas[i], v) ==> Covers(areas2[i], v)
    ensures forall v :: v in own2 ==> InSome(areas2, v)
  {
    forall v | v in own2 ensures InSome(areas2, v) {
      if v == v0 {
        assert Covers(areas2[i], v);
      } else {
        var j :| 0 <= j < |areas| && Covers(areas[j], v);
        assert Covers(areas2[j], v);
      }
    }
  }

  lemma EmptyAreaOk(start: nat, perm: nat, own: map<nat, nat>, view: map<nat, Leaf>)
    requires start <= TRAMPOLINE_VPN && perm < 256
    ensures AreaOk(MapArea(start, start, map[], perm), own, view)
  {
  }

  /** An area without pages. */
  lemma AddEmptyArea(areas: seq<MapArea>, own: map<nat, nat>, view: map<nat, Leaf>, start: nat, perm: nat)
    requires AreasOk(areas, own, view) && start <= TRAMPOLINE_VPN && perm < 256
    ensures AreasOk(areas + [MapArea(start, start, map[], perm)], own, view)
  {
    hide WithV, AreaOk;
    var a := MapArea(start, start, map[], perm);
    EmptyAreaOk(start, perm, own, view);
    var areas2 := areas + [a];
    forall v | v in own ensures InSome(areas2, v) {
      var j :| 0 <= j < |areas| && Covers(areas[j], v);
      assert Covers(areas2[j], v);
    }
  }

  function Trimmed(a: MapArea): MapArea {
    a.(start := a.start + 1, frames := a.frames - {a.start})
  }

  lemma TrimmedOk(a: MapArea, own: map<nat, nat>, view: map<nat, Leaf>)
    requires AreaOk(a, own, view) && a.start < a.end
    ensures AreaOk(Trimmed(a), own - {a.start}, view - {a.start})
  {
    hide WithV;
  }

  /** Area `i` loses its first page. */
  lemma TrimArea(areas: seq<MapArea>, own: map<nat, nat>, view: map<nat, Leaf>, i: nat)
    requires AreasOk(areas, own, view) && i < |areas| && areas[i].start < areas[i].end
    ensures var a := areas[i]; AreasOk(areas[i := Trimmed(a)], own - {a.start}, view - {a.start})
  {
    hide WithV, AreaOk;
    var a := areas[i];
    var v0 := a.start;
    var areas2, own2, view2 := areas[i := Trimmed(a)], own - {v0}, view - {v0};
    TrimmedOk(a, own, view);
    forall j | 0 <= j < |areas| && j != i ensures AreaOk(areas[j], own2, view2) {
      assert Apart(areas[if j < i then j else i], areas[if j < i then i else j]);
      AreaElsewhere(areas[j], own, view, own2, view2);
    }
    CoverAfter(areas, own, areas2, own2, i, v0);
    forall j, k | 0 <= j < k < |areas2| ensures Apart(areas2[j], areas2[k]) {
      assert Apart(areas[j], areas[k]);
    }
  }

  lemma DropEmptyArea(areas: seq<MapArea>, own: map<nat, nat>, view: map<nat, Leaf>, i: nat)
    requires AreasOk(areas, own, view) && i < |areas| && areas[i].start == areas[i].end
    ensures AreasOk(areas[..i] + areas[i + 1..], own, view)
  {
    hide WithV, AreaOk;
    var areas2 := areas[..i] + areas[i + 1..];
    forall v | v in own ensures InSome(areas2, v) {
      var j :| 0 <= j < |areas| && Covers(areas[j], v);
      assert Covers(areas2[if j < i then j else j - 1], v);
    }
  }

  function LowerPart(a: MapArea, mid: nat): MapArea {
    a.(end := mid, frames := map v | v in a.frames && v < mid :: a.frames[v])
  }

  function UpperPart(a: MapArea, mid: nat): MapArea {
    a.(start := mid, frames := map v | v in a.frames && v >= mid :: a.frames[v])
  }

  lemma PartsOk(a: MapArea, own: map<nat, nat>, view: map<nat, Leaf>, mid: nat)
    requires AreaOk(a, own, view) && a.start <= mid <= a.end
    ensures AreaOk(LowerPart(a, mid), own, view) && AreaOk(UpperPart(a, mid), own, view)
  {
    hide WithV;
  }

  /** Area `i` cut in two at `mid`; the upper part goes to the end of the list. */
  lemma SplitArea(areas: seq<MapArea>, own: map<nat, nat>, view: map<nat, Leaf>, i: nat, mid: nat)
    requires AreasOk(areas, own, view) && i < |areas| && areas[i].start <= mid <= areas[i].end
    ensures AreasOk(areas[i := LowerPart(areas[i], mid)] + [UpperPart(areas[i], mid)], own, view)
  {
    hide WithV, AreaOk;
    var lo, hi := LowerPart(areas[i], mid), UpperPart(areas[i], mid);
    var areas2 := areas[i := lo] + [hi];
    PartsOk(areas[i], own, view, mid);
    forall v | v in own ensures InSome(areas2, v) {
      var j :| 0 <= j < |areas| && Covers(areas[j], v);
      if j == i {
        assert Covers(areas2[if v < mid then i else |areas|], v);
      } else {
        assert Covers(areas2[j], v);
      }
    }
    forall j, k | 0 <= j < k < |areas2| ensures Apart(areas2[j], areas2[k]) {
      var k0 := if k == |areas| then i else k;
      if j != k0 {
        assert Apart(areas[if j < k0 then j else k0], areas[if j < k0 then k0 else j]);
      }
    }
  }

  // ---- One page at a time ----

  /** What mapping does to memory, seen from a moment when `live0` was live: nothing that
      was live then, other than this table's own frames, has changed, and all frames
      taken since are new. */
  ghost predicate Since(live0: set<nat>, tables0: set<nat>, pages0: seq<Page>, tables: set<nat>, mem: PhysMem)
    reads mem
  {
    && |mem.pages| == |pages0|
    && tables0 <= tables && (tables - tables0) !! live0
    && live0 <= mem.Live()
    && forall q :: q in live0 && q !in tables0 && q < |pages0| ==> mem.pages[q] == pages0[q]
  }

  /** `map_one` for a framed area; `false` where the original panics for want of frames. */
  method MapOne(vpn: nat, perm: nat, pt: PageTable, mem: PhysMem, ghost own: map<nat, nat>) returns (ok: bool, p: nat)
    requires pt.Valid(mem) && Holds(own, mem.Live(), ElemsOf(pt.frames))
    requires vpn < VPN_LIMIT && vpn !in pt.view && perm < 256
    modifies pt, mem
    ensures ok == (old(mem.Free()) > old(TablesMissing(mem.pages, pt.root, vpn)))
    ensures ok ==>
              && pt.Valid(mem) && pt.view == old(pt.view)[vpn := Leaf(p, WithV(perm))]
              && p !in old(mem.Live()) && p < |mem.pages| && mem.pages[p] == ZeroPage()
              && mem.Live() == old(mem.Live()) + {p} + (ElemsOf(pt.frames) - old(ElemsOf(pt.frames)))
              && Holds(own[vpn := p], mem.Live(), ElemsOf(pt.frames))
              && Since(old(mem.Live()), old(ElemsOf(pt.frames)), old(mem.pages), ElemsOf(pt.frames), mem)
              && mem.Free() >= old(mem.Free()) - 3
  {
    hide Refines, Table1, Table2, WithV;
    ghost var pages0, live0, tables0 := mem.pages, mem.Live(), ElemsOf(pt.frames);
    ghost var missing := TablesMissing(mem.pages, pt.root, vpn);
    ok, p := mem.FrameAlloc();
    if !ok {
      return;
    }
    FrameLemma(pages0, mem.pages, pt.root, tables0, pt.view);
    TablesKept(pages0, mem.pages, pt.root, tables0, pt.view, vpn);
    if mem.Free() < TablesMissing(mem.pages, pt.root, vpn) {
      return false, p;
    }
    pt.Map(vpn, p, perm, mem);
  }

  /** `unmap_one`: the tracker is dropped, its frame is free again, and the page has no
      translation any more. */
  method UnmapOne(vpn: nat, pt: PageTable, mem: PhysMem, ghost own: map<nat, nat>, p: nat)
    requires pt.Valid(mem) && Holds(own, mem.Live(), ElemsOf(pt.frames))
    requires vpn in own && own[vpn] == p && vpn in pt.view && vpn < VPN_LIMIT
    modifies pt`view, mem
    ensures pt.Valid(mem) && pt.view == old(pt.view) - {vpn}
    ensures mem.Live() == old(mem.Live()) - {p} && mem.Free() == old(mem.Free()) + 1
    ensures Holds(own - {vpn}, mem.Live(), ElemsOf(pt.frames))
    ensures |mem.pages| == old(|mem.pages|) && mem.first == old(mem.first) && mem.end == old(mem.end)
    ensures forall q :: 0 <= q < |mem.pages| && q !in ElemsOf(pt.frames) ==> mem.pages[q] == old(mem.pages)[q]
  {
    hide Refines;
    mem.FrameDealloc(p);
    pt.Unmap(vpn, mem);
  }

  // ---- MemorySet ----

  class MemorySet {
    const pt: PageTable
    var areas: seq<MapArea>
    ghost var own: map<nat, nat>

    ghost predicate Valid(mem: PhysMem)
      reads this, pt, mem
    {
      && pt.Valid(mem)
      && Holds(own, mem.Live(), ElemsOf(pt.frames))
      && AreasOk(areas, own, pt.view)
    }

    /** Every frame this space has trackers for: tables and pages. */
    ghost function Footprint(): set<nat>
      reads this`own, pt`frames
    {
      ElemsOf(pt.frames) + own.Values
    }

    /** `new_bare`. */
    constructor (mem: PhysMem)
      requires mem.Valid() && |mem.pages| <= PPN_LIMIT && mem.Free() > 0
      modifies mem
      ensures Valid(mem) && fresh(pt) && areas == [] && own == map[] && pt.view == map[]
      ensures Since(old(mem.Live()), {}, old(mem.pages), ElemsOf(pt.frames), mem)
      ensures mem.Live() == old(mem.Live()) + Footprint()
      ensures mem.Free() == old(mem.Free()) - 1
    {
      pt := new PageTable(mem);
      areas, own := [], map[];
    }

    /** Maps the pages of area `i` from its end up to `newEnd`: the loop of `MapArea::map`
        and of `append_to`. */
    method GrowArea(i: nat, newEnd: nat, mem: PhysMem) returns (ok: bool)
      requires Valid(mem) && i < |areas| && areas[i].end <= newEnd <= TRAMPOLINE_VPN
      requires forall v :: areas[i].end <= v < newEnd ==> v !in pt.view
      modifies this, pt, mem
      ensures old(mem.Free()) >= 3 * (newEnd - old(areas[i].end)) ==> ok
      ensures ok ==>
                && Valid(mem) && mem.Free() >= old(mem.Free()) - 3 * (newEnd - old(areas[i].end))
                && |areas| == old(|areas|) && areas[i].start == old(areas[i].start)
                && areas[i].end == newEnd && areas[i].perm == old(areas[i].perm)
                && (forall j :: 0 <= j < |areas| && j != i ==> areas[j] == old(areas[j]))
                && Added(old(own), old(mem.Live()), old(areas[i].end), newEnd, mem)
                && (forall w :: w in pt.view <==> w in old(pt.view) || old(areas[i].end) <= w < newEnd)
                && Since(old(mem.Live()), old(ElemsOf(pt.frames)), old(mem.pages), ElemsOf(pt.frames), mem)
                && mem.Live() - Footprint() == old(mem.Live() - Footprint())
    {
      hide PageTable.Valid, Holds, AreasOk, Since, PhysMem.Live, PhysMem.Free, Footprint;
      ghost var areas0, end0 := areas, areas[i].end;
      var v := areas[i].end;
      NothingSince(mem);
      while v < newEnd
        invariant end0 <= v <= newEnd && Valid(mem) && |areas| == |areas0|
        invariant areas[i].start == areas0[i].start && areas[i].end == v && areas[i].perm == areas0[i].perm
        invariant forall j :: 0 <= j < |areas| && j != i ==> areas[j] == areas0[j]
        invariant forall w :: w in pt.view <==> w in old(pt.view) || end0 <= w < v
        invariant Added(old(own), old(mem.Live()), end0, v, mem)
        invariant Since(old(mem.Live()), old(ElemsOf(pt.frames)), old(mem.pages), ElemsOf(pt.frames), mem)
        invariant mem.Free() >= old(mem.Free()) - 3 * (v - end0)
        invariant mem.Live() - Footprint() == old(mem.Live() - Footprint())
        invariant old(ElemsOf(pt.frames)) <= old(mem.Live())
      {
        ok := GrowByOne(i, mem, old(own), old(mem.Live()), end0, old(ElemsOf(pt.frames)), old(mem.pages));
        if !ok {
          return false;
        }
        v := v + 1;
      }
      ok := true;
    }

    /** The pages added since: exactly `from .. upto`, backed by frames that were not live
        then and that read as zero. */
    ghost predicate Added(own0: map<nat, nat>, live0: set<nat>, from: nat, upto: nat, mem: PhysMem)
      reads this, mem
    {
      && (forall v :: v in own <==> v in own0 || from <= v < upto)
      && (forall v :: v in own0 && !(from <= v < upto) ==> own[v] == own0[v])
      && (forall v :: v in own && from <= v < upto ==>
            own[v] !in live0 && own[v] < |mem.pages| && mem.pages[own[v]] == ZeroPage())
    }

    lemma NothingSince(mem: PhysMem)
      requires Valid(mem)
      ensures Since(mem.Live(), ElemsOf(pt.frames), mem.pages, ElemsOf(pt.frames), mem)
      ensures ElemsOf(pt.frames) <= mem.Live()
      ensures forall i :: 0 <= i < |areas| ==> Added(own, mem.Live(), areas[i].end, areas[i].end, mem)
    {
    }

    method GrowByOne(i: nat, mem: PhysMem, ghost own0: map<nat, nat>, ghost live0: set<nat>, ghost from: nat,
                     ghost tables0: set<nat>, ghost pages0: seq<Page>) returns (ok: bool)
      requires Valid(mem) && i < |areas| && areas[i].end < TRAMPOLINE_VPN && areas[i].end !in pt.view
      requires from <= areas[i].end && Added(own0, live0, from, areas[i].end, mem)
      requires tables0 <= live0 && Since(live0, tables0, pages0, ElemsOf(pt.frames), mem)
      modifies this, pt, mem
      ensures old(mem.Free()) >= 3 ==> ok
      ensures ok ==>
                && Valid(mem) && mem.Free() >= old(mem.Free()) - 3
                && |areas| == old(|areas|)
                && areas[i].start == old(areas[i].start) && areas[i].end == old(areas[i].end) + 1
                && areas[i].perm == old(areas[i].perm)
                && (forall j :: 0 <= j < |areas| && j != i ==> areas[j] == old(areas[j]))
                && (forall w :: w in pt.view <==> w in old(pt.view) || w == old(areas[i].end))
                && Added(own0, live0, from, areas[i].end, mem)
                && Since(live0, tables0, pages0, ElemsOf(pt.frames), mem)
                && mem.Live() - Footprint() == old(mem.Live() - Footprint())
    {
      hide PageTable.Valid, AreasOk, AreaOk, WithV, TablesMissing, Added, Footprint;
      var v := areas[i].end;
      PermOf(areas, own, pt.view, i);
      assert own.Keys <= pt.view.Keys by { OwnIsMapped(areas, own, pt.view); }
      ghost var view0 := pt.view;
      MissingAtMost2(mem.pages, pt.root, v);
      ghost var own1, live1, pages1, tables1 := own, mem.Live(), mem.pages, ElemsOf(pt.frames);
      FootprintIs();
      AddedIs(own0, live0, from, v, mem);
      var p;
      ok, p := MapOne(v, areas[i].perm, pt, mem, own);
      if !ok {
        return;
      }
      ExtendArea(areas, own, view0, i, p);
      areas := areas[i := Extended(areas[i], p)];
      own := own[v := p];
      assert Since(live0, tables0, pages0, ElemsOf(pt.frames), mem) by {
        SinceTrans(live0, tables0, pages0, live1, tables1, pages1, ElemsOf(pt.frames), mem);
      }
      AddedOne(own0, live0, from, v, own1, live1, tables1, pages1, p, mem);
      ValuesAfterAdd(own1, v, p);
      AccountAdd(live1, tables1, own1.Values, mem.Live(), ElemsOf(pt.frames), p);
      FootprintIs();
    }

    lemma AddedIs(own0: map<nat, nat>, live0: set<nat>, from: nat, v: nat, mem: PhysMem)
      requires Added(own0, live0, from, v, mem)
      ensures forall w :: w in own <==> w in own0 || from <= w < v
      ensures forall w :: w in own0 && !(from <= w < v) ==> own[w] == own0[w]
      ensures forall w :: w in own && from <= w < v ==>
                 own[w] !in live0 && own[w] < |mem.pages| && mem.pages[own[w]] == ZeroPage()
    {
    }

    lemma FootprintIs()
      ensures Footprint() == ElemsOf(pt.frames) + own.Values
    {
    }

    /** `push` of a new framed area over pages nothing is mapped at. */
    method Push(start: nat, end: nat, perm: nat, mem: PhysMem) returns (ok: bool)
      requires Valid(mem) && start <= end <= TRAMPOLINE_VPN && perm < 256
      requires forall v :: start <= v < end ==> v !in pt.view
      modifies this, pt, mem
      ensures old(mem.Free()) >= 3 * (end - start) ==> ok
      ensures ok ==>
                && Valid(mem) && mem.Free() >= old(mem.Free()) - 3 * (end - start)
                && |areas| == old(|areas|) + 1 && areas[..old(|areas|)] == old(areas)
                && areas[old(|areas|)].start == start && areas[old(|areas|)].end == end
                && areas[old(|areas|)].perm == perm
                && Added(old(own), old(mem.Live()), start, end, mem)
                && (forall w :: w in pt.view <==> w in old(pt.view) || start <= w < end)
                && Since(old(mem.Live()), old(ElemsOf(pt.frames)), old(mem.pages), ElemsOf(pt.frames), mem)
                && mem.Live() - Footprint() == old(mem.Live() - Footprint())
    {
      hide PageTable.Valid, Holds, AreasOk, Since, PhysMem.Live, PhysMem.Free, PhysMem.Valid;
      AddEmptyArea(areas, own, pt.view, start, perm);
      areas := areas + [MapArea(start, start, map[], perm)];
      ok := GrowArea(|areas| - 1, end, mem);
    }

    /** `map_trampoline`: one page at the very top that no area owns. */
    method MapTrampoline(ppn: nat, mem: PhysMem) returns (ok: bool)
      requires Valid(mem) && TRAMPOLINE_VPN !in pt.view && ppn < PPN_LIMIT
      modifies pt, mem
      ensures old(mem.Free()) >= 2 ==> ok
      ensures ok ==>
                && Valid(mem) && mem.Free() >= old(mem.Free()) - 2
                && pt.view == old(pt.view)[TRAMPOLINE_VPN := Leaf(ppn, WithV(TRAMPOLINE_FLAGS))]
                && Since(old(mem.Live()), old(ElemsOf(pt.frames)), old(mem.pages), ElemsOf(pt.frames), mem)
                && mem.Live() - Footprint() == old(mem.Live() - Footprint())
    {
      hide AreasOk, WithV, TablesMissing, Refines;
      MissingAtMost2(mem.pages, pt.root, TRAMPOLINE_VPN);
      if mem.Free() < TablesMissing(mem.pages, pt.root, TRAMPOLINE_VPN) {
        return false;
      }
      TrampolineOk(areas, own, pt.view, Leaf(ppn, WithV(TRAMPOLINE_FLAGS)));
      pt.Map(TRAMPOLINE_VPN, ppn, TRAMPOLINE_FLAGS, mem);
      ok := true;
    }

    /** Unmaps the pages of area `i` from its start up to `upto`: the loop of
        `MapArea::unmap`.  Exactly the frames of those pages become free. */
    method TrimLoop(i: nat, upto: nat, mem: PhysMem)
      requires Valid(mem) && i < |areas| && areas[i].start <= upto <= areas[i].end
      modifies this, pt, mem
      ensures Valid(mem) && |areas| == old(|areas|)
      ensures areas[i].start == upto && areas[i].end == old(areas[i].end) && areas[i].perm == old(areas[i].perm)
      ensures forall j :: 0 <= j < |areas| && j != i ==> areas[j] == old(areas[j])
      ensures Removed(old(own), old(pt.view), old(areas[i].start), upto)
      ensures pt.frames == old(pt.frames)
      ensures mem.Live() - Footprint() == old(mem.Live() - Footprint())
      ensures mem.Free() == old(mem.Free()) + (upto - old(areas[i].start))
      ensures |mem.pages| == old(|mem.pages|)
      ensures forall q :: 0 <= q < |mem.pages| && q !in ElemsOf(pt.frames) ==> mem.pages[q] == old(mem.pages)[q]
    {
      hide PageTable.Valid, Holds, AreasOk, PhysMem.Live, PhysMem.Free, Footprint;
      ghost var areas0, start0 := areas, areas[i].start;
      var v := areas[i].start;
      while v < upto
        invariant start0 <= v <= upto && Valid(mem) && |areas| == |areas0|
        invariant areas[i].start == v && areas[i].end == areas0[i].end && areas[i].perm == areas0[i].perm
        invariant forall j :: 0 <= j < |areas| && j != i ==> areas[j] == areas0[j]
        invariant Removed(old(own), old(pt.view), start0, v)
        invariant pt.frames == old(pt.frames)
        invariant mem.Live() - Footprint() == old(mem.Live() - Footprint())
        invariant mem.Free() == old(mem.Free()) + (v - start0)
        invariant |mem.pages| == old(|mem.pages|)
        invariant forall q :: 0 <= q < |mem.pages| && q !in ElemsOf(pt.frames) ==> mem.pages[q] == old(mem.pages)[q]
      {
        TrimOne(i, mem);
        v := v + 1;
      }
    }

    /** Pages `from .. upto` are gone, everything else is as it was. */
    ghost predicate Removed(own0: map<nat, nat>, view0: map<nat, Leaf>, from: nat, upto: nat)
      reads this, pt
    {
      && (forall v :: v in own <==> v in own0 && !(from <= v < upto))
      && (forall v :: v in own ==> own[v] == own0[v])
      && (forall v :: v in pt.view <==> v in view0 && !(from <= v < upto))
      && (forall v :: v in pt.view ==> pt.view[v] == view0[v])
    }

    method TrimOne(i: nat, mem: PhysMem)
      requires Valid(mem) && i < |areas| && areas[i].start < areas[i].end
      modifies this, pt, mem
      ensures Valid(mem) && areas == old(areas)[i := Trimmed(old(areas)[i])]
      ensures own == old(own) - {old(areas)[i].start} && pt.view == old(pt.view) - {old(areas)[i].start}
      ensures pt.frames == old(pt.frames)
      ensures mem.Live() - Footprint() == old(mem.Live() - Footprint()) && mem.Free() == old(mem.Free()) + 1
      ensures |mem.pages| == old(|mem.pages|)
      ensures forall q :: 0 <= q < |mem.pages| && q !in ElemsOf(pt.frames) ==> mem.pages[q] == old(mem.pages)[q]
    {
      hide PageTable.Valid, AreasOk, AreaOk;
      var v := areas[i].start;
      FirstPage(areas, own, pt.view, i);
      var p := areas[i].frames[v];
      TrimArea(areas, own, pt.view, i);
      ValuesAfterRemove(own, v);
      UnmapOne(v, pt, mem, own, p);
      areas := areas[i := Trimmed(areas[i])];
      own := own - {v};
    }

    /** `remove_area_with_start_vpn`: removes the first area that starts there, if any. */
    method RemoveArea(start: nat, mem: PhysMem) returns (found: bool, i: nat)
      requires Valid(mem)
      modifies this, pt, mem
      ensures Valid(mem) && pt.frames == old(pt.frames)
      ensures found <==> exists j :: 0 <= j < old(|areas|) && old(areas)[j].start == start
      ensures !found ==> areas == old(areas) && own == old(own) && pt.view == old(pt.view)
      ensures !found ==> mem.Live() == old(mem.Live())
      ensures mem.Free() >= old(mem.Free())
      ensures |mem.pages| == old(|mem.pages|)
      ensures forall q :: 0 <= q < |mem.pages| && q !in ElemsOf(pt.frames) ==> mem.pages[q] == old(mem.pages)[q]
      ensures found ==>
                && i < old(|areas|) && old(areas)[i].start == start
                && (forall j :: 0 <= j < i ==> old(areas)[j].start != start)
                && areas == old(areas)[..i] + old(areas)[i + 1..]
                && Removed(old(own), old(pt.view), start, old(areas)[i].end)
                && mem.Free() == old(mem.Free()) + (old(areas)[i].end - start)
      ensures mem.Live() - Footprint() == old(mem.Live() - Footprint())
    {
      hide PageTable.Valid, Holds, AreasOk, PhysMem.Live, PhysMem.Free, Footprint;
      i := 0;
      while i < |areas| && areas[i].start != start
        invariant 0 <= i <= |areas|
        invariant forall j :: 0 <= j < i ==> areas[j].start != start
      {
        i := i + 1;
      }
      if i == |areas| {
        return false, i;
      }
      PermOf(areas, own, pt.view, i);
      ghost var areas0 := areas;
      TrimLoop(i, areas[i].end, mem);
      DropEmptyArea(areas, own, pt.view, i);
      areas := areas[..i] + areas[i + 1..];
      assert areas == areas0[..i] + areas0[i + 1..];
      found := true;
    }

    /** `shrink_to`: the pages from `newEnd` on are unmapped and their frames freed. */
    method ShrinkArea(i: nat, newEnd: nat, mem: PhysMem)
      requires Valid(mem) && i < |areas| && areas[i].start <= newEnd <= areas[i].end
      modifies this, pt, mem
      ensures Valid(mem) && areas == old(areas)[i := LowerPart(old(areas)[i], newEnd)] && pt.frames == old(pt.frames)
      ensures |mem.pages| == old(|mem.pages|)
      ensures forall q :: 0 <= q < |mem.pages| && q !in ElemsOf(pt.frames) ==> mem.pages[q] == old(mem.pages)[q]
      ensures Removed(old(own), old(pt.view), newEnd, old(areas)[i].end)
      ensures mem.Free() == old(mem.Free()) + (old(areas)[i].end - newEnd)
      ensures mem.Live() - Footprint() == old(mem.Live() - Footprint())
    {
      hide PageTable.Valid, Holds, AreasOk, PhysMem.Live, PhysMem.Free, Footprint, LowerPart, UpperPart;
      ghost var areas0 := areas;
      SplitArea(areas, own, pt.view, i, newEnd);
      PartBounds(areas[i], newEnd);
      areas := areas[i := LowerPart(areas[i], newEnd)] + [UpperPart(areas[i], newEnd)];
      ghost var split := areas;
      TrimLoop(|areas| - 1, areas[|areas| - 1].end, mem);
      DropEmptyArea(areas, own, pt.view, |areas| - 1);
      ghost var n := |areas|;
      assert areas[..n - 1] + areas[n..] == areas[..n - 1];
      areas := areas[..|areas| - 1];
      assert areas == areas0[i := LowerPart(areas0[i], newEnd)];
    }

    lemma AddedOne(own0: map<nat, nat>, live0: set<nat>, from: nat, v: nat, own1: map<nat, nat>,
                   live1: set<nat>, tables1: set<nat>, pages1: seq<Page>, p: nat, mem: PhysMem)
      requires from <= v && (forall w :: w in own1 <==> w in own0 || from <= w < v)
      requires forall w :: w in own0 && !(from <= w < v) ==> own1[w] == own0[w]
      requires forall w :: w in own1 && from <= w < v ==>
                 own1[w] !in live0 && own1[w] < |pages1| && pages1[own1[w]] == ZeroPage()
      requires own == own1[v := p] && live0 <= live1 && p !in live1 && v !in own1
      requires p < |mem.pages| && mem.pages[p] == ZeroPage()
      requires Holds(own1, live1, tables1) && |mem.pages| == |pages1|
      requires forall q :: q in live1 && q !in tables1 && q < |pages1| ==> mem.pages[q] == pages1[q]
      ensures Added(own0, live0, from, v + 1, mem)
    {
    }
  }

  lemma ValuesAfterAdd(own: map<nat, nat>, v: nat, p: nat)
    requires v !in own
    ensures own[v := p].Values == own.Values + {p}
  {
    var own2 := own[v := p];
    forall x | x in own.Values + {p} ensures x in own2.Values {
      if x == p {
        assert own2[v] == p;
      } else {
        var w :| w in own && own[w] == x;
        assert own2[w] == x;
      }
    }
  }

  lemma AccountAdd(live1: set<nat>, tables1: set<nat>, values1: set<nat>, live: set<nat>, tables: set<nat>, p: nat)
    requires live == live1 + {p} + (tables - tables1) && p !in live1
    requires tables1 <= tables && (tables - tables1) !! live1
    requires values1 <= live1
    ensures live - (tables + (values1 + {p})) == live1 - (tables1 + values1)
  {
  }

  lemma ValuesAfterRemove(own: map<nat, nat>, v: nat)
    requires v in own && forall w :: w in own && w != v ==> own[w] != own[v]
    ensures (own - {v}).Values == own.Values - {own[v]}
  {
    var own2 := own - {v};
    forall x | x in own.Values - {own[v]} ensures x in own2.Values {
      var w :| w in own && own[w] == x;
      assert own2[w] == x;
    }
  }

  lemma SinceTrans(live0: set<nat>, tables0: set<nat>, pages0: seq<Page>, live1: set<nat>, tables1: set<nat>,
                   pages1: seq<Page>, tables: set<nat>, mem: PhysMem)
    requires |pages1| == |pages0| && tables0 <= tables1 && (tables1 - tables0) !! live0 && live0 <= live1
    requires forall q :: q in live0 && q !in tables0 && q < |pages0| ==> pages1[q] == pages0[q]
    requires Since(live1, tables1, pages1, tables, mem)
    ensures Since(live0, tables0, pages0, tables, mem)
  {
  }

  lemma MissingAtMost2(m: Mem, root: nat, vpn: nat)
    requires vpn < VPN_LIMIT
    ensures TablesMissing(m, root, vpn) <= 2
  {
  }

  lemma PermOf(areas: seq<MapArea>, own: map<nat, nat>, view: map<nat, Leaf>, i: nat)
    requires AreasOk(areas, own, view) && i < |areas|
    ensures areas[i].perm < 256 && areas[i].start <= areas[i].end <= TRAMPOLINE_VPN
  {
    assert AreaOk(areas[i], own, view);
  }

  lemma OwnIsMapped(areas: seq<MapArea>, own: map<nat, nat>, view: map<nat, Leaf>)
    requires AreasOk(areas, own, view)
    ensures own.Keys <= view.Keys
  {
    hide WithV, AreaOk;
    forall v | v in own ensures v in view {
      var j :| 0 <= j < |areas| && Covers(areas[j], v);
      CoveredIsMapped(areas[j], own, view, v);
    }
  }

  lemma TrampolineOk(areas: seq<MapArea>, own: map<nat, nat>, view: map<nat, Leaf>, leaf: Leaf)
    requires AreasOk(areas, own, view)
    ensures AreasOk(areas, own, view[TRAMPOLINE_VPN := leaf])
  {
    hide WithV, AreaOk;
    forall j | 0 <= j < |areas| ensures AreaOk(areas[j], own, view[TRAMPOLINE_VPN := leaf]) {
      BoundsOf(areas[j], own, view);
      AreaElsewhere(areas[j], own, view, own, view[TRAMPOLINE_VPN := leaf]);
    }
  }

  lemma FirstPage(areas: seq<MapArea>, own: map<nat, nat>, view: map<nat, Leaf>, i: nat)
    requires AreasOk(areas, own, view) && i < |areas| && areas[i].start < areas[i].end
    ensures var a := areas[i];
            && a.start in a.frames && a.start in own && own[a.start] == a.frames[a.start]
            && a.start in view && a.start < VPN_LIMIT
  {
    hide WithV, AreaOk;
    CoveredIsMapped(areas[i], own, view, areas[i].start);
  }

  lemma PartBounds(a: MapArea, mid: nat)
    ensures LowerPart(a, mid).start == a.start && LowerPart(a, mid).end == mid
    ensures UpperPart(a, mid).start == mid && UpperPart(a, mid).end == a.end && UpperPart(a, mid).perm == a.perm
  {
  }
}
