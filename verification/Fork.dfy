/**
 * Copying an address space for `fork`.
 *
 * The child gets the same areas, fresh tables and fresh frames, and the bytes of
 * every page.  Nothing that was live before is touched, so afterwards the two
 * spaces share no frame and a write through one cannot be seen in the other.
 */
module ForkSpace {
  import opened Basics
  import opened PhysMemory
  import opened Sv39
  import opened AddressSpace
  import opened SpaceRuns

  ghost predicate Alike(a: MapArea, b: MapArea) {
    a.start == b.start && a.end == b.end && a.perm == b.perm
  }

  ghost predicate AllAlike(xs: seq<MapArea>, ys: seq<MapArea>, n: nat) {
    n <= |xs| && n <= |ys| && forall j :: 0 <= j < n ==> Alike(xs[j], ys[j])
  }

  /** Page `v` of the child holds what page `v` of the parent held. */
  ghost predicate SameBytes(v: nat, childOwn: map<nat, nat>, parentOwn: map<nat, nat>, pages: seq<Page>,
                            pages0: seq<Page>) {
    && v in childOwn && v in parentOwn && childOwn[v] < |pages| && parentOwn[v] < |pages0|
    && pages[childOwn[v]] == pages0[parentOwn[v]]
  }

  /** A space stays valid while others take frames and write elsewhere. */
  lemma StillValid(ms: MemorySet, mem: PhysMem, live0: set<nat>, pages0: seq<Page>)
    requires mem.Valid() && |mem.pages| == |pages0| <= PPN_LIMIT
    requires NoDup(ms.pt.frames) && ElemsOf(ms.pt.frames) <= live0
    requires Refines(pages0, ms.pt.root, ElemsOf(ms.pt.frames), ms.pt.view)
    requires Holds(ms.own, live0, ElemsOf(ms.pt.frames)) && AreasOk(ms.areas, ms.own, ms.pt.view)
    requires live0 <= mem.Live() && forall q :: q in live0 && q < |pages0| ==> mem.pages[q] == pages0[q]
    ensures ms.Valid(mem)
  {
    hide Refines, AreasOk, PhysMem.Valid, PhysMem.Live;
    TablesInMemory(pages0, ms.pt.root, ElemsOf(ms.pt.frames), ms.pt.view);
    FrameLemma(pages0, mem.pages, ms.pt.root, ElemsOf(ms.pt.frames), ms.pt.view);
  }

  lemma TablesInMemory(m: Mem, root: nat, frames: set<nat>, view: map<nat, Leaf>)
    requires Refines(m, root, frames, view)
    ensures forall f :: f in frames ==> f < |m|
  {
  }

  /** The translation of an owned page is its frame. */
  lemma OwnedLeaf(ms: MemorySet, mem: PhysMem, v: nat)
    requires ms.Valid(mem) && v in ms.own
    ensures v < VPN_LIMIT && v in ms.pt.view && ms.pt.view[v].ppn == ms.own[v]
    ensures ms.own[v] < |mem.pages| && ms.own[v] !in ElemsOf(ms.pt.frames)
  {
    hide Refines, WithV;
    var j :| 0 <= j < |ms.areas| && Covers(ms.areas[j], v);
    assert AreaOk(ms.areas[j], ms.own, ms.pt.view);
    assert v in ms.areas[j].frames;
  }

  /** Overwriting a page the space owns leaves its tables alone. */
  lemma WritePage(ms: MemorySet, pages0: seq<Page>, mem: PhysMem, p: nat)
    requires mem.Valid() && |mem.pages| == |pages0| <= PPN_LIMIT && p < |pages0|
    requires NoDup(ms.pt.frames) && ElemsOf(ms.pt.frames) <= mem.Live()
    requires Refines(pages0, ms.pt.root, ElemsOf(ms.pt.frames), ms.pt.view)
    requires Holds(ms.own, mem.Live(), ElemsOf(ms.pt.frames)) && AreasOk(ms.areas, ms.own, ms.pt.view)
    requires p !in ElemsOf(ms.pt.frames) && mem.pages == pages0[p := mem.pages[p]]
    ensures ms.Valid(mem)
  {
    hide Refines, AreasOk;
    TablesInMemory(pages0, ms.pt.root, ElemsOf(ms.pt.frames), ms.pt.view);
    FrameLemma(pages0, mem.pages, ms.pt.root, ElemsOf(ms.pt.frames), ms.pt.view);
  }

  /** `dst_ppn.bytes_array().copy_from_slice(src_ppn.bytes_array())` for one page. */
  method CopyPage(v: nat, parent: MemorySet, child: MemorySet, mem: PhysMem)
    requires parent.Valid(mem) && child.Valid(mem) && v in parent.own && v in child.own
    modifies mem`pages
    ensures child.own[v] < old(|mem.pages|) && parent.own[v] < old(|mem.pages|)
    ensures mem.pages == old(mem.pages)[child.own[v] := old(mem.pages)[parent.own[v]]]
    ensures child.Valid(mem)
  {
    hide Refines, AreasOk, Translate;
    OwnedLeaf(parent, mem, v);
    OwnedLeaf(child, mem, v);
    var src := parent.pt.TranslateVpn(v, mem);
    var dst := child.pt.TranslateVpn(v, mem);
    ghost var pages0 := mem.pages;
    mem.pages := mem.pages[PpnOf(dst.value) := mem.pages[PpnOf(src.value)]];
    WritePage(child, pages0, mem, child.own[v]);
  }

  /** The copy loop over one area. */
  method CopyArea(start: nat, end: nat, parent: MemorySet, child: MemorySet, mem: PhysMem,
                  ghost live0: set<nat>, ghost pages0: seq<Page>)
    requires start <= end && parent != child && parent.pt != child.pt
    requires child.Valid(mem) && forall v :: start <= v < end ==> v in parent.own && v in child.own
    requires ValidAt(parent, live0, pages0) && Untouched(live0, pages0, mem)
    requires forall v :: v in child.own ==> child.own[v] !in live0
    modifies mem`pages
    ensures child.Valid(mem) && Untouched(live0, pages0, mem) && |mem.pages| == old(|mem.pages|)
    ensures forall v :: start <= v < end ==> SameBytes(v, child.own, parent.own, mem.pages, pages0)
    ensures forall v :: v in child.own && !(start <= v < end) && child.own[v] < |mem.pages| ==>
              child.own[v] < old(|mem.pages|) && mem.pages[child.own[v]] == old(mem.pages)[child.own[v]]
  {
    hide Refines, AreasOk, ValidAt, NoDup;
    ghost var own := child.own;
    Distinctness(child, mem);
    var v := start;
    while v < end
      invariant start <= v <= end
      invariant child.Valid(mem) && Untouched(live0, pages0, mem) && |mem.pages| == |pages0|
      invariant forall w :: start <= w < v ==> SameBytes(w, own, parent.own, mem.pages, pages0)
      invariant forall w :: w in own && !(start <= w < v) && own[w] < |mem.pages| ==>
                  mem.pages[own[w]] == old(mem.pages)[own[w]]
    {
      ValidStill(parent, live0, pages0, mem);
      ghost var pages1 := mem.pages;
      CopyPage(v, parent, child, mem);
      KeepSame(own, parent.own, v, start, pages0, pages1, mem.pages, live0);
      v := v + 1;
    }
  }

  lemma Distinctness(ms: MemorySet, mem: PhysMem)
    requires ms.Valid(mem)
    ensures forall v, w :: v in ms.own && w in ms.own && v != w ==> ms.own[v] != ms.own[w]
  {
  }

  lemma KeepSame(own: map<nat, nat>, parentOwn: map<nat, nat>, v: nat, start: nat,
                 pages0: seq<Page>, pages1: seq<Page>, pages2: seq<Page>, live0: set<nat>)
    requires v in own && v in parentOwn && own[v] < |pages1| == |pages0| && parentOwn[v] < |pages1|
    requires parentOwn[v] in live0 && forall q :: q in live0 && q < |pages0| ==> pages1[q] == pages0[q]
    requires pages2 == pages1[own[v] := pages1[parentOwn[v]]]
    requires forall a, b :: a in own && b in own && a != b ==> own[a] != own[b]
    requires forall w :: start <= w < v ==> SameBytes(w, own, parentOwn, pages1, pages0)
    ensures forall w :: start <= w <= v ==> SameBytes(w, own, parentOwn, pages2, pages0)
    ensures forall w :: w in own && w != v && own[w] < |pages1| ==> pages2[own[w]] == pages1[own[w]]
  {
    forall w | start <= w <= v ensures SameBytes(w, own, parentOwn, pages2, pages0) {
      if w < v {
        assert SameBytes(w, own, parentOwn, pages1, pages0);
      }
    }
  }

  /** A valid space at a moment when `live0` was live and memory held `pages0`. */
  ghost predicate ValidAt(ms: MemorySet, live0: set<nat>, pages0: seq<Page>)
    reads ms, ms.pt
  {
    && |pages0| <= PPN_LIMIT
    && NoDup(ms.pt.frames) && ElemsOf(ms.pt.frames) <= live0
    && Refines(pages0, ms.pt.root, ElemsOf(ms.pt.frames), ms.pt.view)
    && Holds(ms.own, live0, ElemsOf(ms.pt.frames)) && AreasOk(ms.areas, ms.own, ms.pt.view)
  }

  /** Nothing that was live then has been given back or written. */
  ghost predicate Untouched(live0: set<nat>, pages0: seq<Page>, mem: PhysMem)
    reads mem
  {
    && mem.Valid() && |mem.pages| == |pages0|
    && live0 <= mem.Live() && forall q :: q in live0 && q < |pages0| ==> mem.pages[q] == pages0[q]
  }

  lemma ValidStill(ms: MemorySet, live0: set<nat>, pages0: seq<Page>, mem: PhysMem)
    requires ValidAt(ms, live0, pages0) && Untouched(live0, pages0, mem)
    ensures ms.Valid(mem) && forall v :: v in ms.own ==> ms.own[v] in live0
  {
    hide Refines, AreasOk;
    StillValid(ms, mem, live0, pages0);
  }

  /** The child after its first `n` areas. */
  ghost predicate Copied(parent: MemorySet, child: MemorySet, mem: PhysMem, n: nat, live0: set<nat>, pages0: seq<Page>)
    reads parent, child, child.pt, mem
  {
    && child.Valid(mem) && |child.areas| == n && AllAlike(child.areas, parent.areas, n)
    && Untouched(live0, pages0, mem)
    && (forall v :: v in child.own ==> child.own[v] !in live0 && SameBytes(v, child.own, parent.own, mem.pages, pages0))
    && ElemsOf(child.pt.frames) !! live0
    && mem.Live() - child.Footprint() == live0
  }

  /** The pages of the parent's next area are not mapped in the child yet. */
  lemma NextIsFree(parent: MemorySet, child: MemorySet, mem: PhysMem, n: nat, live0: set<nat>, pages0: seq<Page>,
                   v: nat)
    requires ValidAt(parent, live0, pages0) && Copied(parent, child, mem, n, live0, pages0)
    requires n < |parent.areas| && Covers(parent.areas[n], v)
    ensures v !in child.pt.view && v < TRAMPOLINE_VPN && v in parent.own
  {
    hide Refines, AreaOk, WithV;
    CoveredIsMapped(parent.areas[n], parent.own, parent.pt.view, v);
    forall j | 0 <= j < n ensures !Covers(child.areas[j], v) {
      assert Alike(child.areas[j], parent.areas[j]);
      assert Apart(parent.areas[j], parent.areas[n]);
    }
    assert v !in child.own;
  }

  lemma MemoryOf(ms: MemorySet, mem: PhysMem)
    requires ms.Valid(mem)
    ensures mem.Valid() && |mem.pages| <= PPN_LIMIT
  {
  }

  method CopyNext(parent: MemorySet, child: MemorySet, mem: PhysMem, n: nat, ghost live0: set<nat>,
                  ghost pages0: seq<Page>)
    returns (ok: bool)
    requires parent != child && parent.pt != child.pt
    requires ValidAt(parent, live0, pages0) && Copied(parent, child, mem, n, live0, pages0) && n < |parent.areas|
    modifies child, child.pt, mem
    ensures old(mem.Free()) >= 3 * (parent.areas[n].end - parent.areas[n].start) ==> ok
    ensures ok ==> Copied(parent, child, mem, n + 1, live0, pages0)
    ensures ok ==> mem.Free() >= old(mem.Free()) - 3 * (parent.areas[n].end - parent.areas[n].start)
    ensures ok ==> child.pt.view.Keys >= old(child.pt.view.Keys)
  {
    hide Refines, AreasOk, AreaOk, PageTable.Valid, ValidAt, Untouched, SameBytes, Since, Holds, PhysMem.Live,
      PhysMem.Free, MemorySet.Added, MemorySet.Footprint;
    var area := parent.areas[n];
    NextBounds(parent, live0, pages0, n);
    forall v | area.start <= v < area.end ensures v !in child.pt.view && v in parent.own {
      NextIsFree(parent, child, mem, n, live0, pages0, v);
    }
    ghost var own0, pages1, live1, tables1 := child.own, mem.pages, mem.Live(), ElemsOf(child.pt.frames);
    HoldsNow(child, mem);
    UntouchedFacts(live0, pages0, mem);
    ok := child.Push(area.start, area.end, area.perm, mem);
    if !ok {
      return;
    }
    MemoryOf(child, mem);
    PushUntouched(live0, pages0, live1, tables1, pages1, ElemsOf(child.pt.frames), mem);
    AddedFacts(child, own0, live0, live1, area.start, area.end, mem);
    ghost var pages2 := mem.pages;
    OldPagesKept(own0, live1, tables1, pages1, ElemsOf(child.pt.frames), mem);
    CopyArea(area.start, area.end, parent, child, mem, live0, pages0);
    AllSame(own0, child.own, parent.own, area.start, area.end, pages1, pages2, mem.pages, pages0);
  }

  lemma UntouchedFacts(live0: set<nat>, pages0: seq<Page>, mem: PhysMem)
    requires Untouched(live0, pages0, mem)
    ensures |mem.pages| == |pages0| && live0 <= mem.Live()
    ensures forall q :: q in live0 && q < |pages0| ==> mem.pages[q] == pages0[q]
  {
  }

  lemma HoldsNow(ms: MemorySet, mem: PhysMem)
    requires ms.Valid(mem)
    ensures Holds(ms.own, mem.Live(), ElemsOf(ms.pt.frames))
  {
  }

  /** After a push, the pages owned before are as they were. */
  lemma OldPagesKept(own0: map<nat, nat>, live1: set<nat>, tables1: set<nat>, pages1: seq<Page>, tables: set<nat>,
                     mem: PhysMem)
    requires Holds(own0, live1, tables1) && Since(live1, tables1, pages1, tables, mem)
    ensures |mem.pages| == |pages1|
    ensures forall v :: v in own0 && own0[v] < |pages1| ==> mem.pages[own0[v]] == pages1[own0[v]]
  {
  }

  lemma AddedFacts(child: MemorySet, own0: map<nat, nat>, live0: set<nat>, live1: set<nat>, start: nat, end: nat,
                   mem: PhysMem)
    requires child.Added(own0, live1, start, end, mem) && live0 <= live1
    requires forall v :: v in own0 ==> own0[v] !in live0
    ensures forall v :: v in child.own <==> v in own0 || start <= v < end
    ensures forall v :: v in own0 && !(start <= v < end) ==> child.own[v] == own0[v]
    ensures forall v :: v in child.own ==> child.own[v] !in live0
  {
  }

  lemma AllSame(own0: map<nat, nat>, own: map<nat, nat>, parentOwn: map<nat, nat>, start: nat, end: nat,
                pages1: seq<Page>, pages2: seq<Page>, pages: seq<Page>, pages0: seq<Page>)
    requires forall v :: v in own <==> v in own0 || start <= v < end
    requires forall v :: v in own0 && !(start <= v < end) ==> own[v] == own0[v]
    requires |pages| == |pages2| == |pages1|
    requires forall v :: v in own0 ==> SameBytes(v, own0, parentOwn, pages1, pages0)
    requires forall v :: v in own0 && own0[v] < |pages1| ==> pages2[own0[v]] == pages1[own0[v]]
    requires forall v :: start <= v < end ==> SameBytes(v, own, parentOwn, pages, pages0)
    requires forall v :: v in own && !(start <= v < end) && own[v] < |pages| ==> pages[own[v]] == pages2[own[v]]
    ensures forall v :: v in own ==> SameBytes(v, own, parentOwn, pages, pages0)
  {
    forall v | v in own ensures SameBytes(v, own, parentOwn, pages, pages0) {
      if !(start <= v < end) {
        assert SameBytes(v, own0, parentOwn, pages1, pages0);
      }
    }
  }

  lemma NextBounds(parent: MemorySet, live0: set<nat>, pages0: seq<Page>, n: nat)
    requires ValidAt(parent, live0, pages0) && n < |parent.areas|
    ensures parent.areas[n].start <= parent.areas[n].end <= TRAMPOLINE_VPN && parent.areas[n].perm < 256
  {
    hide Refines;
    assert AreaOk(parent.areas[n], parent.own, parent.pt.view);
  }

  lemma PushUntouched(live0: set<nat>, pages0: seq<Page>, live1: set<nat>, tables1: set<nat>, pages1: seq<Page>,
                      tables: set<nat>, mem: PhysMem)
    requires |pages1| == |pages0| && live0 <= live1 && tables1 !! live0
    requires forall q :: q in live0 && q < |pages0| ==> pages1[q] == pages0[q]
    requires mem.Valid() && Since(live1, tables1, pages1, tables, mem)
    ensures Untouched(live0, pages0, mem) && tables !! live0
  {
  }

  /** `from_existed_user`.  It takes at most three frames per page, and three for the root
      and the tables of the trampoline. */
  method FromExistedUser(parent: MemorySet, trampoline: nat, mem: PhysMem) returns (ok: bool, child: MemorySet)
    requires parent.Valid(mem) && trampoline < PPN_LIMIT && mem.Free() > 0
    modifies mem
    ensures old(mem.Free()) >= 3 + 3 * PagesOf(RegionsOf(parent.areas)) ==> ok
    ensures ok ==>
              && mem.Free() >= old(mem.Free()) - 3 - 3 * PagesOf(RegionsOf(parent.areas))
              && fresh(child) && fresh(child.pt) && parent.Valid(mem) && child.Valid(mem)
              && |mem.pages| == old(|mem.pages|)
              && |child.areas| == |parent.areas| && AllAlike(child.areas, parent.areas, |parent.areas|)
              && child.own.Keys == parent.own.Keys
              && (forall v :: v in child.own ==> SameBytes(v, child.own, parent.own, mem.pages, old(mem.pages)))
              && child.pt.view.Keys == parent.own.Keys + {TRAMPOLINE_VPN}
              && (forall q :: q in old(mem.Live()) && q < |mem.pages| ==> mem.pages[q] == old(mem.pages)[q])
              && child.Footprint() !! old(mem.Live())
              && mem.Live() == old(mem.Live()) + child.Footprint()
  {
    hide Refines, AreasOk, AreaOk, PageTable.Valid, ValidAt, PagesOf, RegionsOf, WithV, PhysMem.Live, PhysMem.Free,
      PhysMem.Valid;
    ghost var live0, pages0, rs := mem.Live(), mem.pages, RegionsOf(parent.areas);
    assert ValidAt(parent, live0, pages0) by { ValidNow(parent, mem); }
    MemoryOf(parent, mem);
    child := new MemorySet(mem);
    FootprintFresh(child, mem, live0);
    ghost var live1, tables1, pages1 := mem.Live(), ElemsOf(child.pt.frames), mem.pages;
    PagesNonneg(parent, live0, pages0, |parent.areas|);
    ok := child.MapTrampoline(trampoline, mem);
    if !ok {
      return;
    }
    StartCopied(parent, child, mem, live0, pages0, live1, tables1, pages1);
    var n := 0;
    NoPages(rs);
    while n < |parent.areas|
      invariant 0 <= n <= |parent.areas|
      invariant fresh(child) && fresh(child.pt) && parent != child && parent.pt != child.pt
      invariant ValidAt(parent, live0, pages0) && Copied(parent, child, mem, n, live0, pages0)
      invariant TRAMPOLINE_VPN in child.pt.view
      invariant mem.Free() >= old(mem.Free()) - 3 - 3 * PagesOf(rs[..n])
    {
      PagesStep(rs, n);
      PagesNonneg(parent, live0, pages0, n + 1);
      PagesMono(parent, live0, pages0, n + 1);
      ok := CopyNext(parent, child, mem, n, live0, pages0);
      if !ok {
        return;
      }
      n := n + 1;
    }
    assert rs[..|rs|] == rs;
    ValidStill(parent, live0, pages0, mem);
    SameKeys(parent, child, mem, live0, pages0);
    ok := true;
  }

  lemma ValidNow(ms: MemorySet, mem: PhysMem)
    requires ms.Valid(mem)
    ensures ValidAt(ms, mem.Live(), mem.pages)
  {
  }

  lemma FootprintFresh(child: MemorySet, mem: PhysMem, live0: set<nat>)
    requires child.Valid(mem) && child.own == map[] && mem.Live() == live0 + child.Footprint()
    requires ElemsOf(child.pt.frames) !! live0
    ensures mem.Live() - child.Footprint() == live0
  {
    assert child.own.Values == {};
  }

  lemma StartCopied(parent: MemorySet, child: MemorySet, mem: PhysMem, live0: set<nat>, pages0: seq<Page>,
                    live1: set<nat>, tables1: set<nat>, pages1: seq<Page>)
    requires child.Valid(mem) && child.areas == [] && child.own == map[]
    requires |pages1| == |pages0| && live0 <= live1 && tables1 !! live0
    requires forall q :: q in live0 && q < |pages0| ==> pages1[q] == pages0[q]
    requires Since(live1, tables1, pages1, ElemsOf(child.pt.frames), mem)
    requires mem.Live() - child.Footprint() == live0
    ensures Copied(parent, child, mem, 0, live0, pages0)
  {
    hide Refines, AreasOk;
    MemoryOf(child, mem);
    PushUntouched(live0, pages0, live1, tables1, pages1, ElemsOf(child.pt.frames), mem);
  }

  lemma {:induction false} PagesNonneg(parent: MemorySet, live0: set<nat>, pages0: seq<Page>, n: nat)
    requires ValidAt(parent, live0, pages0) && n <= |parent.areas|
    ensures PagesOf(RegionsOf(parent.areas)[..n]) >= 0
    ensures n == |parent.areas| ==> PagesOf(RegionsOf(parent.areas)) >= 0
    decreases n
  {
    hide ValidAt, PagesOf, RegionsOf;
    var rs := RegionsOf(parent.areas);
    if n > 0 {
      PagesNonneg(parent, live0, pages0, n - 1);
      PagesStep(rs, n - 1);
      NextBounds(parent, live0, pages0, n - 1);
    } else {
      NoPages(rs);
    }
    assert n == |rs| ==> rs[..n] == rs;
  }

  lemma {:induction false} PagesMono(parent: MemorySet, live0: set<nat>, pages0: seq<Page>, n: nat)
    requires ValidAt(parent, live0, pages0) && n <= |parent.areas|
    ensures PagesOf(RegionsOf(parent.areas)[..n]) <= PagesOf(RegionsOf(parent.areas))
    decreases |parent.areas| - n
  {
    hide ValidAt, PagesOf, RegionsOf;
    var rs := RegionsOf(parent.areas);
    if n < |parent.areas| {
      PagesStep(rs, n);
      NextBounds(parent, live0, pages0, n);
      PagesMono(parent, live0, pages0, n + 1);
    } else {
      assert rs[..n] == rs;
    }
  }

  /** All areas copied: the same pages are mapped. */
  lemma SameKeys(parent: MemorySet, child: MemorySet, mem: PhysMem, live0: set<nat>, pages0: seq<Page>)
    requires ValidAt(parent, live0, pages0) && Copied(parent, child, mem, |parent.areas|, live0, pages0)
    requires TRAMPOLINE_VPN in child.pt.view
    ensures child.own.Keys == parent.own.Keys
    ensures child.pt.view.Keys == parent.own.Keys + {TRAMPOLINE_VPN}
    ensures child.Footprint() !! live0 && mem.Live() == live0 + child.Footprint()
  {
    hide Refines, AreaOk, WithV;
    forall v | v in parent.own ensures v in child.own {
      var j :| 0 <= j < |parent.areas| && Covers(parent.areas[j], v);
      assert Alike(child.areas[j], parent.areas[j]);
      assert Covers(child.areas[j], v);
      CoveredIsMapped(child.areas[j], child.own, child.pt.view, v);
    }
    OwnIsMapped(child.areas, child.own, child.pt.view);
    assert child.Footprint() <= mem.Live();
  }

  /** Isolation: after the fork, overwriting any page that one of two spaces with
      disjoint footprints owns changes neither the translations nor the bytes of the other. */
  lemma WriteIsInvisible(mine: MemorySet, other: MemorySet, mem: PhysMem, v: nat, page: Page)
    requires mine.Valid(mem) && other.Valid(mem) && mine.Footprint() !! other.Footprint() && v in mine.own
    ensures mine.own[v] < |mem.pages|
    ensures var pages2 := mem.pages[mine.own[v] := page];
            && Refines(pages2, other.pt.root, ElemsOf(other.pt.frames), other.pt.view)
            && (forall w :: w in other.own && other.own[w] < |mem.pages| ==>
                  pages2[other.own[w]] == mem.pages[other.own[w]])
            && Refines(pages2, mine.pt.root, ElemsOf(mine.pt.frames), mine.pt.view)
  {
    hide Refines, AreasOk;
    OwnedLeaf(mine, mem, v);
    var p := mine.own[v];
    assert p in mine.Footprint();
    assert p !in other.Footprint();
    var pages2 := mem.pages[p := page];
    TablesInMemory(mem.pages, other.pt.root, ElemsOf(other.pt.frames), other.pt.view);
    TablesInMemory(mem.pages, mine.pt.root, ElemsOf(mine.pt.frames), mine.pt.view);
    FrameLemma(mem.pages, pages2, other.pt.root, ElemsOf(other.pt.frames), other.pt.view);
    FrameLemma(mem.pages, pages2, mine.pt.root, ElemsOf(mine.pt.frames), mine.pt.view);
  }
}
