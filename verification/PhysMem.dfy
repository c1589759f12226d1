/**
 * Physical memory and the frame allocator.
 *
 * The frame allocator hands out page numbers of [first, end): numbers that were
 * given back, last in first out, then fresh ones in increasing order.  A frame
 * tracker zeroes its page when it is made and gives the number back when dropped.
 */
module PhysMemory {
  import opened Basics
  import opened LittleEndian

  const PAGE_SIZE := 4096

  type Page = p: seq<Byte> | |p| == 4096 witness seq(4096, i => 0)

  function ZeroPage(): (p: Page)
    ensures forall i :: 0 <= i < 4096 ==> p[i] == 0
  {
    seq(4096, i => 0)
  }

  ghost function ElemsOf(s: seq<nat>): set<nat> {
    set x | x in s
  }

  class PhysMem {
    var pages: seq<Page>
    ghost var first: nat
    var current: nat
    var end: nat
    var recycled: seq<nat>

    ghost predicate Valid()
      reads this
    {
      && first <= current <= end <= |pages|
      && NoDup(recycled)
      && forall p :: p in recycled ==> first <= p < current
    }

    /** Frames handed out and not given back: what the live trackers own. */
    ghost function Live(): (s: set<nat>)
      reads this`first, this`current, this`recycled
    {
      set p: nat | first <= p < current && p !in recycled
    }

    /** How many more frames can be handed out. */
    function Free(): int
      reads this`current, this`end, this`recycled
    {
      end - current + |recycled|
    }

    /** `init`: nothing is handed out yet. */
    constructor (memory: seq<Page>, l: nat, r: nat)
      requires l <= r <= |memory|
      ensures Valid() && Live() == {} && pages == memory && Free() == r - l && first == l && end == r
    {
      pages, first, current, end, recycled := memory, l, l, r, [];
    }

    /** `frame_alloc`: `false` exactly when nothing is left; the page of a new tracker
        was not owned by any live tracker and is all zero. */
    method FrameAlloc() returns (ok: bool, ppn: nat)
      requires Valid()
      modifies this
      ensures Valid() && first == old(first) && end == old(end) && |pages| == old(|pages|)
      ensures ok == (old(Free()) > 0)
      ensures !ok ==> pages == old(pages) && Live() == old(Live()) && Free() == old(Free())
      ensures ok ==>
                && first <= ppn < end && ppn !in old(Live())
                && (old(recycled) == [] ==> ppn == old(current) && recycled == [] && current == old(current) + 1)
                && (old(recycled) != [] ==> old(recycled) == recycled + [ppn] && current == old(current))
                && Live() == old(Live()) + {ppn} && Free() == old(Free()) - 1
                && pages == old(pages)[ppn := ZeroPage()]
    {
      if |recycled| > 0 {
        ppn := recycled[|recycled| - 1];
        assert ppn in recycled;
        recycled := recycled[..|recycled| - 1];
        assert forall p :: p in old(recycled) <==> p in recycled || p == ppn;
      } else if current == end {
        return false, 0;
      } else {
        current := current + 1;
        ppn := current - 1;
      }
      ok := true;
      ZeroFill(ppn);
    }

    /** `FrameTracker::new`: clears the page byte by byte. */
    method ZeroFill(ppn: nat)
      requires ppn < |pages|
      modifies this`pages
      ensures pages == old(pages)[ppn := ZeroPage()]
    {
      var i := 0;
      while i < PAGE_SIZE
        invariant 0 <= i <= PAGE_SIZE && |pages| == old(|pages|)
        invariant forall j :: 0 <= j < i ==> pages[ppn][j] == 0
        invariant forall q :: 0 <= q < |pages| && q != ppn ==> pages[q] == old(pages)[q]
      {
        pages := pages[ppn := pages[ppn][i := 0]];
        i := i + 1;
      }
      assert pages[ppn] == ZeroPage();
    }

    /** Exactly when `dealloc` does not panic. */
    predicate CanDealloc(ppn: nat)
      reads this
    {
      ppn < current && ppn !in recycled
    }

    /** Dropping a live tracker: the panic of `dealloc` cannot happen, and the number is
        free again. */
    method FrameDealloc(ppn: nat)
      requires Valid() && ppn in Live()
      modifies this`recycled
      ensures old(CanDealloc(ppn))
      ensures Valid() && Live() == old(Live()) - {ppn} && Free() == old(Free()) + 1
    {
      recycled := recycled + [ppn];
    }
  }

  /** Conservation: handed out plus recycled is exactly what was ever taken from the
      fresh end, each frame counted once. */
  lemma Conservation(m: PhysMem)
    requires m.Valid()
    ensures m.Live() !! ElemsOf(m.recycled)
    ensures m.Live() + ElemsOf(m.recycled) == Range(m.first, m.current)
    ensures |m.Live()| + m.Free() == m.end - m.first
  {
    assert m.Live() + ElemsOf(m.recycled) == Range(m.first, m.current);
    DistinctElems(m.recycled);
  }

  lemma {:induction false} DistinctElems(s: seq<nat>)
    requires NoDup(s)
    ensures |ElemsOf(s)| == |s|
  {
    if s != [] {
      var last := s[|s| - 1];
      assert s == s[..|s| - 1] + [last];
      DistinctElems(s[..|s| - 1]);
      assert ElemsOf(s) == ElemsOf(s[..|s| - 1]) + {last};
      assert last !in s[..|s| - 1];
    }
  }
}
