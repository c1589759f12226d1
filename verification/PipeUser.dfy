/**
 * The two blocking loops of a pipe on the ring and on the pages of the caller.
 *
 * The iterator hands out one place of physical memory after the other; each is a byte of
 * the caller's range of addresses.
 */
module PipeUser {
  import opened Basics
  import opened LittleEndian
  import opened PhysMemory
  import opened Sv39
  import opened AddressSpace
  import opened ForkSpace
  import opened SpaceRuns
  import opened Spaces
  import opened UserBuffers
  import opened PipeRing
  import PM = PipeMemory

  /** Where the bytes `lo .. lo + n` of a space lie. */
  ghost function PlacesOf(own: map<nat, nat>, lo: nat, n: nat): (ps: seq<Place>)
    requires forall va :: lo <= va < lo + n ==> PM.Vpn(va) in own
    ensures |ps| == n
    ensures forall i :: 0 <= i < n ==> ps[i] == Place(own[PM.Vpn(lo + i)], (lo + i) % PAGE_SIZE)
  {
    seq(n, (i: nat) requires i < n => Place(own[PM.Vpn(lo + i)], (lo + i) % PAGE_SIZE))
  }

  /** `rest` are the places of the range `lo .. lo + n` from byte `done` on. */
  ghost predicate RestAt(own: map<nat, nat>, lo: nat, n: nat, done: nat, rest: seq<Place>) {
    && done <= n
    && (forall va :: lo <= va < lo + n ==> PM.Vpn(va) in own)
    && (forall va :: lo + done <= va < lo + n ==> PM.Vpn(va) in own)
    && rest == PlacesOf(own, lo + done, n - done)
  }

  /** The iterator stands at byte `done` of the range `lo .. lo + n` of a space. */
  ghost predicate At(it: UserBufferIterator, ms: MemorySet, lo: nat, n: nat, done: nat)
    reads it, ms
  {
    it.Valid() && RestAt(ms.own, lo, n, done, it.Rest())
  }

  lemma RestLength(own: map<nat, nat>, lo: nat, n: nat, done: nat, rest: seq<Place>)
    requires RestAt(own, lo, n, done, rest)
    ensures done <= n && |rest| == n - done
  {
  }

  lemma RestExists(own: map<nat, nat>, lo: nat, n: nat, done: nat, rest: seq<Place>, m: Mem)
    requires RestAt(own, lo, n, done, rest) && forall v :: v in own ==> own[v] < |m|
    ensures InMemory(m, rest)
  {
    hide InMemory, PlacesOf;
    PlacesExist(own, m, lo + done, n - done);
  }

  lemma RestLater(own: map<nat, nat>, lo: nat, n: nat, a: nat, rest: seq<Place>, b: nat)
    requires RestAt(own, lo, n, a, rest) && a <= b <= n
    ensures b - a <= |rest| && RestAt(own, lo, n, b, rest[b - a..])
  {
    hide PlacesOf;
    var y := PlacesOf(own, lo + b, n - b);
    forall i | 0 <= i < n - b ensures rest[b - a..][i] == y[i] {
      assert rest[b - a..][i] == rest[b - a + i];
      assert lo + a + (b - a + i) == lo + b + i;
    }
  }

  lemma OwnedRange(ms: MemorySet, mem: PhysMem, lo: nat, n: nat)
    requires ms.Valid(mem)
    ensures PM.Mapped(ImageOf(ms, mem.pages), lo, n) <==> forall va :: lo <= va < lo + n ==> PM.Vpn(va) in ms.own
  {
    hide MemorySet.Valid, MemorySet.Footprint;
    OwnedExist(ms, mem);
    var im := ImageOf(ms, mem.pages);
    assert forall v :: v in im.bytes <==> v in ms.own;
  }

  /** A page the space owns is where the table says. */
  lemma OwnedPlace(ms: MemorySet, mem: PhysMem, va: nat)
    requires ms.Valid(mem) && va < VA_LIMIT && PM.Vpn(va) in ms.own
    ensures Translate(mem.pages, ms.pt.root, va / PAGE_SIZE).Some?
    ensures PageOf(mem.pages, ms.pt.root, va) == ms.own[PM.Vpn(va)] < |mem.pages|
  {
    hide AreasOk, Translate, TableInv, NoDup, PhysMem.Live;
    var v := va / PAGE_SIZE;
    OwnedLeaf(ms, mem, v);
    assert Lookup(mem.pages, ms.pt.root, v) == if v in ms.pt.view then Some(ms.pt.view[v]) else None;
  }

  /** `translated_byte_buffer` and `UserBuffer::new`: the iterator stands at the first byte. */
  method OpenBuffer(ms: MemorySet, ptr: nat, len: nat, mem: PhysMem) returns (it: UserBufferIterator)
    requires ms.Valid(mem) && ptr < HALF && ptr + len <= HALF && PM.Mapped(ImageOf(ms, mem.pages), ptr, len)
    ensures fresh(it) && At(it, ms, ptr, len, 0)
  {
    hide MemorySet.Valid, Places, Flatten, VirtBytes, Translate, PageOf, UserBufferIterator.Rest,
      UserBufferIterator.Valid;
    OwnedRange(ms, mem, ptr, len);
    assert ptr % VA_LIMIT == ptr && Stop(ptr + len) == ptr + len && Ends(ptr + len);
    forall va | ptr <= va < ptr + len
      ensures Translate(mem.pages, ms.pt.root, va / PAGE_SIZE).Some?
      ensures PageOf(mem.pages, ms.pt.root, va) == ms.own[PM.Vpn(va)] < |mem.pages|
    {
      OwnedPlace(ms, mem, va);
    }
    var v := TranslatedByteBuffer(mem.pages, ms.pt.root, ptr, len);
    it := new UserBufferIterator(v);
    assert VirtPlaces(mem.pages, ms.pt.root, ptr, ptr + len) == PlacesOf(ms.own, ptr, len);
  }

  // ---- Places ----

  ghost predicate InMemory(m: Mem, ps: seq<Place>) {
    forall i :: 0 <= i < |ps| ==> ps[i].ppn < |m| && ps[i].off < PAGE_SIZE
  }

  function Poke(m: Mem, p: Place, b: Byte): (r: Mem)
    requires p.ppn < |m| && p.off < PAGE_SIZE
    ensures |r| == |m| && forall q :: 0 <= q < |m| && q != p.ppn ==> r[q] == m[q]
  {
    m[p.ppn := m[p.ppn][p.off := b]]
  }

  /** The first places hold `bs` now. */
  ghost function Fill(m: Mem, ps: seq<Place>, bs: seq<Byte>): (r: Mem)
    requires |bs| <= |ps| && InMemory(m, ps)
    ensures |r| == |m|
    decreases |bs|
  {
    if bs == [] then m else Poke(Fill(m, ps, bs[..|bs| - 1]), ps[|bs| - 1], bs[|bs| - 1])
  }

  lemma FillMore(m: Mem, ps: seq<Place>, bs: seq<Byte>, b: Byte)
    requires |bs| < |ps| && InMemory(m, ps)
    ensures Fill(m, ps, bs + [b]) == Poke(Fill(m, ps, bs), ps[|bs|], b)
  {
    hide Poke;
    var more := bs + [b];
    assert more[..|bs|] == bs && |more| == |bs| + 1 && more != [];
  }

  lemma {:induction false} FillElsewhere(m: Mem, ps: seq<Place>, bs: seq<Byte>, q: nat)
    requires |bs| <= |ps| && InMemory(m, ps) && q < |m| && forall i :: 0 <= i < |ps| ==> ps[i].ppn != q
    ensures Fill(m, ps, bs)[q] == m[q]
    decreases |bs|
  {
    hide Poke;
    if bs != [] {
      FillElsewhere(m, ps, bs[..|bs| - 1], q);
    }
  }

  lemma PlacesExist(own: map<nat, nat>, m: Mem, lo: nat, n: nat)
    requires forall va :: lo <= va < lo + n ==> PM.Vpn(va) in own
    requires forall v :: v in own ==> own[v] < |m|
    ensures InMemory(m, PlacesOf(own, lo, n))
  {
    hide PlacesOf;
    var ps := PlacesOf(own, lo, n);
    forall i | 0 <= i < n ensures ps[i].ppn < |m| && ps[i].off < PAGE_SIZE {
      assert PM.Vpn(lo + i) in own;
    }
  }

  lemma RangeMapped(rs: seq<Region>, own: map<nat, nat>, m: Mem, lo: nat, n: nat)
    requires forall va :: lo <= va < lo + n ==> PM.Vpn(va) in own
    requires forall v :: v in own ==> own[v] < |m|
    ensures PM.Mapped(Image(rs, BytesOf(own, m)), lo, n)
  {
    hide BytesOf;
  }

  lemma PutMore(im: Image, lo: nat, bs: seq<Byte>, b: Byte)
    requires PM.Mapped(im, lo, |bs| + 1)
    ensures PM.Mapped(im, lo, |bs|) && PM.Vpn(lo + |bs|) in PM.Put(im, lo, bs).bytes
    ensures PM.Put(im, lo, bs + [b]) == PM.PutByte(PM.Put(im, lo, bs), lo + |bs|, b)
  {
    hide PM.PutByte;
    var more := bs + [b];
    assert PM.Vpn(lo + |bs|) in im.bytes;
    assert more[..|bs|] == bs && |more| == |bs| + 1 && more != [];
  }

  /** Filling the places of a range stores the bytes from its first address on. */
  lemma {:induction false} FillPuts(rs: seq<Region>, own: map<nat, nat>, m: Mem, lo: nat, n: nat, bs: seq<Byte>)
    requires |bs| <= n && forall va :: lo <= va < lo + n ==> PM.Vpn(va) in own
    requires forall v, w :: v in own && w in own && v != w ==> own[v] != own[w]
    requires forall v :: v in own ==> own[v] < |m|
    ensures InMemory(m, PlacesOf(own, lo, n)) && PM.Mapped(Image(rs, BytesOf(own, m)), lo, |bs|)
    ensures Image(rs, BytesOf(own, Fill(m, PlacesOf(own, lo, n), bs))) == PM.Put(Image(rs, BytesOf(own, m)), lo, bs)
    decreases |bs|
  {
    hide BytesOf, Poke, PM.PutByte, PlacesOf, InMemory, Fill, PM.Put, PM.Mapped;
    PlacesExist(own, m, lo, n);
    RangeMapped(rs, own, m, lo, |bs|);
    var im, ps := Image(rs, BytesOf(own, m)), PlacesOf(own, lo, n);
    if bs == [] {
      NoneFilled(m, ps);
      NonePut(im, lo);
    } else {
      var front, x := bs[..|bs| - 1], |bs| - 1;
      FillPuts(rs, own, m, lo, n, front);
      assert bs == front + [bs[x]];
      FillMore(m, ps, front, bs[x]);
      PutMore(im, lo, front, bs[x]);
      assert PM.Vpn(lo + x) in own;
      PokePuts(rs, own, Fill(m, ps, front), lo + x, bs[x]);
    }
  }

  lemma NonePut(im: Image, lo: nat)
    requires PM.Mapped(im, lo, 0)
    ensures PM.Put(im, lo, []) == im
  {
  }

  lemma PokePuts(rs: seq<Region>, own: map<nat, nat>, m: Mem, va: nat, b: Byte)
    requires PM.Vpn(va) in own && forall v :: v in own ==> own[v] < |m|
    requires forall v, w :: v in own && w in own && v != w ==> own[v] != own[w]
    ensures PM.Vpn(va) in Image(rs, BytesOf(own, m)).bytes
    ensures Image(rs, BytesOf(own, Poke(m, Place(own[PM.Vpn(va)], va % PAGE_SIZE), b)))
         == PM.PutByte(Image(rs, BytesOf(own, m)), va, b)
  {
    hide BytesOf;
    var a, p := BytesOf(own, m), Place(own[PM.Vpn(va)], va % PAGE_SIZE);
    var c := BytesOf(own, Poke(m, p, b));
    assert c == a[PM.Vpn(va) := m[p.ppn][p.off := b]];
  }

  lemma PlacesTail(ps: seq<Place>, i: nat, p: Place, rest: seq<Place>)
    requires i <= |ps| && ps[i..] == [p] + rest
    ensures i < |ps| && p == ps[i] && rest == ps[i + 1..]
  {
    assert p == ps[i..][0] && rest == ps[i..][1..];
  }

  // ---- Reading ----

  /** What a turn of a read makes of the queue and of memory. */
  ghost predicate ReadDone(ps: seq<Place>, pages0: Mem, queue0: seq<Byte>, closed: bool, want: nat, had: seq<Byte>,
                           pages: Mem, queue: seq<Byte>, done: nat, returned: bool)
    requires |had| <= want && |ps| == want - |had| && InMemory(pages0, ps)
  {
    var o := ReadTurn(queue0, closed, want, had);
    && queue == o.queue && done == |o.got| && returned == o.returned
    && pages == Fill(pages0, ps, o.got[|had|..])
  }

  lemma Yields(ps: seq<Place>, pages0: Mem, queue0: seq<Byte>, closed: bool, want: nat, had: seq<Byte>)
    requires |had| + |queue0| <= want && (want > 0 ==> |had| + |queue0| < want)
    requires |ps| == want - |had| && InMemory(pages0, ps)
    ensures ReadDone(ps, pages0, queue0, closed, want, had, Fill(pages0, ps, queue0), [], |had| + |queue0|, closed)
  {
    hide Fill;
    Drained(queue0, closed, had, had + queue0, want);
    assert (had + queue0)[|had|..] == queue0;
  }

  lemma HasAll(ps: seq<Place>, pages0: Mem, queue0: seq<Byte>, closed: bool, want: nat, had: seq<Byte>, bs: seq<Byte>,
               queue: seq<Byte>)
    requires |had| + |bs| == want && queue0 != [] && bs + queue == queue0
    requires |ps| == want - |had| && InMemory(pages0, ps)
    ensures ReadDone(ps, pages0, queue0, closed, want, had, Fill(pages0, ps, bs), queue, want, true)
  {
    hide Fill;
    assert had + bs + queue == had + queue0;
    Filled(queue0, closed, had, had + bs, queue, want);
    assert (had + bs)[|had|..] == bs;
  }

  /** The inner loop of `Pipe::read`: bytes move until the ring is empty or the buffer is full. */
  method ReadSome(ring: PipeRingBuffer, it: UserBufferIterator, want: nat, already: nat, loopRead: nat,
                  ghost ps: seq<Place>, mem: PhysMem)
    returns (done: nat, full: bool, ghost bs: seq<Byte>)
    requires ring.Valid() && loopRead == |ring.Contents()| > 0 && already <= want && (want > 0 ==> already < want)
    requires it.Valid() && it.Rest() == ps && |ps| == want - already && InMemory(mem.pages, ps)
    modifies ring, it, mem`pages
    ensures ring.Valid() && done == already + |bs| <= want && bs + ring.Contents() == old(ring.Contents())
    ensures it.Valid() && it.Rest() == ps[|bs|..] && mem.pages == Fill(old(mem.pages), ps, bs)
    ensures if full then done == want else ring.Contents() == [] && done < want && bs != []
  {
    hide PipeRingBuffer.Valid, PipeRingBuffer.Contents, PipeRingBuffer.Count, UserBufferIterator.Valid,
      UserBufferIterator.Rest, Fill, Poke;
    ghost var pages0 := mem.pages;
    NoneFilled(pages0, ps);
    done, bs, full := already, [], false;
    for i := 0 to loopRead
      invariant done == already + |bs| <= want && (want > 0 ==> done < want) && (i > 0 ==> want > 0) && |bs| == i
      invariant ring.Valid() && |ring.Contents()| == loopRead - i && bs + ring.Contents() == old(ring.Contents())
      invariant it.Valid() && it.Rest() == ps[|bs|..] && mem.pages == Fill(pages0, ps, bs)
    {
      var next := it.Next();
      if next.None? {
        return done, true, bs;
      }
      PlacesTail(ps, |bs|, next.value, it.Rest());
      var c := ring.ReadByte();
      FillMore(pages0, ps, bs, c);
      mem.pages := Poke(mem.pages, next.value, c);
      bs := bs + [c];
      done := done + 1;
      if done == want {
        return done, true, bs;
      }
    }
  }

  /** The loop of `Pipe::read` from where it was resumed to its return or its next yield:
      bytes go from the ring to the places the iterator hands out. */
  method ReadPlaces(ring: PipeRingBuffer, it: UserBufferIterator, want: nat, already: nat, closed: bool,
                    ghost had: seq<Byte>, mem: PhysMem)
    returns (done: nat, returned: bool)
    requires ring.Valid() && it.Valid() && |had| == already <= want && (want > 0 ==> already < want)
    requires |it.Rest()| == want - already && InMemory(mem.pages, it.Rest())
    modifies ring, it, mem`pages
    ensures ring.Valid() && it.Valid() && already <= done <= want && it.Rest() == old(it.Rest())[done - already..]
    ensures ReadDone(old(it.Rest()), old(mem.pages), old(ring.Contents()), closed, want, had, mem.pages,
                     ring.Contents(), done, returned)
  {
    hide PipeRingBuffer.Valid, PipeRingBuffer.Contents, PipeRingBuffer.Count, UserBufferIterator.Valid,
      UserBufferIterator.Rest, ReadDone, Fill, InMemory;
    ghost var queue, ps, pages0, bs := ring.Contents(), it.Rest(), mem.pages, [];
    NoneFilled(pages0, ps);
    done := already;
    while true
      invariant done == already + |bs| <= want && (want > 0 ==> done < want)
      invariant ring.Valid() && it.Valid() && it.Rest() == ps[|bs|..] && mem.pages == Fill(pages0, ps, bs)
      invariant if bs == [] then ring.Contents() == queue && mem.pages == pages0
                else ring.Contents() == [] && bs == queue
      decreases |ring.Contents()|
    {
      var loopRead := ring.AvailableRead();
      if loopRead == 0 {
        Yields(ps, pages0, queue, closed, want, had);
        return done, closed;
      }
      var full;
      done, full, bs := ReadSome(ring, it, want, done, loopRead, ps, mem);
      if full {
        HasAll(ps, pages0, queue, closed, want, had, bs, ring.Contents());
        return done, true;
      }
      assert bs + [] == bs;
    }
  }

  lemma NoneFilled(m: Mem, ps: seq<Place>)
    requires InMemory(m, ps)
    ensures Fill(m, ps, []) == m && ps[0..] == ps
  {
  }

  /** Filling places of its own pages changes what process `k` sees, and nothing else. */
  lemma FilledSystem(spaces: map<nat, MemorySet>, k: nat, lo: nat, n: nat, bs: seq<Byte>, others: set<nat>,
                     live0: set<nat>, pages0: Mem, prints0: map<nat, set<nat>>, images0: map<nat, Image>, mem: PhysMem)
    requires mem.Valid() && mem.Live() == live0 && |pages0| <= PPN_LIMIT && k in spaces && Unshared(spaces)
    requires AllValidAt(spaces, live0, pages0) && Separate(prints0, others, live0)
    requires prints0 == Prints(spaces) && images0 == Images(spaces, pages0)
    requires forall va :: lo <= va < lo + n ==> PM.Vpn(va) in spaces[k].own
    requires forall v :: v in spaces[k].own ==> spaces[k].own[v] < |pages0|
    requires InMemory(pages0, PlacesOf(spaces[k].own, lo, n)) && |bs| <= n
    requires mem.pages == Fill(pages0, PlacesOf(spaces[k].own, lo, n), bs)
    ensures System(spaces, others, mem) && Kept(others, pages0, mem.pages)
    ensures PM.Mapped(images0[k], lo, |bs|)
    ensures Images(spaces, mem.pages) == images0[k := PM.Put(images0[k], lo, bs)]
  {
    hide ValidAt, PhysMem.Live, PhysMem.Valid, Separate, BytesOf, MemorySet.Valid, MemorySet.Footprint, Prints, Images,
      Kept, ForeignKept, NoDup, Fill, PlacesOf, PM.Put, InMemory, PM.Mapped;
    var ms := spaces[k];
    assert ValidAt(ms, live0, pages0);
    OneToOnePages(ms, live0, pages0);
    FillPuts(RegionsOf(ms.areas), ms.own, pages0, lo, n, bs);
    FilledSpace(ms, lo, n, bs, live0, pages0, mem);
    OneChanged(spaces, k, others, live0, pages0, prints0, images0, mem);
  }

  lemma OneToOnePages(ms: MemorySet, live0: set<nat>, pages0: Mem)
    requires ValidAt(ms, live0, pages0)
    ensures forall v, w :: v in ms.own && w in ms.own && v != w ==> ms.own[v] != ms.own[w]
  {
    hide Refines, AreasOk;
  }

  lemma FilledSpace(ms: MemorySet, lo: nat, n: nat, bs: seq<Byte>, live0: set<nat>, pages0: Mem, mem: PhysMem)
    requires mem.Valid() && mem.Live() == live0 && ValidAt(ms, live0, pages0)
    requires forall va :: lo <= va < lo + n ==> PM.Vpn(va) in ms.own
    requires InMemory(pages0, PlacesOf(ms.own, lo, n)) && |bs| <= n
    requires mem.pages == Fill(pages0, PlacesOf(ms.own, lo, n), bs)
    ensures ms.Valid(mem) && ForeignKept(live0, ms.Footprint(), pages0, ms, mem)
  {
    hide Refines, AreasOk, PhysMem.Live, PhysMem.Valid, Fill, NoDup;
    var ps := PlacesOf(ms.own, lo, n);
    forall q: nat | q < |pages0| && q !in ms.own.Values ensures mem.pages[q] == pages0[q] {
      forall i | 0 <= i < |ps| ensures ps[i].ppn != q {
        assert PM.Vpn(lo + i) in ms.own;
        assert ps[i].ppn in ms.own.Values;
      }
      FillElsewhere(pages0, ps, bs, q);
    }
    TablesInMemory(pages0, ms.pt.root, ElemsOf(ms.pt.frames), ms.pt.view);
    forall f | f in ElemsOf(ms.pt.frames) ensures mem.pages[f] == pages0[f] {
      assert f !in ms.own.Values;
    }
    FrameLemma(pages0, mem.pages, ms.pt.root, ElemsOf(ms.pt.frames), ms.pt.view);
  }

  /** The spaces as they were while memory held `pages0`. */
  ghost predicate Before(spaces: map<nat, MemorySet>, k: nat, others: set<nat>, live0: set<nat>, pages0: Mem,
                         prints0: map<nat, set<nat>>, images0: map<nat, Image>)
    reads spaces.Values, set s | s in spaces.Values :: s.pt
  {
    && |pages0| <= PPN_LIMIT && k in spaces && Unshared(spaces)
    && AllValidAt(spaces, live0, pages0) && Separate(prints0, others, live0)
    && prints0 == Prints(spaces) && images0 == Images(spaces, pages0)
    && forall v :: v in spaces[k].own ==> spaces[k].own[v] < |pages0|
  }

  lemma SystemBefore(spaces: map<nat, MemorySet>, k: nat, others: set<nat>, mem: PhysMem)
    requires System(spaces, others, mem) && k in spaces
    ensures mem.Valid()
    ensures Before(spaces, k, others, mem.Live(), mem.pages, Prints(spaces), Images(spaces, mem.pages))
  {
    hide Separate, ValidAt, MemorySet.Valid, MemorySet.Footprint, Prints, Images, PhysMem.Live, PhysMem.Valid;
    AllValidNow(spaces, mem);
    OwnedExist(spaces[k], mem);
  }

  /** One turn of a read into the pages of one space. */
  method ReadOwned(ring: PipeRingBuffer, it: UserBufferIterator, ms: MemorySet, ghost lo: nat, want: nat, already: nat,
                   closed: bool, ghost had: seq<Byte>, mem: PhysMem)
    returns (done: nat, returned: bool)
    requires ring.Valid() && At(it, ms, lo, want, already) && |had| == already && (want > 0 ==> already < want)
    requires forall v :: v in ms.own ==> ms.own[v] < |mem.pages|
    modifies ring, it, mem`pages
    ensures ring.Valid() && At(it, ms, lo, want, done)
    ensures OwnedRead(ms.own, lo, already, old(mem.pages), old(ring.Contents()), closed, want, had, mem.pages,
                      ring.Contents(), done, returned)
  {
    hide PipeRingBuffer.Valid, PipeRingBuffer.Contents, UserBufferIterator.Valid, UserBufferIterator.Rest, InMemory,
      RestAt, OwnedRead, ReadDone;
    ghost var own, rest, pages0, queue0 := ms.own, it.Rest(), mem.pages, ring.Contents();
    RestLength(own, lo, want, already, rest);
    RestExists(own, lo, want, already, rest, pages0);
    done, returned := ReadPlaces(ring, it, want, already, closed, had, mem);
    RestLater(own, lo, want, already, rest, done);
    ReadOfRest(own, lo, already, rest, pages0, queue0, closed, want, had, mem.pages, ring.Contents(), done, returned);
  }

  lemma ReadOfRest(own: map<nat, nat>, lo: nat, already: nat, rest: seq<Place>, pages0: Mem, queue0: seq<Byte>,
                   closed: bool, want: nat, had: seq<Byte>, pages: Mem, queue: seq<Byte>, done: nat, returned: bool)
    requires RestAt(own, lo, want, already, rest) && |had| == already <= want && |rest| == want - |had|
    requires InMemory(pages0, rest) && ReadDone(rest, pages0, queue0, closed, want, had, pages, queue, done, returned)
    ensures OwnedRead(own, lo, already, pages0, queue0, closed, want, had, pages, queue, done, returned)
  {
    hide InMemory, ReadDone, PlacesOf;
  }

  /** `ReadDone` for the places of a range. */
  ghost predicate OwnedRead(own: map<nat, nat>, lo: nat, already: nat, pages0: Mem, queue0: seq<Byte>, closed: bool,
                            want: nat, had: seq<Byte>, pages: Mem, queue: seq<Byte>, done: nat, returned: bool) {
    && |had| == already <= want && (forall va :: lo + already <= va < lo + want ==> PM.Vpn(va) in own)
    && var ps := PlacesOf(own, lo + already, want - already);
       InMemory(pages0, ps) && ReadDone(ps, pages0, queue0, closed, want, had, pages, queue, done, returned)
  }

  /** The turn leaves the spaces themselves alone. */
  method ReadAside(ring: PipeRingBuffer, it: UserBufferIterator, spaces: map<nat, MemorySet>, k: nat, ghost lo: nat,
                   want: nat, already: nat, closed: bool, ghost had: seq<Byte>, ghost others: set<nat>,
                   ghost live0: set<nat>, ghost pages0: Mem, ghost prints0: map<nat, set<nat>>,
                   ghost images0: map<nat, Image>, mem: PhysMem)
    returns (done: nat, returned: bool)
    requires ring.Valid() && k in spaces && At(it, spaces[k], lo, want, already)
    requires |had| == already && (want > 0 ==> already < want)
    requires forall v :: v in spaces[k].own ==> spaces[k].own[v] < |mem.pages|
    requires mem.Valid() && live0 == mem.Live() && pages0 == mem.pages
    requires Before(spaces, k, others, live0, pages0, prints0, images0)
    modifies ring, it, mem`pages
    ensures ring.Valid() && At(it, spaces[k], lo, want, done)
    ensures OwnedRead(spaces[k].own, lo, already, pages0, old(ring.Contents()), closed, want, had, mem.pages,
                      ring.Contents(), done, returned)
    ensures mem.Valid() && live0 == mem.Live()
    ensures Before(spaces, k, others, live0, pages0, prints0, images0)
  {
    hide PipeRingBuffer.Valid, PipeRingBuffer.Contents, PhysMem.Live, NoDup, Before, OwnedRead, At;
    done, returned := ReadOwned(ring, it, spaces[k], lo, want, already, closed, had, mem);
    SameSize(spaces[k].own, lo, already, pages0, old(ring.Contents()), closed, want, had, mem.pages, ring.Contents(),
             done, returned);
  }

  lemma SameSize(own: map<nat, nat>, lo: nat, already: nat, pages0: Mem, queue0: seq<Byte>, closed: bool, want: nat,
                 had: seq<Byte>, pages: Mem, queue: seq<Byte>, done: nat, returned: bool)
    requires OwnedRead(own, lo, already, pages0, queue0, closed, want, had, pages, queue, done, returned)
    ensures |pages| == |pages0|
  {
    hide ReadTurn, PlacesOf, InMemory;
  }

  /** One turn of a read on the ring and on memory: the new bytes follow those already in the
      range. */
  method ReadRange(ring: PipeRingBuffer, it: UserBufferIterator, spaces: map<nat, MemorySet>, k: nat, ghost lo: nat,
                   want: nat, already: nat, closed: bool, ghost had: seq<Byte>, ghost others: set<nat>, mem: PhysMem)
    returns (done: nat, returned: bool)
    requires ring.Valid() && System(spaces, others, mem) && k in spaces && At(it, spaces[k], lo, want, already)
    requires |had| == already && (want > 0 ==> already < want)
    modifies ring, it, mem`pages
    ensures ring.Valid() && System(spaces, others, mem) && Kept(others, old(mem.pages), mem.pages)
    ensures At(it, spaces[k], lo, want, done)
    ensures ReadSeen(old(Images(spaces, mem.pages)), k, lo, want, already, closed, had, old(ring.Contents()),
                     Images(spaces, mem.pages), ring.Contents(), done, returned)
  {
    hide PipeRingBuffer.Valid, PipeRingBuffer.Contents, System, PhysMem.Live, PhysMem.Valid, Images, Prints, Kept,
      PlacesOf, Before, ReadSeen, OwnedRead, At;
    ghost var live0, pages0, prints0, images0 := mem.Live(), mem.pages, Prints(spaces), Images(spaces, mem.pages);
    ghost var queue0 := ring.Contents();
    SystemBefore(spaces, k, others, mem);
    BeforeOwn(spaces, k, others, live0, pages0, prints0, images0);
    done, returned := ReadAside(ring, it, spaces, k, lo, want, already, closed, had, others, live0, pages0, prints0,
                                images0, mem);
    SeenSystem(spaces, k, lo, want, already, closed, had, queue0, ring.Contents(), done, returned, others, live0,
               pages0, prints0, images0, mem);
  }

  lemma BeforeOwn(spaces: map<nat, MemorySet>, k: nat, others: set<nat>, live0: set<nat>, pages0: Mem,
                  prints0: map<nat, set<nat>>, images0: map<nat, Image>)
    requires Before(spaces, k, others, live0, pages0, prints0, images0)
    ensures k in spaces && forall v :: v in spaces[k].own ==> spaces[k].own[v] < |pages0|
  {
    hide Separate, ValidAt, Prints, Images;
  }

  /** What a turn of a read makes of the queue and of what processes see. */
  ghost predicate ReadSeen(images0: map<nat, Image>, k: nat, lo: nat, want: nat, already: nat, closed: bool,
                           had: seq<Byte>, queue0: seq<Byte>, images: map<nat, Image>, queue: seq<Byte>, done: nat,
                           returned: bool) {
    && k in images0 && |had| == already <= want
    && var o := ReadTurn(queue0, closed, want, had);
       && queue == o.queue && done == |o.got| && returned == o.returned
       && PM.Mapped(images0[k], lo + already, |o.got[already..]|)
       && images == images0[k := PM.Put(images0[k], lo + already, o.got[already..])]
  }

  lemma SeenSystem(spaces: map<nat, MemorySet>, k: nat, lo: nat, want: nat, already: nat, closed: bool, had: seq<Byte>,
                   queue0: seq<Byte>, queue: seq<Byte>, done: nat, returned: bool, others: set<nat>, live0: set<nat>,
                   pages0: Mem, prints0: map<nat, set<nat>>, images0: map<nat, Image>, mem: PhysMem)
    requires mem.Valid() && mem.Live() == live0 && Before(spaces, k, others, live0, pages0, prints0, images0)
    requires OwnedRead(spaces[k].own, lo, already, pages0, queue0, closed, want, had, mem.pages, queue, done, returned)
    ensures System(spaces, others, mem) && Kept(others, pages0, mem.pages)
    ensures ReadSeen(images0, k, lo, want, already, closed, had, queue0, Images(spaces, mem.pages), queue, done,
                     returned)
  {
    hide Fill, System, PhysMem.Live, PhysMem.Valid, Images, Prints, Kept, PlacesOf, InMemory, ReadTurn, PM.Put,
      PM.Mapped, Separate, ValidAt, Unshared, MemorySet.Footprint;
    var o := ReadTurn(queue0, closed, want, had);
    FilledSystem(spaces, k, lo + already, want - already, o.got[already..], others, live0, pages0, prints0, images0,
                 mem);
  }

  /** One turn of a read, of process `k` into its range from `lo` on, as `PipeMemory` has it. */
  method ResumeRead(ring: PipeRingBuffer, it: UserBufferIterator, spaces: map<nat, MemorySet>, k: nat, ghost lo: nat,
                    want: nat, already: nat, closed: bool, ghost others: set<nat>, ghost s: PM.State, ghost id: nat,
                    mem: PhysMem)
    returns (done: nat, returned: bool)
    requires ring.Valid() && System(spaces, others, mem) && k in spaces && At(it, spaces[k], lo, want, already)
    requires PM.Good(s) && s.images == Images(spaces, mem.pages) && s.queue == ring.Contents()
    requires id < |s.calls| && s.calls[id] == PM.ReadCall(k, lo, want, already, false)
    requires closed == PM.NoWriter(s.ends, s.calls)
    modifies ring, it, mem`pages
    ensures ring.Valid() && System(spaces, others, mem) && Kept(others, old(mem.pages), mem.pages)
    ensures At(it, spaces[k], lo, want, done)
    ensures var t := PM.DoRead(s, id);
            && Images(spaces, mem.pages) == t.images && ring.Contents() == t.queue
            && t.calls == s.calls[id := PM.ReadCall(k, lo, want, done, returned)]
  {
    hide PipeRingBuffer.Valid, PipeRingBuffer.Contents, UserBufferIterator.Valid, UserBufferIterator.Rest, System,
      Images, Kept, At, PM.DoRead, PM.Good, PM.Range, ReadSeen, PM.NoWriter;
    ReadBacked(s, id);
    ghost var had := PM.Range(s.images[k], lo, already);
    done, returned := ReadRange(ring, it, spaces, k, lo, want, already, closed, had, others, mem);
    ReadIs(s, id, Images(spaces, mem.pages), ring.Contents(), done, returned);
  }

  lemma ReadBacked(s: PM.State, id: nat)
    requires PM.Good(s) && id < |s.calls| && s.calls[id].ReadCall? && !s.calls[id].returned
    ensures var c := s.calls[id];
            && c.k in s.images && PM.Mapped(s.images[c.k], c.lo, c.done) && c.done <= c.want
            && (c.want > 0 ==> c.done < c.want)
  {
    assert PM.Backed(s.images, s.calls[id]);
  }

  lemma ReadIs(s: PM.State, id: nat, images: map<nat, Image>, queue: seq<Byte>, done: nat, returned: bool)
    requires PM.Good(s) && id < |s.calls| && s.calls[id].ReadCall? && !s.calls[id].returned
    requires var c := s.calls[id];
             && c.k in s.images && PM.Mapped(s.images[c.k], c.lo, c.done)
             && ReadSeen(s.images, c.k, c.lo, c.want, c.done, PM.NoWriter(s.ends, s.calls),
                         PM.Range(s.images[c.k], c.lo, c.done), s.queue, images, queue, done, returned)
    ensures var t, c := PM.DoRead(s, id), s.calls[id];
            t.images == images && t.queue == queue && t.calls == s.calls[id := c.(done := done, returned := returned)]
  {
    hide PM.Put, PM.Range, ReadTurn;
    assert PM.Backed(s.images, s.calls[id]);
  }

  // ---- Writing ----

  /** The k-th place holds the k-th byte. */
  ghost predicate Holding(m: Mem, ps: seq<Place>, bs: seq<Byte>) {
    InMemory(m, ps) && |ps| == |bs| && forall i :: 0 <= i < |ps| ==> m[ps[i].ppn][ps[i].off] == bs[i]
  }

  /** The inner loop of `Pipe::write`: bytes move until the ring or the caller has no more. */
  method WriteSome(ring: PipeRingBuffer, it: UserBufferIterator, len: nat, already: nat, loopWrite: nat,
                   ghost ps: seq<Place>, ghost buf: seq<Byte>, mem: PhysMem)
    returns (sent: nat, full: bool)
    requires ring.Valid() && loopWrite == RING_SIZE - |ring.Contents()| > 0
    requires |buf| == len && already <= len && (len > 0 ==> already < len)
    requires it.Valid() && it.Rest() == ps && Holding(mem.pages, ps, buf[already..])
    modifies ring, ring.arr, it
    ensures already <= sent <= len && ring.Valid() && ring.Contents() == old(ring.Contents()) + buf[already..sent]
    ensures it.Valid() && |ps| == len - already && it.Rest() == ps[sent - already..]
    ensures if full then sent == len && |ring.Contents()| <= RING_SIZE
            else |ring.Contents()| == RING_SIZE && already < sent < len
  {
    hide PipeRingBuffer.Valid, PipeRingBuffer.Contents, PipeRingBuffer.Count, UserBufferIterator.Valid,
      UserBufferIterator.Rest, Holding;
    HoldingAll(mem.pages, ps, buf[already..]);
    sent, full := already, false;
    for i := 0 to loopWrite
      invariant sent == already + i <= len && (len > 0 ==> sent < len)
      invariant ring.Valid() && ring.Contents() == old(ring.Contents()) + buf[already..sent]
      invariant it.Valid() && it.Rest() == ps[sent - already..]
    {
      var next := it.Next();
      if next.None? {
        return sent, true;
      }
      PlacesTail(ps, sent - already, next.value, it.Rest());
      NextByteIs(mem.pages, ps, buf, already, sent);
      ring.WriteByte(mem.pages[next.value.ppn][next.value.off]);
      sent := sent + 1;
      if sent == len {
        return sent, true;
      }
    }
  }

  /** The loop of `Pipe::write` from where it was resumed to its return or its next yield:
      bytes go from the places the iterator hands out to the ring. */
  method WritePlaces(ring: PipeRingBuffer, it: UserBufferIterator, len: nat, already: nat, ghost buf: seq<Byte>,
                     mem: PhysMem)
    returns (sent: nat, returned: bool)
    requires ring.Valid() && it.Valid() && |buf| == len && already <= len && (len > 0 ==> already < len)
    requires Holding(mem.pages, it.Rest(), buf[already..])
    modifies ring, ring.arr, it
    ensures ring.Valid() && it.Valid() && |old(it.Rest())| == len - already
    ensures already <= sent <= len && it.Rest() == old(it.Rest())[sent - already..]
    ensures WriteOutcome(ring.Contents(), sent, returned) == WriteTurn(old(ring.Contents()), buf, already)
  {
    hide PipeRingBuffer.Valid, PipeRingBuffer.Contents, PipeRingBuffer.Count, UserBufferIterator.Valid,
      UserBufferIterator.Rest, Holding;
    ghost var queue, ps := ring.Contents(), it.Rest();
    HoldingAll(mem.pages, ps, buf[already..]);
    sent := already;
    while true
      invariant already <= sent <= len && (len > 0 ==> sent < len)
      invariant ring.Valid() && ring.Contents() == queue + buf[already..sent] && |ring.Contents()| <= RING_SIZE
      invariant it.Valid() && it.Rest() == ps[sent - already..]
      invariant if sent == already then ring.Contents() == queue else |ring.Contents()| == RING_SIZE
      decreases RING_SIZE - |ring.Contents()|
    {
      var loopWrite := ring.AvailableWrite();
      if loopWrite == 0 {
        return sent, false;
      }
      var full;
      sent, full := WriteSome(ring, it, len, sent, loopWrite, ps, buf, mem);
      if full {
        return sent, true;
      }
    }
  }

  lemma HoldingAll(m: Mem, ps: seq<Place>, bs: seq<Byte>)
    requires Holding(m, ps, bs)
    ensures |ps| == |bs| && ps[0..] == ps
  {
  }

  lemma NextByteIs(m: Mem, ps: seq<Place>, buf: seq<Byte>, already: nat, sent: nat)
    requires already <= sent < |buf| && Holding(m, ps, buf[already..])
    ensures var i := sent - already;
            i < |ps| && ps[i].ppn < |m| && ps[i].off < PAGE_SIZE && m[ps[i].ppn][ps[i].off] == buf[sent]
    ensures buf[already..sent + 1] == buf[already..sent] + [buf[sent]]
  {
    assert buf[already..][sent - already] == buf[sent];
  }

  /** One turn of a write from the pages of one space. */
  method WriteOwned(ring: PipeRingBuffer, it: UserBufferIterator, ms: MemorySet, ghost im: Image, ghost lo: nat,
                    len: nat, already: nat, mem: PhysMem)
    returns (sent: nat, returned: bool)
    requires ring.Valid() && At(it, ms, lo, len, already) && (len > 0 ==> already < len)
    requires ms.Valid(mem) && im == ImageOf(ms, mem.pages) && PM.Mapped(im, lo, len)
    modifies ring, ring.arr, it
    ensures ring.Valid() && At(it, ms, lo, len, sent) && already <= len
    ensures WriteOutcome(ring.Contents(), sent, returned)
         == WriteTurn(old(ring.Contents()), PM.Range(im, lo, len), already)
  {
    hide PipeRingBuffer.Valid, PipeRingBuffer.Contents, UserBufferIterator.Valid, UserBufferIterator.Rest, Holding,
      RestAt, WriteTurn, PM.Mapped, PM.Range, MemorySet.Valid, ImageOf;
    ghost var own, rest := ms.own, it.Rest();
    RestLength(own, lo, len, already, rest);
    RangeHeld(ms, im, lo, len, already, rest, mem);
    sent, returned := WritePlaces(ring, it, len, already, PM.Range(im, lo, len), mem);
    RestLater(own, lo, len, already, rest, sent);
  }

  /** One turn of a write, of process `k` from its range at `lo`, as `PipeMemory` has it. */
  method ResumeWrite(ring: PipeRingBuffer, it: UserBufferIterator, spaces: map<nat, MemorySet>, k: nat, ghost lo: nat,
                     len: nat, already: nat, ghost others: set<nat>, ghost s: PM.State, ghost id: nat, mem: PhysMem)
    returns (sent: nat, returned: bool)
    requires ring.Valid() && System(spaces, others, mem) && k in spaces && At(it, spaces[k], lo, len, already)
    requires PM.Good(s) && s.images == Images(spaces, mem.pages) && s.queue == ring.Contents()
    requires id < |s.calls| && s.calls[id] == PM.WriteCall(k, lo, len, already, false)
    modifies ring, ring.arr, it
    ensures ring.Valid() && At(it, spaces[k], lo, len, sent)
    ensures var t := PM.DoWrite(s, id);
            && t.images == s.images && ring.Contents() == t.queue
            && t.calls == s.calls[id := PM.WriteCall(k, lo, len, sent, returned)]
  {
    hide PipeRingBuffer.Valid, PipeRingBuffer.Contents, System, Images, ImageOf, WriteTurn, PM.Mapped, PM.Good,
      PM.DoWrite, PM.Range, MemorySet.Valid, At;
    WriteBacked(s, id);
    SystemSpace(spaces, k, others, mem);
    sent, returned := WriteOwned(ring, it, spaces[k], s.images[k], lo, len, already, mem);
  }

  lemma WriteBacked(s: PM.State, id: nat)
    requires PM.Good(s) && id < |s.calls| && s.calls[id].WriteCall? && !s.calls[id].returned
    ensures var c := s.calls[id];
            && c.k in s.images && PM.Mapped(s.images[c.k], c.lo, c.len) && c.sent <= c.len
            && (c.len > 0 ==> c.sent < c.len)
            && var o := WriteTurn(s.queue, PM.Range(s.images[c.k], c.lo, c.len), c.sent);
               var t := PM.DoWrite(s, id);
               && t.images == s.images && t.queue == o.queue
               && t.calls == s.calls[id := c.(sent := o.sent, returned := o.returned)]
  {
    assert PM.Backed(s.images, s.calls[id]);
  }

  lemma SystemSpace(spaces: map<nat, MemorySet>, k: nat, others: set<nat>, mem: PhysMem)
    requires System(spaces, others, mem) && k in spaces
    ensures spaces[k].Valid(mem) && Images(spaces, mem.pages)[k] == ImageOf(spaces[k], mem.pages)
  {
    hide Separate, MemorySet.Valid, Prints;
  }

  lemma RangeHeld(ms: MemorySet, im: Image, lo: nat, n: nat, a: nat, rest: seq<Place>, mem: PhysMem)
    requires ms.Valid(mem) && im == ImageOf(ms, mem.pages) && a <= n && PM.Mapped(im, lo, n)
    requires RestAt(ms.own, lo, n, a, rest)
    ensures Holding(mem.pages, rest, PM.Range(im, lo, n)[a..])
  {
    hide MemorySet.Valid, MemorySet.Footprint, PlacesOf;
    OwnedExist(ms, mem);
    PlacesExist(ms.own, mem.pages, lo + a, n - a);
    forall i | 0 <= i < n - a ensures mem.pages[rest[i].ppn][rest[i].off] == PM.Range(im, lo, n)[a..][i] {
      assert lo + a + i == lo + (a + i);
      assert PM.Vpn(lo + a + i) in ms.own;
    }
  }
}
