/**
 * Pipes between address spaces.
 *
 * A read or write on a pipe works on a range of addresses of the calling process.  While a
 * call is suspended anything may happen to the memory of processes that are not in a call
 * themselves.  Every run of this kind is a run of the pipe alone in which a write carries
 * the bytes its range held when it started, and a read leaves what it got in its range.
 */
module PipeMemory {
  import opened Basics
  import opened LittleEndian
  import opened PhysMemory
  import opened Spaces
  import opened PipeRing
  import PP = PipeRuns

  // ---- Bytes by address ----

  function Vpn(va: nat): nat { va / PAGE_SIZE }

  ghost predicate Mapped(im: Image, lo: nat, n: nat) {
    forall va :: lo <= va < lo + n ==> Vpn(va) in im.bytes
  }

  ghost function ByteAt(im: Image, va: nat): Byte
    requires Vpn(va) in im.bytes
  {
    im.bytes[Vpn(va)][va % PAGE_SIZE]
  }

  /** The bytes `lo .. lo + n`. */
  ghost function Range(im: Image, lo: nat, n: nat): (bs: seq<Byte>)
    requires Mapped(im, lo, n)
    ensures |bs| == n
    ensures forall i :: 0 <= i < n ==> bs[i] == ByteAt(im, lo + i)
  {
    seq<Byte>(n, (i: nat) requires i < n => ByteAt(im, lo + i))
  }

  ghost function PutByte(im: Image, va: nat, b: Byte): Image
    requires Vpn(va) in im.bytes
  {
    StoreImage(im, Vpn(va), im.bytes[Vpn(va)][va % PAGE_SIZE := b])
  }

  lemma PutOne(im: Image, va: nat, b: Byte, x: nat)
    requires Vpn(va) in im.bytes && Vpn(x) in im.bytes
    ensures var r := PutByte(im, va, b);
            && r.bytes.Keys == im.bytes.Keys && r.regions == im.regions
            && ByteAt(r, x) == if x == va then b else ByteAt(im, x)
  {
    assert Vpn(va) == Vpn(x) && va % PAGE_SIZE == x % PAGE_SIZE ==> va == x;
  }

  /** `bs` stored from `lo` on. */
  ghost function Put(im: Image, lo: nat, bs: seq<Byte>): (r: Image)
    requires Mapped(im, lo, |bs|)
    ensures r.bytes.Keys == im.bytes.Keys && r.regions == im.regions
    decreases |bs|
  {
    if bs == [] then im
    else
      assert Vpn(lo + |bs| - 1) in im.bytes;
      PutByte(Put(im, lo, bs[..|bs| - 1]), lo + |bs| - 1, bs[|bs| - 1])
  }

  /** A stored range reads back, and no other byte changes. */
  lemma {:induction false} PutGet(im: Image, lo: nat, bs: seq<Byte>, x: nat)
    requires Mapped(im, lo, |bs|) && Vpn(x) in im.bytes
    ensures ByteAt(Put(im, lo, bs), x) == if lo <= x < lo + |bs| then bs[x - lo] else ByteAt(im, x)
    decreases |bs|
  {
    hide PutByte, ByteAt, Vpn;
    if bs != [] {
      var n := |bs| - 1;
      PutGet(im, lo, bs[..n], x);
      assert Vpn(lo + n) in im.bytes;
      PutOne(Put(im, lo, bs[..n]), lo + n, bs[n], x);
    }
  }

  /** After a store that continues a range, the whole of it reads back. */
  lemma PutContinues(im: Image, lo: nat, done: nat, bs: seq<Byte>)
    requires Mapped(im, lo, done + |bs|)
    ensures Mapped(im, lo + done, |bs|) && Mapped(Put(im, lo + done, bs), lo, done + |bs|)
    ensures Range(Put(im, lo + done, bs), lo, done + |bs|) == Range(im, lo, done) + bs
  {
    hide Put, ByteAt;
    var r := Put(im, lo + done, bs);
    forall i | 0 <= i < done + |bs|
      ensures Vpn(lo + i) in im.bytes && ByteAt(r, lo + i) == (Range(im, lo, done) + bs)[i]
    {
      PutGet(im, lo + done, bs, lo + i);
    }
  }

  // ---- Calls with buffers ----

  datatype Call =
    | ReadCall(k: nat, lo: nat, want: nat, done: nat, returned: bool)
    | WriteCall(k: nat, lo: nat, len: nat, sent: nat, returned: bool)

  datatype State = State(images: map<nat, Image>, queue: seq<Byte>, ends: nat, calls: seq<Call>)

  datatype Event =
    | Duplicate
    | Close
    | StartRead(k: nat, lo: nat, want: nat)
    | StartWrite(k: nat, lo: nat, len: nat)
    | Resume(call: nat)
    | Others(images: map<nat, Image>)   // anything the other processes do

  /** Process `k` waits in the kernel for one of its calls. */
  ghost predicate Busy(calls: seq<Call>, k: nat) {
    exists i :: 0 <= i < |calls| && calls[i].k == k && !calls[i].returned
  }

  predicate NoWriter(ends: nat, calls: seq<Call>) {
    ends == 0 && forall i :: 0 <= i < |calls| ==> calls[i].WriteCall? ==> calls[i].returned
  }

  ghost predicate Backed(images: map<nat, Image>, c: Call) {
    && c.k in images
    && match c
       case ReadCall(k, lo, want, done, _) =>
         Mapped(images[k], lo, want) && done <= want && (want > 0 ==> done < want)
       case WriteCall(k, lo, len, sent, _) =>
         Mapped(images[k], lo, len) && sent <= len && (len > 0 ==> sent < len)
  }

  /** A process has one unfinished call at most, and its buffer is there. */
  ghost predicate Good(s: State) {
    && |s.queue| <= RING_SIZE
    && (forall i :: 0 <= i < |s.calls| && !s.calls[i].returned ==> Backed(s.images, s.calls[i]))
    && forall i, j :: 0 <= i < j < |s.calls| && !s.calls[i].returned && !s.calls[j].returned ==>
         s.calls[i].k != s.calls[j].k
  }

  ghost predicate Can(s: State, e: Event) {
    match e
    case StartRead(k, lo, want) => k in s.images && Mapped(s.images[k], lo, want) && !Busy(s.calls, k)
    case StartWrite(k, lo, len) => k in s.images && Mapped(s.images[k], lo, len) && !Busy(s.calls, k)
    case Others(images) => forall k :: k in s.images && Busy(s.calls, k) ==> k in images && images[k] == s.images[k]
    case _ => true
  }

  ghost function DoRead(s: State, id: nat): State
    requires Good(s) && id < |s.calls| && s.calls[id].ReadCall? && !s.calls[id].returned
  {
    var c := s.calls[id];
    assert Backed(s.images, c);
    var im := s.images[c.k];
    assert Mapped(im, c.lo, c.done);
    var o := ReadTurn(s.queue, NoWriter(s.ends, s.calls), c.want, Range(im, c.lo, c.done));
    assert Mapped(im, c.lo + c.done, |o.got| - c.done);
    State(s.images[c.k := Put(im, c.lo + c.done, o.got[c.done..])], o.queue, s.ends,
          s.calls[id := c.(done := |o.got|, returned := o.returned)])
  }

  ghost function DoWrite(s: State, id: nat): State
    requires Good(s) && id < |s.calls| && s.calls[id].WriteCall? && !s.calls[id].returned
  {
    var c := s.calls[id];
    assert Backed(s.images, c);
    var o := WriteTurn(s.queue, Range(s.images[c.k], c.lo, c.len), c.sent);
    State(s.images, o.queue, s.ends, s.calls[id := c.(sent := o.sent, returned := o.returned)])
  }

  ghost function Step(s: State, e: Event): State
    requires Good(s) && Can(s, e)
  {
    match e
    case Duplicate => if s.ends > 0 then s.(ends := s.ends + 1) else s
    case Close => if s.ends > 0 then s.(ends := s.ends - 1) else s
    case StartRead(k, lo, want) => s.(calls := s.calls + [ReadCall(k, lo, want, 0, false)])
    case StartWrite(k, lo, len) => if s.ends > 0 then s.(calls := s.calls + [WriteCall(k, lo, len, 0, false)]) else s
    case Resume(id) =>
      if id >= |s.calls| || s.calls[id].returned then s
      else if s.calls[id].ReadCall? then DoRead(s, id)
      else DoWrite(s, id)
    case Others(images) => s.(images := images)
  }

  // ---- The pipe alone ----

  /** The same event on the pipe alone. */
  ghost function Plain(s: State, e: Event): seq<PP.Event>
    requires Can(s, e)
  {
    match e
    case Duplicate => [PP.Duplicate]
    case Close => [PP.Close]
    case StartRead(_, _, want) => [PP.StartRead(want)]
    case StartWrite(k, lo, len) => [PP.StartWrite(Range(s.images[k], lo, len))]
    case Resume(id) => [PP.Resume(id)]
    case Others(_) => []
  }

  /** What a call has done; as long as it has not returned, its buffer holds the bytes. */
  ghost predicate SameCall(images: map<nat, Image>, c: Call, p: PP.Call) {
    match c
    case ReadCall(k, lo, want, done, returned) =>
      && p.ReadCall? && p.want == want && |p.got| == done && p.returned == returned
      && (!returned ==> HasGot(images, c, p))
    case WriteCall(k, lo, len, sent, returned) =>
      && p.WriteCall? && |p.buf| == len && p.sent == sent && p.returned == returned
      && (!returned ==> k in images && Mapped(images[k], lo, len) && Range(images[k], lo, len) == p.buf)
  }

  /** The bytes a read got are in its buffer. */
  ghost predicate HasGot(images: map<nat, Image>, c: Call, p: PP.Call)
    requires c.ReadCall? && p.ReadCall?
  {
    c.k in images && Mapped(images[c.k], c.lo, c.done) && Range(images[c.k], c.lo, c.done) == p.got
  }

  ghost predicate Same(s: State, p: PP.PipeState) {
    && s.queue == p.queue && s.ends == p.ends && |s.calls| == |p.calls|
    && forall i :: 0 <= i < |s.calls| ==> SameCall(s.images, s.calls[i], p.calls[i])
  }

  lemma SameWriters(s: State, p: PP.PipeState)
    requires Same(s, p)
    ensures NoWriter(s.ends, s.calls) <==> PP.WriteEndsGone(p)
  {
    hide HasGot, Mapped;
    assert forall i :: 0 <= i < |s.calls| ==> SameCall(s.images, s.calls[i], p.calls[i]);
    forall i | 0 <= i < |s.calls|
      ensures s.calls[i].WriteCall? == p.calls[i].WriteCall? && s.calls[i].returned == p.calls[i].returned
    {
      assert SameCall(s.images, s.calls[i], p.calls[i]);
    }
  }

  lemma ReadSame(s: State, p: PP.PipeState, id: nat)
    requires Good(s) && Same(s, p) && PP.Wf(p) && id < |s.calls| && s.calls[id].ReadCall? && !s.calls[id].returned
    ensures p.calls[id].ReadCall? && !p.calls[id].returned
    ensures var t, q := DoRead(s, id), PP.ReadStep(p, id);
            && t.queue == q.queue && t.ends == q.ends && |t.calls| == |q.calls|
            && SameCall(t.images, t.calls[id], q.calls[id])
            && q.calls[id].ReadCall? && HasGot(t.images, t.calls[id], q.calls[id])
  {
    hide Put, ReadTurn, PP.Tag;
    var c := s.calls[id];
    assert Backed(s.images, c) && SameCall(s.images, c, p.calls[id]);
    SameWriters(s, p);
    var im := s.images[c.k];
    assert Mapped(im, c.lo, c.done);
    var got := Range(im, c.lo, c.done);
    assert got == p.calls[id].got;
    var o := ReadTurn(s.queue, NoWriter(s.ends, s.calls), c.want, got);
    assert Mapped(im, c.lo, |o.got|);
    PP.Split(got, s.queue, o.got, o.queue);
    PutContinues(im, c.lo, c.done, o.got[c.done..]);
  }

  lemma WriteSame(s: State, p: PP.PipeState, id: nat)
    requires Good(s) && Same(s, p) && PP.Wf(p) && id < |s.calls| && s.calls[id].WriteCall? && !s.calls[id].returned
    ensures p.calls[id].WriteCall? && !p.calls[id].returned
    ensures var t, q := DoWrite(s, id), PP.WriteStep(p, id);
            && t.queue == q.queue && t.ends == q.ends && |t.calls| == |q.calls|
            && SameCall(t.images, t.calls[id], q.calls[id])
  {
    hide WriteTurn, PP.Tag;
    assert Backed(s.images, s.calls[id]) && SameCall(s.images, s.calls[id], p.calls[id]);
  }

  /** The memory of a process in a call does not change unless the call is resumed. */
  lemma OthersSame(s: State, p: PP.PipeState, images: map<nat, Image>, i: nat)
    requires Good(s) && Same(s, p) && i < |s.calls|
    requires !s.calls[i].returned ==>
               s.calls[i].k in s.images && s.calls[i].k in images && images[s.calls[i].k] == s.images[s.calls[i].k]
    ensures SameCall(images, s.calls[i], p.calls[i])
    ensures !s.calls[i].returned ==> Backed(images, s.calls[i])
  {
    hide Mapped;
    assert SameCall(s.images, s.calls[i], p.calls[i]);
    assert !s.calls[i].returned ==> Backed(s.images, s.calls[i]);
  }

  lemma TurnSame(s: State, p: PP.PipeState, id: nat)
    requires Good(s) && Same(s, p) && PP.Wf(p) && id < |s.calls| && !s.calls[id].returned
    ensures Good(Step(s, Resume(id))) && Same(Step(s, Resume(id)), PP.Step(p, PP.Resume(id)))
  {
    hide DoRead, DoWrite, SameCall, HasGot, Backed, PP.ReadStep, PP.WriteStep;
    var t, q := Step(s, Resume(id)), PP.Step(p, PP.Resume(id));
    TurnShape(s, p, id);
    if s.calls[id].ReadCall? { ReadSame(s, p, id); } else { WriteSame(s, p, id); }
    TurnBacked(s, id);
    forall i | 0 <= i < |t.calls| && i != id
      ensures SameCall(t.images, t.calls[i], q.calls[i])
      ensures !t.calls[i].returned ==> Backed(t.images, t.calls[i])
    {
      InImages(s, i);
      assert !s.calls[i].returned ==> s.calls[i].k != s.calls[id].k;
      OthersSame(s, p, t.images, i);
    }
  }

  lemma InImages(s: State, i: nat)
    requires Good(s) && i < |s.calls|
    ensures !s.calls[i].returned ==> s.calls[i].k in s.images
  {
    assert !s.calls[i].returned ==> Backed(s.images, s.calls[i]);
  }

  /** A turn changes its own call and the memory of its own process. */
  lemma TurnShape(s: State, p: PP.PipeState, id: nat)
    requires Good(s) && Same(s, p) && PP.Wf(p) && id < |s.calls| && !s.calls[id].returned
    ensures !p.calls[id].returned && p.calls[id].ReadCall? == s.calls[id].ReadCall?
    ensures var t, q := Step(s, Resume(id)), PP.Step(p, PP.Resume(id));
            && |t.calls| == |s.calls| && t.calls[id].k == s.calls[id].k
            && (forall i :: 0 <= i < |s.calls| && i != id ==> t.calls[i] == s.calls[i] && q.calls[i] == p.calls[i])
            && (forall k :: k in s.images && k != s.calls[id].k ==> k in t.images && t.images[k] == s.images[k])
  {
    hide Put, ReadTurn, WriteTurn, PP.Tag, Mapped, Backed;
    assert SameCall(s.images, s.calls[id], p.calls[id]);
  }

  lemma TurnBacked(s: State, id: nat)
    requires Good(s) && id < |s.calls| && !s.calls[id].returned
    ensures var t := Step(s, Resume(id));
            && |t.queue| <= RING_SIZE && |t.calls| == |s.calls|
            && (!t.calls[id].returned ==> Backed(t.images, t.calls[id]))
  {
    hide Put;
    assert Backed(s.images, s.calls[id]);
    var c := s.calls[id];
    if c.ReadCall? {
      var im := s.images[c.k];
      assert Mapped(im, c.lo, c.done);
      var o := ReadTurn(s.queue, NoWriter(s.ends, s.calls), c.want, Range(im, c.lo, c.done));
      assert Mapped(im, c.lo + c.done, |o.got| - c.done);
    }
  }

  lemma NewSame(s: State, p: PP.PipeState, c: Call, d: PP.Call)
    requires Good(s) && Same(s, p) && !c.returned && !Busy(s.calls, c.k)
    requires Backed(s.images, c) && SameCall(s.images, c, d)
    ensures Good(s.(calls := s.calls + [c])) && Same(s.(calls := s.calls + [c]), p.(calls := p.calls + [d]))
  {
    hide SameCall, HasGot, Backed;
  }

  lemma OthersKeep(s: State, p: PP.PipeState, images: map<nat, Image>)
    requires Good(s) && Same(s, p) && Can(s, Others(images))
    ensures Good(s.(images := images)) && Same(s.(images := images), p)
  {
    hide SameCall, HasGot, Backed;
    forall i | 0 <= i < |s.calls|
      ensures SameCall(images, s.calls[i], p.calls[i])
      ensures !s.calls[i].returned ==> Backed(images, s.calls[i])
    {
      InImages(s, i);
      assert !s.calls[i].returned ==> Busy(s.calls, s.calls[i].k);
      OthersSame(s, p, images, i);
    }
  }

  lemma StepSame(s: State, p: PP.PipeState, e: Event)
    requires Good(s) && Same(s, p) && PP.Wf(p) && Can(s, e)
    ensures Good(Step(s, e))
    ensures Same(Step(s, e), PP.Run(p, Plain(s, e)))
  {
    hide DoRead, DoWrite, SameCall, HasGot, PP.ReadStep, PP.WriteStep, PP.Run;
    PlainRun(p, Plain(s, e));
    match e
    case Resume(id) =>
      if id < |s.calls| && !s.calls[id].returned {
        TurnSame(s, p, id);
      } else if id < |s.calls| {
        assert SameCall(s.images, s.calls[id], p.calls[id]);
        AlsoReturned(s.images, s.calls[id], p.calls[id]);
      }
    case StartRead(k, lo, want) =>
      StartedRead(s.images, k, lo, want);
      NewSame(s, p, ReadCall(k, lo, want, 0, false), PP.ReadCall(want, [], false));
    case StartWrite(k, lo, len) =>
      if s.ends > 0 {
        StartedWrite(s.images, k, lo, len);
        NewSame(s, p, WriteCall(k, lo, len, 0, false), PP.WriteCall(Range(s.images[k], lo, len), 0, false));
      }
    case Others(images) => OthersKeep(s, p, images);
    case Duplicate =>
    case Close =>
  }

  lemma PlainRun(p: PP.PipeState, es: seq<PP.Event>)
    requires PP.Wf(p) && |es| <= 1
    ensures es == [] ==> PP.Run(p, es) == p
    ensures |es| == 1 ==> PP.Run(p, es) == PP.Step(p, es[0])
  {
    hide PP.Step;
    if |es| == 1 {
      assert es[..0] == [];
    }
  }

  lemma AlsoReturned(images: map<nat, Image>, c: Call, p: PP.Call)
    requires SameCall(images, c, p)
    ensures p.returned == c.returned
  {
  }

  lemma StartedRead(images: map<nat, Image>, k: nat, lo: nat, want: nat)
    requires k in images && Mapped(images[k], lo, want)
    ensures Backed(images, ReadCall(k, lo, want, 0, false))
    ensures SameCall(images, ReadCall(k, lo, want, 0, false), PP.ReadCall(want, [], false))
  {
  }

  lemma StartedWrite(images: map<nat, Image>, k: nat, lo: nat, len: nat)
    requires k in images && Mapped(images[k], lo, len)
    ensures Backed(images, WriteCall(k, lo, len, 0, false))
    ensures SameCall(images, WriteCall(k, lo, len, 0, false),
                     PP.WriteCall(Range(images[k], lo, len), 0, false))
  {
  }

  // ---- Runs ----

  /** `make_pipe`, whatever memory holds. */
  function Start(images: map<nat, Image>): State { State(images, [], 1, []) }

  ghost predicate Runs(s: State, es: seq<Event>)
    decreases |es|
  {
    Good(s) && (es == [] || (Can(s, es[0]) && Runs(Step(s, es[0]), es[1..])))
  }

  ghost function Run(s: State, es: seq<Event>): (t: State)
    requires Runs(s, es)
    ensures Good(t)
    decreases |es|
  {
    if es == [] then s else Run(Step(s, es[0]), es[1..])
  }

  ghost function Trace(s: State, es: seq<Event>): seq<PP.Event>
    requires Runs(s, es)
    decreases |es|
  {
    if es == [] then [] else Plain(s, es[0]) + Trace(Step(s, es[0]), es[1..])
  }

  lemma {:induction false} RunConcat(p: PP.PipeState, a: seq<PP.Event>, b: seq<PP.Event>)
    requires PP.Wf(p)
    ensures PP.Run(p, a + b) == PP.Run(PP.Run(p, a), b)
    decreases |b|
  {
    hide PP.Step;
    if b == [] {
      assert a + b == a;
    } else {
      RunConcat(p, a, b[..|b| - 1]);
      assert (a + b)[..|a + b| - 1] == a + b[..|b| - 1];
    }
  }

  /** Every run with buffers is a run of the pipe alone. */
  lemma {:induction false} Refined(s: State, p: PP.PipeState, es: seq<Event>)
    requires Runs(s, es) && Same(s, p) && PP.Wf(p)
    ensures Same(Run(s, es), PP.Run(p, Trace(s, es)))
    decreases |es|
  {
    hide Step, Plain, Same, Can, Good, PP.Run;
    if es != [] {
      StepSame(s, p, es[0]);
      Refined(Step(s, es[0]), PP.Run(p, Plain(s, es[0])), es[1..]);
      RunConcat(p, Plain(s, es[0]), Trace(Step(s, es[0]), es[1..]));
    } else {
      PlainRun(p, []);
    }
  }

  /** From `make_pipe` on: bytes arrive first in, first out, and what is written is what the
      writers' buffers held when their calls started. */
  lemma Delivered(images: map<nat, Image>, es: seq<Event>)
    requires Runs(Start(images), es)
    ensures var s, p := Run(Start(images), es), PP.Run(PP.MakePipe(), Trace(Start(images), es));
            Same(s, p) && PP.Inv(p) && PP.Delivered(p)
  {
    hide Run, Runs, Trace, Same, Good, PP.Run, PP.Inv, PP.Delivered;
    assert Same(Start(images), PP.MakePipe()) by { SameStart(images); }
    Refined(Start(images), PP.MakePipe(), es);
    PP.RunKeepsInv(PP.MakePipe(), Trace(Start(images), es));
    PP.Delivery(Trace(Start(images), es));
  }

  lemma SameStart(images: map<nat, Image>)
    ensures Same(Start(images), PP.MakePipe())
  {
  }

  /** What one turn of read `id` leaves behind: the bytes consumed so far stand in its range
      in order; it has all it wants or the stream is at its end if it returned; no other
      byte of the process and nothing of any other process changed. */
  ghost predicate Arrived(s: State, t: State, p: PP.PipeState, id: nat) {
    && id < |s.calls| && id < |t.calls| && s.calls[id].ReadCall? && t.calls[id].ReadCall?
    && var c, done := s.calls[id], t.calls[id].done;
       && c.k in s.images && c.k in t.images && c.done <= done <= c.want
       && Mapped(t.images[c.k], c.lo, done) && Range(t.images[c.k], c.lo, done) == PP.Of(p.consumed, id)
       && (t.calls[id].returned && done < c.want ==> PP.WriteEndsGone(p) && PP.Bytes(p.consumed) == PP.Bytes(p.written))
       && (forall k :: k in s.images && k != c.k ==> k in t.images && t.images[k] == s.images[k])
       && (forall x: nat :: Vpn(x) in s.images[c.k].bytes && !(c.lo + c.done <= x < c.lo + done) ==>
             Vpn(x) in t.images[c.k].bytes && ByteAt(t.images[c.k], x) == ByteAt(s.images[c.k], x))
  }

  lemma ReadArrives(s: State, p: PP.PipeState, id: nat)
    requires Good(s) && Same(s, p) && PP.Inv(p) && id < |s.calls| && s.calls[id].ReadCall? && !s.calls[id].returned
    ensures Arrived(s, Step(s, Resume(id)), PP.Step(p, PP.Resume(id)), id)
  {
    hide PP.Of, PP.Bytes, PP.WriteEndsGone, Mapped, PP.Step, PP.ReadStep, DoRead, ByteAt;
    var t, q := Step(s, Resume(id)), PP.Step(p, PP.Resume(id));
    TurnShape(s, p, id);
    ReadSame(s, p, id);
    PP.StepKeepsInv(p, PP.Resume(id));
    PP.ReturnedState(q, id);
    PlainStep(p, id);
    assert PP.CallWf(q.calls[id]) && PP.CallInv(q, id);
    assert SameCall(t.images, t.calls[id], q.calls[id]);
    OutsideKept(s, id);
  }

  lemma PlainStep(p: PP.PipeState, id: nat)
    requires PP.Wf(p) && id < |p.calls| && p.calls[id].ReadCall? && !p.calls[id].returned
    ensures PP.Step(p, PP.Resume(id)) == PP.ReadStep(p, id)
  {
  }

  lemma OutsideKept(s: State, id: nat)
    requires Good(s) && id < |s.calls| && s.calls[id].ReadCall? && !s.calls[id].returned
    ensures var c, t := s.calls[id], DoRead(s, id);
            && c.k in s.images && c.k in t.images && |t.calls| == |s.calls| && t.calls[id].ReadCall?
            && t.calls[id].k == c.k && t.calls[id].lo == c.lo && t.calls[id].want == c.want
            && c.done <= t.calls[id].done <= c.want
            && (forall x: nat :: Vpn(x) in s.images[c.k].bytes && !(c.lo + c.done <= x < c.lo + t.calls[id].done) ==>
                  Vpn(x) in t.images[c.k].bytes && ByteAt(t.images[c.k], x) == ByteAt(s.images[c.k], x))
  {
    hide Put, ReadTurn, ByteAt;
    var c, t := s.calls[id], DoRead(s, id);
    assert Backed(s.images, c);
    var im := s.images[c.k];
    assert Mapped(im, c.lo, c.done);
    var o := ReadTurn(s.queue, NoWriter(s.ends, s.calls), c.want, Range(im, c.lo, c.done));
    assert Mapped(im, c.lo + c.done, |o.got| - c.done);
    forall x: nat | Vpn(x) in im.bytes && !(c.lo + c.done <= x < c.lo + |o.got|)
      ensures ByteAt(Put(im, c.lo + c.done, o.got[c.done..]), x) == ByteAt(im, x)
    {
      PutGet(im, c.lo + c.done, o.got[c.done..], x);
    }
  }

  /** Reading, after any run. */
  lemma Arrives(images: map<nat, Image>, es: seq<Event>, id: nat)
    requires Runs(Start(images), es)
    requires var s := Run(Start(images), es); id < |s.calls| && s.calls[id].ReadCall? && !s.calls[id].returned
    ensures var s, p := Run(Start(images), es), PP.Run(PP.MakePipe(), Trace(Start(images), es));
            && PP.Delivered(PP.Step(p, PP.Resume(id)))
            && Arrived(s, Step(s, Resume(id)), PP.Step(p, PP.Resume(id)), id)
  {
    hide Run, Runs, Trace, Step, PP.Run, PP.Step, PP.Inv, Good, Same, Arrived, PP.Delivered;
    Delivered(images, es);
    var p := PP.Run(PP.MakePipe(), Trace(Start(images), es));
    ReadArrives(Run(Start(images), es), p, id);
    PP.StepKeepsInv(p, PP.Resume(id));
    PP.DeliveredState(PP.Step(p, PP.Resume(id)));
  }

  // ---- One writer, one reader ----

  lemma {:induction false} AllOf(ms: seq<PP.Mark>, a: nat, b: nat)
    requires forall i :: 0 <= i < |ms| ==> ms[i].call == a || ms[i].call == b
    requires a != b && PP.Of(ms, b) == []
    ensures PP.Of(ms, a) == PP.Bytes(ms)
  {
    if ms != [] {
      var front := ms[..|ms| - 1];
      assert PP.Of(front, b) == [];
      AllOf(front, a, b);
      assert PP.Bytes(ms) == PP.Bytes(front) + [ms[|ms| - 1].byte];
    }
  }

  /** With one write and one read, the read has a prefix of what the writer's range held. */
  lemma OneToOne(p: PP.PipeState, w: nat, r: nat)
    requires PP.Inv(p) && |p.calls| == 2 && w + r == 1
    requires p.calls[w].WriteCall? && p.calls[r].ReadCall?
    ensures p.calls[r].got <= p.calls[w].buf
  {
    hide PP.Of, PP.Bytes, PP.WriteEndsGone;
    assert PP.CallWf(p.calls[w]) && PP.CallInv(p, w);
    assert PP.CallWf(p.calls[r]) && PP.CallInv(p, r);
    AllOf(p.written, w, r);
    AllOf(p.consumed, r, w);
    assert p.calls[r].got + p.queue == p.calls[w].buf[..p.calls[w].sent];
  }

  lemma StepBuf(p: PP.PipeState, e: PP.Event, w: nat)
    requires PP.Wf(p) && w < |p.calls| && p.calls[w].WriteCall?
    ensures var q := PP.Step(p, e); w < |q.calls| && q.calls[w].WriteCall? && q.calls[w].buf == p.calls[w].buf
  {
    hide PP.Tag, ReadTurn, WriteTurn;
  }

  lemma {:induction false} BufKept(p: PP.PipeState, es: seq<PP.Event>, w: nat)
    requires PP.Wf(p) && w < |p.calls| && p.calls[w].WriteCall?
    ensures var q := PP.Run(p, es); w < |q.calls| && q.calls[w].WriteCall? && q.calls[w].buf == p.calls[w].buf
    decreases |es|
  {
    hide PP.Step;
    if es != [] {
      BufKept(p, es[..|es| - 1], w);
      StepBuf(PP.Run(p, es[..|es| - 1]), es[|es| - 1], w);
    }
  }

  /** Between address spaces: a write of `n` bytes starts, anything happens, and a read gets
      a turn.  Then the reader's range holds the first bytes that the writer's range held
      when the write started, and a read that returns has as many of them as it wants or
      as there are. */
  lemma Transfer(images: map<nat, Image>, before: seq<Event>, k: nat, lo: nat, n: nat, after: seq<Event>, r: nat)
    requires Runs(Start(images), before) && Run(Start(images), before).ends > 0
    requires Can(Run(Start(images), before), StartWrite(k, lo, n))
    requires Runs(Step(Run(Start(images), before), StartWrite(k, lo, n)), after)
    requires var s := Run(Step(Run(Start(images), before), StartWrite(k, lo, n)), after);
             && |s.calls| == 2 && r + |Run(Start(images), before).calls| == 1
             && s.calls[r].ReadCall? && !s.calls[r].returned
    ensures var s0 := Run(Start(images), before);
            var s := Run(Step(s0, StartWrite(k, lo, n)), after);
            && var t, c := Step(s, Resume(r)), s.calls[r];
               && |t.calls| == 2 && t.calls[r].ReadCall? && t.calls[r].done <= n
               && c.k in t.images && Mapped(t.images[c.k], c.lo, t.calls[r].done)
               && Range(t.images[c.k], c.lo, t.calls[r].done) == Range(s0.images[k], lo, n)[..t.calls[r].done]
               && (t.calls[r].returned ==> t.calls[r].done == Min(c.want, n))
  {
    hide Runs, Run, Trace, Step, Same, Good, Can, PP.Run, PP.Step, PP.Inv, Mapped, PP.Of, Arrived;
    var s0 := Run(Start(images), before);
    var p0 := PP.Run(PP.MakePipe(), Trace(Start(images), before));
    var e := StartWrite(k, lo, n);
    Delivered(images, before);
    WriteStarts(s0, p0, k, lo, n);
    var p1 := PP.Run(p0, Plain(s0, e));
    PP.RunKeepsInv(p0, Plain(s0, e));
    StepSame(s0, p0, e);
    var s1 := Step(s0, e);
    Refined(s1, p1, after);
    var s, p := Run(s1, after), PP.Run(p1, Trace(s1, after));
    PP.RunKeepsInv(p1, Trace(s1, after));
    BufKept(p1, Trace(s1, after), 1 - r);
    ReadArrives(s, p, r);
    ReadFrom(s, p, r, Range(s0.images[k], lo, n));
  }

  lemma WriteStarts(s: State, p: PP.PipeState, k: nat, lo: nat, n: nat)
    requires Good(s) && Same(s, p) && PP.Inv(p) && Can(s, StartWrite(k, lo, n)) && s.ends > 0
    ensures PP.Wf(p) && k in s.images && Mapped(s.images[k], lo, n)
    ensures var q := PP.Run(p, Plain(s, StartWrite(k, lo, n)));
            |q.calls| == |s.calls| + 1 && q.calls[|s.calls|] == PP.WriteCall(Range(s.images[k], lo, n), 0, false)
  {
    hide PP.Run, SameCall, PP.CallInv, PP.Bytes;
    PlainRun(p, Plain(s, StartWrite(k, lo, n)));
  }

  lemma ReadFrom(s: State, p: PP.PipeState, r: nat, buf: seq<Byte>)
    requires Good(s) && Same(s, p) && PP.Inv(p) && |s.calls| == 2 && r < 2
    requires s.calls[r].ReadCall? && !s.calls[r].returned && p.calls[1 - r].WriteCall? && p.calls[1 - r].buf == buf
    requires Arrived(s, Step(s, Resume(r)), PP.Step(p, PP.Resume(r)), r)
    ensures var t, c := Step(s, Resume(r)), s.calls[r];
            && |t.calls| == 2 && t.calls[r].ReadCall? && t.calls[r].done <= |buf|
            && c.k in t.images && Mapped(t.images[c.k], c.lo, t.calls[r].done)
            && Range(t.images[c.k], c.lo, t.calls[r].done) == buf[..t.calls[r].done]
            && (t.calls[r].returned ==> t.calls[r].done == Min(c.want, |buf|))
  {
    hide PP.Of, PP.Bytes, Mapped, PP.Step, DoRead, Good, Same, PP.CallInv, PP.Inv;
    InvWf(p);
    var q := PP.Step(p, PP.Resume(r));
    SameRead(s, p, r);
    TurnShape(s, p, r);
    PlainStep(p, r);
    PP.StepKeepsInv(p, PP.Resume(r));
    StepBuf(p, PP.Resume(r), 1 - r);
    OneToOne(q, 1 - r, r);
    ReadCounts(q, 1 - r, r);
  }

  lemma InvWf(p: PP.PipeState)
    requires PP.Inv(p)
    ensures PP.Wf(p)
  {
  }

  lemma SameRead(s: State, p: PP.PipeState, r: nat)
    requires Same(s, p) && r < |s.calls| && s.calls[r].ReadCall? && !s.calls[r].returned
    ensures |p.calls| == |s.calls| && p.calls[r].ReadCall? && !p.calls[r].returned && p.calls[r].want == s.calls[r].want
  {
    hide HasGot;
    assert SameCall(s.images, s.calls[r], p.calls[r]);
  }

  /** What the read has is what was consumed, and all that was consumed. */
  lemma ReadCounts(p: PP.PipeState, w: nat, r: nat)
    requires PP.Inv(p) && |p.calls| == 2 && w + r == 1
    requires p.calls[w].WriteCall? && p.calls[r].ReadCall?
    ensures PP.Of(p.consumed, r) == p.calls[r].got
    ensures PP.WriteEndsGone(p) && PP.Bytes(p.consumed) == PP.Bytes(p.written) ==> p.calls[r].got == p.calls[w].buf
  {
    hide PP.Of, PP.Bytes;
    assert PP.CallWf(p.calls[w]) && PP.CallInv(p, w);
    assert PP.CallWf(p.calls[r]) && PP.CallInv(p, r);
    AllOf(p.written, w, r);
    AllOf(p.consumed, r, w);
  }
}
