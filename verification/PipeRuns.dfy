/**
 * All interleavings of any number of readers and writers on one pipe.
 *
 * A run is a list of events: write ends are duplicated and closed, calls start, and a
 * call that has not returned is resumed for one turn.  The state keeps, beside the
 * queue, which call wrote and which call consumed each byte.
 */
module PipeRuns {
  import opened LittleEndian
  import opened PipeRing

  datatype Call =
    | ReadCall(want: nat, got: seq<Byte>, returned: bool)
    | WriteCall(buf: seq<Byte>, sent: nat, returned: bool)

  datatype Mark = Mark(call: nat, byte: Byte)

  datatype PipeState = PipeState(
    queue: seq<Byte>,
    ends: nat,            // write ends held by file descriptors
    calls: seq<Call>,
    written: seq<Mark>,
    consumed: seq<Mark>)

  datatype Event = Duplicate | Close | StartRead(want: nat) | StartWrite(buf: seq<Byte>) | Resume(call: nat)

  /** `make_pipe`: one write end, nothing in the ring. */
  function MakePipe(): PipeState { PipeState([], 1, [], [], []) }

  /** A write that has not returned keeps its write end alive. */
  predicate NoWriter(ends: nat, calls: seq<Call>) {
    ends == 0 && forall i :: 0 <= i < |calls| ==> calls[i].WriteCall? ==> calls[i].returned
  }

  predicate WriteEndsGone(s: PipeState) { NoWriter(s.ends, s.calls) }

  predicate CallWf(c: Call) {
    match c
    case ReadCall(want, got, returned) => |got| <= want && (want > 0 && !returned ==> |got| < want)
    case WriteCall(buf, sent, returned) => sent <= |buf| && (buf != [] && !returned ==> sent < |buf|)
  }

  predicate Wf(s: PipeState) {
    |s.queue| <= RING_SIZE && forall i :: 0 <= i < |s.calls| ==> CallWf(s.calls[i])
  }

  function Tag(call: nat, bytes: seq<Byte>): (ms: seq<Mark>)
    ensures |ms| == |bytes|
    ensures forall i :: 0 <= i < |ms| ==> ms[i] == Mark(call, bytes[i])
  {
    seq(|bytes|, (i: nat) requires i < |bytes| => Mark(call, bytes[i]))
  }

  function ReadStep(s: PipeState, id: nat): (r: PipeState)
    requires Wf(s) && id < |s.calls| && s.calls[id].ReadCall? && !s.calls[id].returned
    ensures Wf(r)
  {
    var c := s.calls[id];
    var o := ReadTurn(s.queue, WriteEndsGone(s), c.want, c.got);
    PipeState(o.queue, s.ends, s.calls[id := ReadCall(c.want, o.got, o.returned)], s.written,
              s.consumed + Tag(id, o.got[|c.got|..]))
  }

  function WriteStep(s: PipeState, id: nat): (r: PipeState)
    requires Wf(s) && id < |s.calls| && s.calls[id].WriteCall? && !s.calls[id].returned
    ensures Wf(r)
  {
    var c := s.calls[id];
    var o := WriteTurn(s.queue, c.buf, c.sent);
    PipeState(o.queue, s.ends, s.calls[id := WriteCall(c.buf, o.sent, o.returned)],
              s.written + Tag(id, c.buf[c.sent..o.sent]), s.consumed)
  }

  function Step(s: PipeState, e: Event): (r: PipeState)
    requires Wf(s)
    ensures Wf(r)
  {
    match e
    case Duplicate => if s.ends > 0 then s.(ends := s.ends + 1) else s
    case Close => if s.ends > 0 then s.(ends := s.ends - 1) else s
    case StartRead(want) => s.(calls := s.calls + [ReadCall(want, [], false)])
    case StartWrite(buf) => if s.ends > 0 then s.(calls := s.calls + [WriteCall(buf, 0, false)]) else s
    case Resume(id) =>
      if id >= |s.calls| || s.calls[id].returned then s
      else if s.calls[id].ReadCall? then ReadStep(s, id)
      else WriteStep(s, id)
  }

  function Run(s: PipeState, es: seq<Event>): (r: PipeState)
    requires Wf(s)
    ensures Wf(r)
  {
    if es == [] then s else Step(Run(s, es[..|es| - 1]), es[|es| - 1])
  }

  // ---- The invariant ----

  function Bytes(ms: seq<Mark>): (bs: seq<Byte>)
    ensures |bs| == |ms|
    ensures forall i :: 0 <= i < |ms| ==> bs[i] == ms[i].byte
  {
    seq(|ms|, (i: nat) requires i < |ms| => ms[i].byte)
  }

  /** The bytes of one call, in order. */
  ghost function Of(ms: seq<Mark>, call: nat): seq<Byte> {
    if ms == [] then []
    else Of(ms[..|ms| - 1], call) + (if ms[|ms| - 1].call == call then [ms[|ms| - 1].byte] else [])
  }

  lemma OfSnoc(ms: seq<Mark>, m: Mark, call: nat)
    ensures Of(ms + [m], call) == Of(ms, call) + (if m.call == call then [m.byte] else [])
  {
    assert (ms + [m])[..|ms|] == ms;
  }

  lemma {:induction false} OfTagged(ms: seq<Mark>, id: nat, bs: seq<Byte>, call: nat)
    ensures Of(ms + Tag(id, bs), call) == Of(ms, call) + (if id == call then bs else [])
    decreases |bs|
  {
    hide Of, Tag;
    if bs == [] {
      assert ms + Tag(id, bs) == ms;
    } else {
      var front, last := bs[..|bs| - 1], bs[|bs| - 1];
      OfTagged(ms, id, front, call);
      OfSnoc(ms + Tag(id, front), Mark(id, last), call);
      assert ms + Tag(id, bs) == ms + Tag(id, front) + [Mark(id, last)];
      assert bs == front + [last];
    }
  }

  lemma {:induction false} OfNone(ms: seq<Mark>, call: nat)
    requires forall i :: 0 <= i < |ms| ==> ms[i].call != call
    ensures Of(ms, call) == []
  {
    if ms != [] {
      OfNone(ms[..|ms| - 1], call);
    }
  }

  lemma BytesTagged(ms: seq<Mark>, id: nat, bs: seq<Byte>)
    ensures Bytes(ms + Tag(id, bs)) == Bytes(ms) + bs
  {
  }

  ghost predicate MarksOf(ms: seq<Mark>, n: nat) {
    forall i :: 0 <= i < |ms| ==> ms[i].call < n
  }

  /** What a call has done agrees with the history; a read that came back short did so at
      the end of the stream. */
  ghost predicate CallInv(s: PipeState, id: nat)
    requires id < |s.calls| && CallWf(s.calls[id])
  {
    match s.calls[id]
    case ReadCall(want, got, returned) =>
      && Of(s.consumed, id) == got && Of(s.written, id) == []
      && (returned && |got| < want ==> s.queue == [] && WriteEndsGone(s))
    case WriteCall(buf, sent, returned) =>
      && Of(s.written, id) == buf[..sent] && Of(s.consumed, id) == []
      && (returned ==> sent == |buf|)
  }

  ghost predicate Inv(s: PipeState) {
    && Wf(s)
    && Bytes(s.consumed) + s.queue == Bytes(s.written)
    && MarksOf(s.written, |s.calls|) && MarksOf(s.consumed, |s.calls|)
    && forall id :: 0 <= id < |s.calls| ==> CallWf(s.calls[id]) && CallInv(s, id)
  }

  lemma ReadStepKeeps(s: PipeState, id: nat)
    requires Inv(s) && id < |s.calls| && s.calls[id].ReadCall? && !s.calls[id].returned
    ensures Inv(ReadStep(s, id))
  {
    hide Of, ReadTurn, Bytes, Tag, CallInv, WriteEndsGone;
    var c, r := s.calls[id], ReadStep(s, id);
    var o := ReadTurn(s.queue, WriteEndsGone(s), c.want, c.got);
    var moved := o.got[|c.got|..];
    Split(c.got, s.queue, o.got, o.queue);
    BytesTagged(s.consumed, id, moved);
    forall i | 0 <= i < |r.calls| ensures CallInv(r, i) {
      ReadCallKept(s, id, i);
    }
  }

  lemma ReadCallKept(s: PipeState, id: nat, i: nat)
    requires Wf(s) && id < |s.calls| && s.calls[id].ReadCall? && !s.calls[id].returned
    requires i < |s.calls| && CallInv(s, i) && CallInv(s, id)
    ensures CallInv(ReadStep(s, id), i)
  {
    hide Of, ReadTurn, Tag, WriteEndsGone;
    var c, r := s.calls[id], ReadStep(s, id);
    var o := ReadTurn(s.queue, WriteEndsGone(s), c.want, c.got);
    var moved := o.got[|c.got|..];
    Split(c.got, s.queue, o.got, o.queue);
    SameGone(s, r, id);
    OfTagged(s.consumed, id, moved, i);
  }

  lemma Split(got: seq<Byte>, queue: seq<Byte>, got2: seq<Byte>, queue2: seq<Byte>)
    requires got2 + queue2 == got + queue && |got| <= |got2|
    ensures got2 == got + got2[|got|..] && got2[|got|..] + queue2 == queue
  {
    assert got == (got + queue)[..|got|] == got2[..|got|];
    assert queue == (got + queue)[|got|..] == (got2 + queue2)[|got|..];
  }

  /** A read's turn neither finishes nor starts a write. */
  lemma SameGone(s: PipeState, r: PipeState, id: nat)
    requires id < |s.calls| && s.calls[id].ReadCall? && r.ends == s.ends
    requires |r.calls| == |s.calls| && r.calls[id].ReadCall? && r.calls == s.calls[id := r.calls[id]]
    ensures WriteEndsGone(r) == WriteEndsGone(s)
  {
    assert forall i :: 0 <= i < |s.calls| ==> i == id || r.calls[i] == s.calls[i];
    assert r.calls[id].ReadCall?;
  }

  lemma WriteStepKeeps(s: PipeState, id: nat)
    requires Inv(s) && id < |s.calls| && s.calls[id].WriteCall? && !s.calls[id].returned
    ensures Inv(WriteStep(s, id))
  {
    hide Of, WriteTurn, Bytes, Tag;
    var c, r := s.calls[id], WriteStep(s, id);
    var o := WriteTurn(s.queue, c.buf, c.sent);
    var moved := c.buf[c.sent..o.sent];
    BytesTagged(s.written, id, moved);
    assert Bytes(s.consumed) + (s.queue + moved) == Bytes(s.consumed) + s.queue + moved;
    assert c.buf[..o.sent] == c.buf[..c.sent] + moved;
    assert !WriteEndsGone(s);
    forall i | 0 <= i < |r.calls| ensures CallInv(r, i) {
      OfTagged(s.written, id, moved, i);
      assert CallInv(s, i);
    }
  }

  lemma StepKeepsInv(s: PipeState, e: Event)
    requires Inv(s)
    ensures Inv(Step(s, e))
  {
    hide Of, ReadStep, WriteStep;
    var r := Step(s, e);
    match e
    case Resume(id) =>
      if id < |s.calls| && !s.calls[id].returned {
        if s.calls[id].ReadCall? { ReadStepKeeps(s, id); } else { WriteStepKeeps(s, id); }
      }
    case Duplicate =>
      forall i | 0 <= i < |r.calls| ensures CallInv(r, i) { assert CallInv(s, i); }
    case Close =>
      forall i | 0 <= i < |r.calls| ensures CallInv(r, i) { assert CallInv(s, i); }
    case StartRead(want) =>
      NewCall(s, ReadCall(want, [], false), r);
    case StartWrite(buf) =>
      if s.ends > 0 { NewCall(s, WriteCall(buf, 0, false), r); }
  }

  lemma NewCall(s: PipeState, c: Call, r: PipeState)
    requires Inv(s) && Wf(r) && r == s.(calls := s.calls + [c]) && !c.returned
    requires if c.ReadCall? then c.got == [] else c.sent == 0 && s.ends > 0
    ensures Inv(r)
  {
    hide Of;
    OfNone(s.written, |s.calls|);
    OfNone(s.consumed, |s.calls|);
    forall i | 0 <= i < |r.calls| ensures CallInv(r, i) {
      if i < |s.calls| { assert CallInv(s, i); }
    }
  }

  lemma {:induction false} RunKeepsInv(s: PipeState, es: seq<Event>)
    requires Inv(s)
    ensures Inv(Run(s, es))
    decreases |es|
  {
    if es != [] {
      RunKeepsInv(s, es[..|es| - 1]);
      StepKeepsInv(Run(s, es[..|es| - 1]), es[|es| - 1]);
    }
  }

  // ---- What every run satisfies ----

  /** First in, first out: the i-th byte consumed is the i-th byte written, the ring holds
      exactly the bytes in flight, and each call's bytes are in the stream in its order. */
  ghost predicate Delivered(s: PipeState) {
    && |s.consumed| + |s.queue| == |s.written| && |s.queue| <= RING_SIZE
    && (forall i :: 0 <= i < |s.consumed| ==> s.consumed[i].byte == s.written[i].byte)
    && (forall i :: 0 <= i < |s.queue| ==> s.queue[i] == s.written[|s.consumed| + i].byte)
    && (forall id :: 0 <= id < |s.calls| && s.calls[id].ReadCall? ==> s.calls[id].got == Of(s.consumed, id))
    && (forall id :: 0 <= id < |s.calls| && s.calls[id].WriteCall? ==>
          s.calls[id].sent <= |s.calls[id].buf| && s.calls[id].buf[..s.calls[id].sent] == Of(s.written, id))
  }

  lemma Delivery(es: seq<Event>)
    ensures Delivered(Run(MakePipe(), es))
  {
    hide Delivered, Run;
    RunKeepsInv(MakePipe(), es);
    DeliveredState(Run(MakePipe(), es));
  }

  lemma DeliveredState(s: PipeState)
    requires Inv(s)
    ensures Delivered(s)
  {
    hide Of, WriteEndsGone;
    InFlight(s);
    forall id | 0 <= id < |s.calls|
      ensures s.calls[id].ReadCall? ==> s.calls[id].got == Of(s.consumed, id)
      ensures s.calls[id].WriteCall? ==>
                s.calls[id].sent <= |s.calls[id].buf| && s.calls[id].buf[..s.calls[id].sent] == Of(s.written, id)
    {
      assert CallWf(s.calls[id]) && CallInv(s, id);
    }
  }

  lemma InFlight(s: PipeState)
    requires Bytes(s.consumed) + s.queue == Bytes(s.written)
    ensures |s.consumed| + |s.queue| == |s.written|
    ensures forall i :: 0 <= i < |s.consumed| ==> s.consumed[i].byte == s.written[i].byte
    ensures forall i :: 0 <= i < |s.queue| ==> s.queue[i] == s.written[|s.consumed| + i].byte
  {
    var w := Bytes(s.written);
    assert forall i :: 0 <= i < |s.consumed| ==> w[i] == Bytes(s.consumed)[i];
    assert forall i :: 0 <= i < |s.queue| ==> w[|s.consumed| + i] == s.queue[i];
  }

  /** A call that returned moved all its bytes, except for a read at the end of the
      stream: then every write end is gone and every byte ever written was consumed. */
  ghost predicate CameBack(s: PipeState, id: nat) {
    id < |s.calls| && s.calls[id].returned ==>
      match s.calls[id]
      case WriteCall(buf, sent, _) => sent == |buf|
      case ReadCall(want, got, _) =>
        |got| == want || (|got| < want && WriteEndsGone(s) && Bytes(s.consumed) == Bytes(s.written))
  }

  lemma Returned(es: seq<Event>, id: nat)
    ensures CameBack(Run(MakePipe(), es), id)
  {
    hide CameBack, Run;
    RunKeepsInv(MakePipe(), es);
    ReturnedState(Run(MakePipe(), es), id);
  }

  lemma ReturnedState(s: PipeState, id: nat)
    requires Inv(s)
    ensures CameBack(s, id)
  {
    hide Of, Bytes;
    if id < |s.calls| {
      assert CallWf(s.calls[id]) && CallInv(s, id);
      if s.queue == [] {
        assert Bytes(s.consumed) + [] == Bytes(s.consumed);
      }
    }
  }

  /** Once every write end is gone no byte is ever added. */
  lemma {:induction false} EndOfStream(s: PipeState, es: seq<Event>)
    requires Inv(s) && WriteEndsGone(s)
    ensures WriteEndsGone(Run(s, es)) && Run(s, es).written == s.written
    decreases |es|
  {
    if es != [] {
      var m := Run(s, es[..|es| - 1]);
      EndOfStream(s, es[..|es| - 1]);
      EndStep(m, es[|es| - 1]);
    }
  }

  lemma EndStep(s: PipeState, e: Event)
    requires Wf(s) && WriteEndsGone(s)
    ensures WriteEndsGone(Step(s, e)) && Step(s, e).written == s.written
  {
    hide ReadTurn;
    if e.Resume? && e.call < |s.calls| && !s.calls[e.call].returned {
      SameGone(s, Step(s, e), e.call);
    }
  }

  /** Readers and writers cannot wait for each other: when a read and a write are both
      unfinished, resuming one of the two moves a byte or makes its call return. */
  lemma NoDeadlock(s: PipeState, r: nat, w: nat)
    requires Inv(s)
    requires r < |s.calls| && s.calls[r].ReadCall? && !s.calls[r].returned
    requires w < |s.calls| && s.calls[w].WriteCall? && !s.calls[w].returned
    ensures || |Step(s, Resume(r)).consumed| > |s.consumed| || Step(s, Resume(r)).calls[r].returned
            || |Step(s, Resume(w)).written| > |s.written| || Step(s, Resume(w)).calls[w].returned
  {
    hide CallInv, Of, Bytes, Tag;
    if s.queue == [] {
      var o := WriteTurn(s.queue, s.calls[w].buf, s.calls[w].sent);
      assert Step(s, Resume(w)) == WriteStep(s, w);
      assert |Step(s, Resume(w)).written| == |s.written| + (o.sent - s.calls[w].sent);
    } else {
      var o := ReadTurn(s.queue, WriteEndsGone(s), s.calls[r].want, s.calls[r].got);
      assert Step(s, Resume(r)) == ReadStep(s, r);
      assert |Step(s, Resume(r)).consumed| == |s.consumed| + (|o.got| - |s.calls[r].got|);
    }
  }

  lemma {:induction false} CloseMany(s: PipeState, n: nat)
    requires Wf(s) && n <= s.ends
    ensures Run(s, seq(n, _ => Close)) == s.(ends := s.ends - n)
  {
    if n > 0 {
      CloseMany(s, n - 1);
      assert seq(n, _ => Close)[..n - 1] == seq(n - 1, _ => Close);
    }
  }

  lemma {:induction false} DuplicateMany(s: PipeState, n: nat)
    requires Wf(s) && s.ends > 0
    ensures Run(s, seq(n, _ => Duplicate)) == s.(ends := s.ends + n)
  {
    if n > 0 {
      DuplicateMany(s, n - 1);
      assert seq(n, _ => Duplicate)[..n - 1] == seq(n - 1, _ => Duplicate);
    }
  }

  /** No reader waits for ever: when every write has returned and every write end is closed,
      the next turn of a read returns. */
  lemma ReaderReleased(s: PipeState, r: nat)
    requires Wf(s) && r < |s.calls| && s.calls[r].ReadCall? && !s.calls[r].returned
    requires forall i :: 0 <= i < |s.calls| && s.calls[i].WriteCall? ==> s.calls[i].returned
    ensures var t := Run(s, seq(s.ends, _ => Close));
            t.queue == s.queue && t.calls == s.calls && Step(t, Resume(r)).calls[r].returned
  {
    hide Step, Run;
    CloseMany(s, s.ends);
    var t := Run(s, seq(s.ends, _ => Close));
    BlocksIff(t, r);
  }

  /** And a reader does wait while a write end is open, however often it was duplicated
      and closed again. */
  lemma ReaderWaits(s: PipeState, r: nat, n: nat, k: nat)
    requires Wf(s) && r < |s.calls| && s.calls[r].ReadCall? && !s.calls[r].returned
    requires s.queue == [] && s.ends > 0 && k < s.ends + n
    ensures var t := Run(Run(s, seq(n, _ => Duplicate)), seq(k, _ => Close));
            t.ends == s.ends + n - k && t.calls == s.calls && !Step(t, Resume(r)).calls[r].returned
  {
    hide Step, Run;
    DuplicateMany(s, n);
    CloseMany(Run(s, seq(n, _ => Duplicate)), k);
    var t := Run(Run(s, seq(n, _ => Duplicate)), seq(k, _ => Close));
    BlocksIff(t, r);
  }

  /** When a resumed read stays suspended, and when it does not: also a read of no bytes
      waits for data or for the last write end to go. */
  lemma BlocksIff(s: PipeState, id: nat)
    requires Wf(s) && id < |s.calls| && s.calls[id].ReadCall? && !s.calls[id].returned
    ensures Step(s, Resume(id)).calls[id].returned <==>
            || (WriteEndsGone(s) && |s.queue| <= s.calls[id].want - |s.calls[id].got|)
            || (s.queue != [] && |s.queue| >= s.calls[id].want - |s.calls[id].got|)
  {
  }

  /** Every run on the real ring: what the calls return and what the ring holds are what
      the queue of bytes gives. */
  method RunPipe(es: seq<Event>) returns (ring: PipeRingBuffer, ends: nat, calls: seq<Call>)
    ensures ring.Valid() && ring.Contents() == Run(MakePipe(), es).queue
    ensures ends == Run(MakePipe(), es).ends && calls == Run(MakePipe(), es).calls
  {
    hide Step, PipeRingBuffer.Valid, PipeRingBuffer.Contents;
    ring := new PipeRingBuffer();
    ends, calls := 1, [];
    ghost var s := MakePipe();
    for i := 0 to |es|
      invariant ring.Valid() && fresh(ring) && fresh(ring.arr) && Wf(s)
      invariant s == Run(MakePipe(), es[..i]) && ring.Contents() == s.queue
      invariant ends == s.ends && calls == s.calls
    {
      assert es[..i + 1][..i] == es[..i];
      ends, calls := RunEvent(ring, ends, calls, s, es[i]);
      s := Step(s, es[i]);
    }
    assert es[..|es|] == es;
  }

  method RunEvent(ring: PipeRingBuffer, ends: nat, calls: seq<Call>, ghost s: PipeState, e: Event)
      returns (ends': nat, calls': seq<Call>)
    requires Wf(s) && ends == s.ends && calls == s.calls && ring.Valid() && ring.Contents() == s.queue
    modifies ring, ring.arr
    ensures ring.Valid() && ring.Contents() == Step(s, e).queue
    ensures ends' == Step(s, e).ends && calls' == Step(s, e).calls
  {
    hide PipeRingBuffer.Valid, PipeRingBuffer.Contents, ReadTurn, WriteTurn, Tag;
    ends', calls' := ends, calls;
    match e
    case Duplicate =>
      if ends > 0 { ends' := ends + 1; }
    case Close =>
      if ends > 0 { ends' := ends - 1; }
    case StartRead(want) =>
      calls' := calls + [ReadCall(want, [], false)];
    case StartWrite(buf) =>
      if ends > 0 { calls' := calls + [WriteCall(buf, 0, false)]; }
    case Resume(id) =>
      if id < |calls| && !calls[id].returned {
        var c := calls[id];
        if c.ReadCall? {
          var got, returned := ring.Read(NoWriter(ends, calls), c.want, c.got);
          calls' := calls[id := ReadCall(c.want, got, returned)];
        } else {
          var sent, returned := ring.Write(c.buf, c.sent);
          calls' := calls[id := WriteCall(c.buf, sent, returned)];
        }
      }
  }
}
