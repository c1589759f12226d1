/**
 * One sender and one receiver of log messages on a pipe.
 *
 * The sender writes each message as a four-byte length followed by its byte form, the
 * receiver reads four bytes and then as many bytes as they say.  Neither looks at how
 * many bytes a read delivered.  A schedule interleaves their turns on the pipe and may
 * end the sender between any two of its writes and close its write end.
 */
module LogTransport {
  import opened Basics
  import opened LittleEndian
  import opened PipeRing
  import opened PipeRuns
  import opened LogMessages

  const PREFIX_LEN := 4

  datatype Phase = LengthPhase | BodyPhase(len: nat)

  datatype LogState = LogState(
    pipe: PipeState,
    issued: nat,               // writes the sender has started
    writing: nat,              // its latest write call
    phase: Phase,
    reading: nat,              // the receiver's current read call
    received: seq<LogMessage>,
    failures: nat)             // calls of `receive` that ended in an error

  /** A turn of the sender, a turn of the receiver, or the end of the sender's descriptors,
      which a process keeps until its parent collects it. */
  datatype Turn = Send | Receive | Collected

  /** All messages were built by `new`. */
  predicate Sendable(msgs: seq<LogMessage>) {
    forall i :: 0 <= i < |msgs| ==> |msgs[i].mod| <= MAX_MODULE_LEN && |msgs[i].message| <= MAX_MESSAGE_LEN
  }

  /** The k-th buffer the sender writes. */
  function Chunk(msgs: seq<LogMessage>, k: nat): (s: seq<Byte>)
    requires k < 2 * |msgs|
    ensures |s| >= PREFIX_LEN
  {
    if k % 2 == 0 then Encode(|Serialized(msgs[k / 2])|, PREFIX_LEN) else Serialized(msgs[k / 2])
  }

  /** What goes over the pipe for message `j`: the length of its byte form in four bytes, the
      lowest first, then the byte form. */
  lemma ChunkAt(msgs: seq<LogMessage>, j: nat, i: nat)
    requires j < |msgs| && i < 4
    ensures |Chunk(msgs, 2 * j)| == 4
    ensures Chunk(msgs, 2 * j)[i] == (13 + |msgs[j].mod| + |msgs[j].message|) / Pow256(i) % 256
    ensures Chunk(msgs, 2 * j + 1) == Serialized(msgs[j])
  {
    hide Encode, Pow256;
    assert 2 * j % 2 == 0 && 2 * j / 2 == j && (2 * j + 1) % 2 == 1 && (2 * j + 1) / 2 == j;
    EncodeAt(|Serialized(msgs[j])|, PREFIX_LEN, i);
  }

  function Start(): (st: LogState)
    ensures Wf(st.pipe)
  {
    LogState(Step(MakePipe(), StartRead(PREFIX_LEN)), 0, 0, LengthPhase, 0, [], 0)
  }

  predicate Idle(st: LogState) {
    st.issued == 0 || (st.writing < |st.pipe.calls| && st.pipe.calls[st.writing].returned)
  }

  /** `send`, one turn. */
  function SendTurn(st: LogState, msgs: seq<LogMessage>): LogState
    requires Wf(st.pipe)
  {
    if !Idle(st) then st.(pipe := Step(st.pipe, Resume(st.writing)))
    else if st.pipe.ends == 0 || st.issued == 2 * |msgs| || st.issued > 2 * |msgs| then st
    else st.(pipe := Step(st.pipe, StartWrite(Chunk(msgs, st.issued))),
             issued := st.issued + 1, writing := |st.pipe.calls|)
  }

  /** The receiver's buffer starts out as zeros and is filled from the front. */
  function Padded(got: seq<Byte>, n: nat): (s: seq<Byte>)
    requires |got| <= n
    ensures |s| == n
  {
    got + seq<Byte>(n - |got|, _ => 0)
  }

  function NextRead(st: LogState, phase: Phase, want: nat): LogState
    requires Wf(st.pipe)
  {
    st.(pipe := Step(st.pipe, StartRead(want)), phase := phase, reading := |st.pipe.calls|)
  }

  /** `receive`, one turn. */
  function ReceiveTurn(st: LogState): LogState
    requires Wf(st.pipe)
  {
    if st.reading >= |st.pipe.calls| || st.pipe.calls[st.reading].WriteCall? then st
    else if !st.pipe.calls[st.reading].returned then st.(pipe := Step(st.pipe, Resume(st.reading)))
    else
      var c := st.pipe.calls[st.reading];
      match st.phase
      case LengthPhase =>
        var len := Decode(Padded(c.got, c.want));
        NextRead(st, BodyPhase(len), len)
      case BodyPhase(_) =>
        match Deserialized(Padded(c.got, c.want))
        case Some(m) => NextRead(st, LengthPhase, PREFIX_LEN).(received := st.received + [m])
        case None => NextRead(st, LengthPhase, PREFIX_LEN).(failures := st.failures + 1)
  }

  function Play(st: LogState, msgs: seq<LogMessage>, t: Turn): (r: LogState)
    requires Wf(st.pipe)
    ensures Wf(r.pipe)
  {
    match t
    case Send => SendTurn(st, msgs)
    case Receive => ReceiveTurn(st)
    case Collected => if Idle(st) then st.(pipe := Step(st.pipe, Close)) else st
  }

  function PlayAll(msgs: seq<LogMessage>, ts: seq<Turn>): (r: LogState)
    ensures Wf(r.pipe)
  {
    if ts == [] then Start() else Play(PlayAll(msgs, ts[..|ts| - 1]), msgs, ts[|ts| - 1])
  }

  // ---- The stream ----

  ghost function Stream(msgs: seq<LogMessage>, n: nat): seq<Byte>
    requires n <= 2 * |msgs|
  {
    if n == 0 then [] else Stream(msgs, n - 1) + Chunk(msgs, n - 1)
  }

  lemma StreamNext(msgs: seq<LogMessage>, k: nat)
    requires k < 2 * |msgs|
    ensures Stream(msgs, k + 1) == Stream(msgs, k) + Chunk(msgs, k)
  {
  }

  lemma {:induction false} StreamPrefix(msgs: seq<LogMessage>, k: nat, n: nat)
    requires k <= n <= 2 * |msgs|
    ensures Stream(msgs, k) <= Stream(msgs, n)
    decreases n
  {
    hide Chunk;
    if k < n {
      StreamPrefix(msgs, k, n - 1);
      PrefixTransitive(Stream(msgs, k), Stream(msgs, n - 1), Chunk(msgs, n - 1));
    }
  }

  lemma PrefixTransitive(a: seq<Byte>, b: seq<Byte>, c: seq<Byte>)
    requires a <= b
    ensures a <= b + c
  {
  }

  lemma StreamGrows(msgs: seq<LogMessage>, k: nat, n: nat)
    requires k < n <= 2 * |msgs|
    ensures |Stream(msgs, k)| < |Stream(msgs, n)|
  {
    hide Chunk, Stream;
    StreamNext(msgs, k);
    StreamPrefix(msgs, k + 1, n);
  }

  /** A piece of the stream that starts at a chunk and has its length is that chunk. */
  lemma WholeChunk(msgs: seq<LogMessage>, k: nat, got: seq<Byte>, n: nat)
    requires k <= 2 * |msgs| && n <= 2 * |msgs| && got != [] && Stream(msgs, k) + got <= Stream(msgs, n)
    ensures k < n && (|got| == |Chunk(msgs, k)| ==> got == Chunk(msgs, k))
    ensures |Chunk(msgs, k)| <= |Stream(msgs, n)| - |Stream(msgs, k)|
  {
    hide Chunk, Stream;
    assert |Stream(msgs, k)| < |Stream(msgs, n)|;
    if n < k { StreamGrows(msgs, n, k); }
    StreamPrefix(msgs, k + 1, n);
    StreamNext(msgs, k);
    SamePiece(Stream(msgs, k), got, Chunk(msgs, k), Stream(msgs, n));
  }

  lemma SamePiece(a: seq<Byte>, b: seq<Byte>, c: seq<Byte>, s: seq<Byte>)
    requires a + b <= s && a + c <= s
    ensures |b| == |c| ==> b == c
  {
    assert b == (a + b)[|a|..] == s[..|a| + |b|][|a|..];
    assert c == (a + c)[|a|..] == s[..|a| + |c|][|a|..];
  }

  // ---- The invariant ----

  /** The sender starts a write when the one before has returned. */
  ghost predicate OneWrite(st: LogState) {
    forall i :: 0 <= i < |st.pipe.calls| && st.pipe.calls[i].WriteCall? && !st.pipe.calls[i].returned ==>
      st.issued > 0 && i == st.writing
  }

  ghost predicate SenderInv(st: LogState, msgs: seq<LogMessage>) {
    && st.issued <= 2 * |msgs| && st.pipe.ends <= 1 && OneWrite(st)
    && (st.issued == 0 ==> Bytes(st.pipe.written) == [])
    && (st.issued > 0 ==>
         && st.writing < |st.pipe.calls| && st.pipe.calls[st.writing].WriteCall?
         && st.pipe.calls[st.writing].buf == Chunk(msgs, st.issued - 1)
         && st.pipe.calls[st.writing].sent <= |st.pipe.calls[st.writing].buf|
         && Bytes(st.pipe.written)
            == Stream(msgs, st.issued - 1) + st.pipe.calls[st.writing].buf[..st.pipe.calls[st.writing].sent])
  }

  /** The receiver is in step with the stream. */
  ghost predicate InStep(st: LogState, msgs: seq<LogMessage>)
    requires st.reading < |st.pipe.calls| && st.pipe.calls[st.reading].ReadCall?
    requires |st.received| <= |msgs|
  {
    var j, c := |st.received|, st.pipe.calls[st.reading];
    && st.failures == 0
    && match st.phase
       case LengthPhase => c.want == PREFIX_LEN && Bytes(st.pipe.consumed) == Stream(msgs, 2 * j) + c.got
       case BodyPhase(_) =>
         && j < |msgs| && c.want == |Chunk(msgs, 2 * j + 1)|
         && Bytes(st.pipe.consumed) == Stream(msgs, 2 * j + 1) + c.got
  }

  /** The sender is gone, the pipe is drained, and every message that was sent whole was
      received. */
  ghost predicate AtEnd(st: LogState)
    requires st.reading < |st.pipe.calls| && st.pipe.calls[st.reading].ReadCall?
  {
    && st.pipe.queue == [] && WriteEndsGone(st.pipe)
    && st.pipe.calls[st.reading].got == [] && (st.phase.BodyPhase? ==> st.pipe.calls[st.reading].want == 0)
    && |st.received| == st.issued / 2
  }

  ghost predicate LogInv(st: LogState, msgs: seq<LogMessage>) {
    && Wf(st.pipe) && Inv(st.pipe) && SenderInv(st, msgs)
    && st.reading < |st.pipe.calls| && st.pipe.calls[st.reading].ReadCall?
    && st.received <= msgs
    && (InStep(st, msgs) || AtEnd(st))
  }

  // ---- What a turn on the pipe does, seen from the two ends ----

  lemma ReadResumed(s: PipeState, id: nat) returns (moved: seq<Byte>)
    requires Inv(s) && id < |s.calls| && s.calls[id].ReadCall? && !s.calls[id].returned
    ensures var r, c := Step(s, Resume(id)), s.calls[id];
            && Inv(r) && r.ends == s.ends && r.written == s.written && |r.calls| == |s.calls|
            && (forall i :: 0 <= i < |s.calls| && i != id ==> r.calls[i] == s.calls[i])
            && r.calls[id].ReadCall? && r.calls[id].want == c.want && r.calls[id].got == c.got + moved
            && Bytes(r.consumed) == Bytes(s.consumed) + moved
            && (s.queue == [] ==> moved == [] && r.queue == [])
            && WriteEndsGone(r) == WriteEndsGone(s)
  {
    hide Of, Bytes, Tag;
    StepKeepsInv(s, Resume(id));
    var c := s.calls[id];
    var o := ReadTurn(s.queue, WriteEndsGone(s), c.want, c.got);
    moved := o.got[|c.got|..];
    Split(c.got, s.queue, o.got, o.queue);
    BytesTagged(s.consumed, id, moved);
    SameGone(s, Step(s, Resume(id)), id);
  }

  lemma WriteResumed(s: PipeState, id: nat)
    requires Inv(s) && id < |s.calls| && s.calls[id].WriteCall? && !s.calls[id].returned
    ensures var r, c := Step(s, Resume(id)), s.calls[id];
            && Inv(r) && r.ends == s.ends && r.consumed == s.consumed && |r.calls| == |s.calls|
            && (forall i :: 0 <= i < |s.calls| && i != id ==> r.calls[i] == s.calls[i])
            && r.calls[id].WriteCall? && r.calls[id].buf == c.buf && c.sent <= r.calls[id].sent <= |c.buf|
            && Bytes(r.written) == Bytes(s.written) + c.buf[c.sent..r.calls[id].sent]
  {
    hide Of, Bytes, Tag;
    StepKeepsInv(s, Resume(id));
    var c := s.calls[id];
    var o := WriteTurn(s.queue, c.buf, c.sent);
    BytesTagged(s.written, id, c.buf[c.sent..o.sent]);
  }

  // ---- Every turn keeps the invariant ----

  lemma SendKeeps(st: LogState, msgs: seq<LogMessage>)
    requires LogInv(st, msgs)
    ensures LogInv(SendTurn(st, msgs), msgs)
  {
    if !Idle(st) {
      SendResumes(st, msgs);
    } else if st.pipe.ends > 0 && st.issued < 2 * |msgs| {
      SendStarts(st, msgs);
    }
  }

  lemma SendResumes(st: LogState, msgs: seq<LogMessage>)
    requires LogInv(st, msgs) && !Idle(st)
    ensures LogInv(SendTurn(st, msgs), msgs)
  {
    hide Inv, Step, Bytes, Stream, Chunk, CallInv;
    var c := st.pipe.calls[st.writing];
    WriteResumed(st.pipe, st.writing);
    var r := Step(st.pipe, Resume(st.writing));
    var n := r.calls[st.writing].sent;
    AppendPiece(Stream(msgs, st.issued - 1), c.buf, c.sent, n);
    assert !WriteEndsGone(st.pipe);
  }

  lemma AppendPiece(w: seq<Byte>, buf: seq<Byte>, i: nat, j: nat)
    requires i <= j <= |buf|
    ensures w + buf[..i] + buf[i..j] == w + buf[..j]
  {
  }

  lemma SendStarts(st: LogState, msgs: seq<LogMessage>)
    requires LogInv(st, msgs) && Idle(st) && st.pipe.ends > 0 && st.issued < 2 * |msgs|
    ensures LogInv(SendTurn(st, msgs), msgs)
  {
    hide Inv, Bytes, Chunk, CallInv;
    var e := StartWrite(Chunk(msgs, st.issued));
    StepKeepsInv(st.pipe, e);
    Written(st, msgs);
    assert Stream(msgs, st.issued) + Chunk(msgs, st.issued)[..0] == Stream(msgs, st.issued);
  }

  /** Between two writes everything issued is in the stream. */
  lemma Written(st: LogState, msgs: seq<LogMessage>)
    requires Inv(st.pipe) && SenderInv(st, msgs) && Idle(st)
    ensures Bytes(st.pipe.written) == Stream(msgs, st.issued)
  {
    hide Bytes, Stream, Chunk, Of;
    if st.issued > 0 {
      assert CallInv(st.pipe, st.writing);
      var c := st.pipe.calls[st.writing];
      assert c.buf[..c.sent] == c.buf;
      StreamNext(msgs, st.issued - 1);
    } else {
      assert Stream(msgs, 0) == [] by { StreamStart(msgs); }
    }
  }

  lemma StreamStart(msgs: seq<LogMessage>)
    ensures Stream(msgs, 0) == []
  {
  }

  lemma CollectedKeeps(st: LogState, msgs: seq<LogMessage>)
    requires LogInv(st, msgs)
    ensures LogInv(Play(st, msgs, Collected), msgs)
  {
    hide Inv, Bytes, Chunk, Stream, CallInv;
    StepKeepsInv(st.pipe, Close);
  }

  lemma ReceiveResumes(st: LogState, msgs: seq<LogMessage>)
    requires LogInv(st, msgs) && !st.pipe.calls[st.reading].returned
    ensures LogInv(ReceiveTurn(st), msgs)
  {
    hide Inv, Step, Bytes, Stream, Chunk, CallInv, WriteEndsGone;
    var c := st.pipe.calls[st.reading];
    var moved := ReadResumed(st.pipe, st.reading);
    if InStep(st, msgs) {
      var k := if st.phase.LengthPhase? then 2 * |st.received| else 2 * |st.received| + 1;
      assert Stream(msgs, k) + c.got + moved == Stream(msgs, k) + (c.got + moved);
      assert InStep(ReceiveTurn(st), msgs);
    } else {
      assert AtEnd(ReceiveTurn(st));
    }
  }

  /** What the receiver has consumed is a prefix of what the sender issues. */
  lemma ConsumedPrefix(st: LogState, msgs: seq<LogMessage>)
    requires Inv(st.pipe) && SenderInv(st, msgs)
    ensures Bytes(st.pipe.consumed) <= Stream(msgs, st.issued)
  {
    hide Bytes, Stream, Chunk, Of, CallInv;
    assert Bytes(st.pipe.consumed) <= Bytes(st.pipe.written);
    if st.issued > 0 {
      var c := st.pipe.calls[st.writing];
      StreamNext(msgs, st.issued - 1);
      AppendPiece(Stream(msgs, st.issued - 1), c.buf, c.sent, |c.buf|);
      assert c.buf[..|c.buf|] == c.buf;
      assert Stream(msgs, st.issued) == Bytes(st.pipe.written) + c.buf[c.sent..];
    }
  }

  /** A read that came back short met the end of the stream at the end of a chunk. */
  lemma ShortRead(st: LogState, msgs: seq<LogMessage>, k: nat)
    requires LogInv(st, msgs) && k <= 2 * |msgs|
    requires var c := st.pipe.calls[st.reading];
             && c.returned && |c.got| < c.want
             && Bytes(st.pipe.consumed) == Stream(msgs, k) + c.got
             && (k < 2 * |msgs| ==> |c.got| < |Chunk(msgs, k)|)
    ensures st.pipe.calls[st.reading].got == [] && st.issued == k
    ensures st.pipe.queue == [] && WriteEndsGone(st.pipe)
  {
    hide Bytes, Stream, Chunk, Of;
    var c := st.pipe.calls[st.reading];
    assert CallInv(st.pipe, st.reading);
    assert Bytes(st.pipe.consumed) + [] == Bytes(st.pipe.consumed);
    Written(st, msgs);
    assert Bytes(st.pipe.consumed) == Stream(msgs, st.issued);
    if c.got != [] {
      WholeChunk(msgs, k, c.got, st.issued);
    }
    if k < st.issued { StreamGrows(msgs, k, st.issued); }
    if st.issued < k { StreamGrows(msgs, st.issued, k); }
  }

  /** A read that was served in full has the next chunk. */
  lemma FullRead(st: LogState, msgs: seq<LogMessage>, k: nat)
    requires LogInv(st, msgs) && k <= 2 * |msgs|
    requires var c := st.pipe.calls[st.reading];
             && Bytes(st.pipe.consumed) == Stream(msgs, k) + c.got && c.got != []
             && (k < 2 * |msgs| ==> |c.got| == |Chunk(msgs, k)|)
    ensures k < 2 * |msgs| && st.pipe.calls[st.reading].got == Chunk(msgs, k)
    ensures Bytes(st.pipe.consumed) == Stream(msgs, k + 1) + []
  {
    hide Inv, Bytes, Stream, Chunk;
    ConsumedPrefix(st, msgs);
    WholeChunk(msgs, k, st.pipe.calls[st.reading].got, st.issued);
    StreamNext(msgs, k);
  }

  lemma PaddedFull(got: seq<Byte>)
    ensures Padded(got, |got|) == got
  {
  }

  lemma PaddedNone(n: nat)
    ensures Decode(Padded([], n)) == 0 && Deserialized(Padded([], n)).None?
  {
    DecodeZeros(Padded([], n));
    ZerosDoNotParse(n);
    assert Padded([], n) == seq<Byte>(n, _ => 0);
  }

  lemma PrefixDecodes(msgs: seq<LogMessage>, j: nat)
    requires Sendable(msgs) && j < |msgs|
    ensures |Chunk(msgs, 2 * j)| == PREFIX_LEN && Decode(Chunk(msgs, 2 * j)) == |Chunk(msgs, 2 * j + 1)|
    ensures Deserialized(Chunk(msgs, 2 * j + 1)) == Some(msgs[j])
  {
    hide Encode, Decode, Deserialized, Serialized;
    assert 2 * j % 2 == 0 && 2 * j / 2 == j && (2 * j + 1) % 2 == 1 && (2 * j + 1) / 2 == j;
    assert Sendable(msgs);
    assert |Serialized(msgs[j])| < Pow256(PREFIX_LEN) by { Pow256Values(); }
    DecodeEncode(|Serialized(msgs[j])|, PREFIX_LEN);
    RoundTrip(msgs[j]);
  }

  /** Starting the next read keeps the pipe's part of the invariant. */
  lemma NextReadKeeps(st: LogState, msgs: seq<LogMessage>, phase: Phase, want: nat)
    requires LogInv(st, msgs)
    ensures var r := NextRead(st, phase, want);
            && Wf(r.pipe) && Inv(r.pipe) && SenderInv(r, msgs)
            && r.reading < |r.pipe.calls| && r.pipe.calls[r.reading] == ReadCall(want, [], false)
            && r.pipe.consumed == st.pipe.consumed && r.pipe.queue == st.pipe.queue
            && (WriteEndsGone(st.pipe) ==> WriteEndsGone(r.pipe))
  {
    hide Inv, Bytes, Stream, Chunk;
    StepKeepsInv(st.pipe, StartRead(want));
    if WriteEndsGone(st.pipe) { EndStep(st.pipe, StartRead(want)); }
  }

  lemma LengthArrives(st: LogState, msgs: seq<LogMessage>)
    requires Sendable(msgs) && LogInv(st, msgs) && InStep(st, msgs)
    requires st.phase.LengthPhase? && st.pipe.calls[st.reading].returned
    ensures LogInv(ReceiveTurn(st), msgs)
  {
    hide Inv, Step, Bytes, Stream, Chunk, CallInv, WriteEndsGone, Decode, Padded, SenderInv;
    var c, j := st.pipe.calls[st.reading], |st.received|;
    var len := Decode(Padded(c.got, c.want));
    NextReadKeeps(st, msgs, BodyPhase(len), len);
    if j < |msgs| { PrefixDecodes(msgs, j); }
    if |c.got| == c.want {
      FullRead(st, msgs, 2 * j);
      PaddedFull(c.got);
      assert InStep(ReceiveTurn(st), msgs);
    } else {
      ShortRead(st, msgs, 2 * j);
      PaddedNone(c.want);
      assert AtEnd(ReceiveTurn(st));
    }
  }

  lemma BodyArrives(st: LogState, msgs: seq<LogMessage>)
    requires Sendable(msgs) && LogInv(st, msgs) && InStep(st, msgs)
    requires st.phase.BodyPhase? && st.pipe.calls[st.reading].returned
    ensures LogInv(ReceiveTurn(st), msgs)
  {
    hide Inv, Step, Bytes, Stream, Chunk, CallInv, WriteEndsGone, Deserialized, Padded;
    var c, j := st.pipe.calls[st.reading], |st.received|;
    NextReadKeeps(st, msgs, LengthPhase, PREFIX_LEN);
    PrefixDecodes(msgs, j);
    if |c.got| == c.want {
      FullRead(st, msgs, 2 * j + 1);
      PaddedFull(c.got);
      assert InStep(ReceiveTurn(st), msgs);
    } else {
      ShortRead(st, msgs, 2 * j + 1);
      PaddedNone(c.want);
      assert AtEnd(ReceiveTurn(st));
    }
  }

  lemma EndRepeats(st: LogState, msgs: seq<LogMessage>)
    requires LogInv(st, msgs) && AtEnd(st) && st.pipe.calls[st.reading].returned
    ensures LogInv(ReceiveTurn(st), msgs)
  {
    hide Inv, Step, Bytes, Stream, Chunk, CallInv, WriteEndsGone, Decode, Deserialized, Padded;
    PaddedNone(st.pipe.calls[st.reading].want);
    NextReadKeeps(st, msgs, LengthPhase, PREFIX_LEN);
    NextReadKeeps(st, msgs, BodyPhase(0), 0);
    assert AtEnd(ReceiveTurn(st));
  }

  lemma PlayKeeps(st: LogState, msgs: seq<LogMessage>, t: Turn)
    requires Sendable(msgs) && LogInv(st, msgs)
    ensures LogInv(Play(st, msgs, t), msgs)
  {
    hide LogInv, SendTurn, ReceiveTurn;
    match t
    case Send => SendKeeps(st, msgs);
    case Collected => CollectedKeeps(st, msgs);
    case Receive =>
      assert st.reading < |st.pipe.calls| && st.pipe.calls[st.reading].ReadCall? && |st.received| <= |msgs|
             && (InStep(st, msgs) || AtEnd(st)) by { Reader(st, msgs); }
      if !st.pipe.calls[st.reading].returned {
        ReceiveResumes(st, msgs);
      } else if AtEnd(st) {
        EndRepeats(st, msgs);
      } else if st.phase.LengthPhase? {
        LengthArrives(st, msgs);
      } else {
        BodyArrives(st, msgs);
      }
  }

  lemma Reader(st: LogState, msgs: seq<LogMessage>)
    requires LogInv(st, msgs)
    ensures st.reading < |st.pipe.calls| && st.pipe.calls[st.reading].ReadCall? && |st.received| <= |msgs|
    ensures InStep(st, msgs) || AtEnd(st)
  {
  }

  lemma {:induction false} PlayAllKeeps(msgs: seq<LogMessage>, ts: seq<Turn>)
    requires Sendable(msgs)
    ensures LogInv(PlayAll(msgs, ts), msgs)
    decreases |ts|
  {
    hide LogInv, Play;
    if ts == [] {
      StartInv(msgs);
    } else {
      PlayAllKeeps(msgs, ts[..|ts| - 1]);
      PlayKeeps(PlayAll(msgs, ts[..|ts| - 1]), msgs, ts[|ts| - 1]);
    }
  }

  lemma StartInv(msgs: seq<LogMessage>)
    ensures LogInv(Start(), msgs)
  {
    StepKeepsInv(MakePipe(), StartRead(PREFIX_LEN));
    assert Stream(msgs, 0) + [] == [];
  }

  /** Under every schedule the messages received are a prefix of the messages sent; and
      `receive` fails only when the sender is gone and every message it sent whole has
      been received. */
  lemma InOrder(msgs: seq<LogMessage>, ts: seq<Turn>)
    requires Sendable(msgs)
    ensures var st := PlayAll(msgs, ts);
            && st.received <= msgs
            && 2 * |st.received| <= st.issued <= 2 * |msgs|
            && (st.failures > 0 ==> WriteEndsGone(st.pipe) && st.received == msgs[..st.issued / 2])
  {
    hide LogInv, PlayAll, WriteEndsGone;
    PlayAllKeeps(msgs, ts);
    InOrderState(PlayAll(msgs, ts), msgs);
  }

  lemma InOrderState(st: LogState, msgs: seq<LogMessage>)
    requires LogInv(st, msgs)
    ensures st.received <= msgs && 2 * |st.received| <= st.issued <= 2 * |msgs|
    ensures st.failures > 0 ==> WriteEndsGone(st.pipe) && st.received == msgs[..st.issued / 2]
  {
    hide Inv, Bytes, Stream, Chunk, WriteEndsGone;
    if InStep(st, msgs) {
      var k := if st.phase.LengthPhase? then 2 * |st.received| else 2 * |st.received| + 1;
      ConsumedPrefix(st, msgs);
      if st.issued < k { StreamGrows(msgs, st.issued, k); }
    }
  }

  // ---- Progress ----

  /** All written, all read, nothing under way: all received. */
  lemma AllReceived(msgs: seq<LogMessage>, ts: seq<Turn>)
    requires Sendable(msgs)
    requires var st := PlayAll(msgs, ts);
             && st.issued == 2 * |msgs| && Idle(st) && st.pipe.queue == [] && st.phase.LengthPhase?
             && st.reading < |st.pipe.calls| && st.pipe.calls[st.reading].ReadCall?
             && st.pipe.calls[st.reading].got == []
    ensures PlayAll(msgs, ts).received == msgs
  {
    hide LogInv, PlayAll;
    PlayAllKeeps(msgs, ts);
    NothingMissing(PlayAll(msgs, ts), msgs);
  }

  /** With everything sent and consumed, a receiver that waits for more has received all. */
  lemma NothingMissing(st: LogState, msgs: seq<LogMessage>)
    requires Sendable(msgs) && LogInv(st, msgs) && st.issued == 2 * |msgs| && Idle(st) && st.pipe.queue == []
    requires InStep(st, msgs) ==> !st.pipe.calls[st.reading].returned || st.pipe.calls[st.reading].got == []
    requires InStep(st, msgs) && st.pipe.calls[st.reading].returned ==> st.phase.LengthPhase?
    ensures st.received == msgs
  {
    hide Bytes, Stream, Chunk, Of, CallInv, WriteEndsGone;
    if InStep(st, msgs) {
      var c, j := st.pipe.calls[st.reading], |st.received|;
      var k := if st.phase.LengthPhase? then 2 * j else 2 * j + 1;
      Written(st, msgs);
      assert Bytes(st.pipe.consumed) + [] == Bytes(st.pipe.consumed);
      assert Stream(msgs, k) + c.got == Stream(msgs, 2 * |msgs|);
      if j < |msgs| { PrefixDecodes(msgs, j); }
      assert k < 2 * |msgs| ==> |c.got| < |Chunk(msgs, k)|;
      if k < 2 * |msgs| { ChunkAhead(msgs, k, 2 * |msgs|); }
    }
  }

  lemma ChunkAhead(msgs: seq<LogMessage>, k: nat, n: nat)
    requires k < n <= 2 * |msgs|
    ensures |Stream(msgs, k)| + |Chunk(msgs, k)| <= |Stream(msgs, n)|
  {
    hide Chunk, Stream;
    StreamNext(msgs, k);
    StreamPrefix(msgs, k + 1, n);
  }

  /** What is still to be done: writes to start, bytes to write and to read, reads to end. */
  ghost function Left(st: LogState, msgs: seq<LogMessage>): int {
    var total := |Stream(msgs, 2 * |msgs|)|;
    (2 * |msgs| - st.issued) + (total - |st.pipe.written|) + (total - |st.pipe.consumed|)
    + 2 * (2 * (|msgs| - |st.received|) - (if st.phase.BodyPhase? then 1 else 0))
    + (if st.reading < |st.pipe.calls| && st.pipe.calls[st.reading].returned then 0 else 1)
  }

  lemma LeftNonneg(st: LogState, msgs: seq<LogMessage>)
    requires LogInv(st, msgs) && st.pipe.ends > 0
    ensures Left(st, msgs) >= 0
  {
    hide Bytes, Stream, Chunk, Of, CallInv, Inv;
    ConsumedPrefix(st, msgs);
    StreamPrefix(msgs, st.issued, 2 * |msgs|);
    WrittenPrefix(st, msgs);
    OpenInStep(st, msgs);
    assert |Bytes(st.pipe.consumed)| == |st.pipe.consumed| && |Bytes(st.pipe.written)| == |st.pipe.written|;
  }

  lemma WrittenPrefix(st: LogState, msgs: seq<LogMessage>)
    requires SenderInv(st, msgs)
    ensures |st.pipe.written| <= |Stream(msgs, st.issued)|
  {
    hide Bytes, Stream, Chunk;
    assert |Bytes(st.pipe.written)| == |st.pipe.written|;
    if st.issued > 0 {
      StreamNext(msgs, st.issued - 1);
    }
  }

  lemma OpenInStep(st: LogState, msgs: seq<LogMessage>)
    requires LogInv(st, msgs) && st.pipe.ends > 0
    ensures InStep(st, msgs)
  {
    hide Inv, Bytes, Stream, Chunk, SenderInv, InStep;
  }

  /** A turn of the sender does something unless the ring is full or all has been sent. */
  lemma SendProgress(st: LogState, msgs: seq<LogMessage>)
    requires LogInv(st, msgs) && st.pipe.ends > 0
    ensures var r := SendTurn(st, msgs);
            && r.pipe.ends == st.pipe.ends && r.received == st.received
            && (if (!Idle(st) && |st.pipe.queue| == RING_SIZE) || (Idle(st) && st.issued == 2 * |msgs|) then r == st
                else Left(r, msgs) < Left(st, msgs))
  {
    if !Idle(st) {
      SendMoves(st, msgs);
    } else if st.issued < 2 * |msgs| {
      SendOpens(st, msgs);
    }
  }

  lemma SendOpens(st: LogState, msgs: seq<LogMessage>)
    requires LogInv(st, msgs) && st.pipe.ends > 0 && Idle(st) && st.issued < 2 * |msgs|
    ensures var r := SendTurn(st, msgs);
            r.pipe.ends == st.pipe.ends && r.received == st.received && Left(r, msgs) < Left(st, msgs)
  {
    hide Inv, Bytes, Stream, Chunk, SenderInv, InStep, AtEnd;
  }

  lemma SendMoves(st: LogState, msgs: seq<LogMessage>)
    requires LogInv(st, msgs) && !Idle(st)
    ensures var r := SendTurn(st, msgs);
            && r.pipe.ends == st.pipe.ends && r.received == st.received
            && (if |st.pipe.queue| == RING_SIZE then r == st else Left(r, msgs) < Left(st, msgs))
  {
    hide Bytes, Stream, Chunk, Of, CallInv, Tag, InStep, AtEnd;
    var s, id := st.pipe, st.writing;
    var c := s.calls[id];
    assert CallWf(c);
    var o := WriteTurn(s.queue, c.buf, c.sent);
    assert Step(s, Resume(id)) == WriteStep(s, id);
    assert |WriteStep(s, id).written| == |s.written| + (o.sent - c.sent);
    if |s.queue| == RING_SIZE {
      assert o.sent == c.sent;
      NothingTagged(s.written, id);
      assert c.buf[c.sent..c.sent] == [];
      assert s.calls[id := c] == s.calls && s.queue + [] == s.queue;
    } else {
      assert o.sent > c.sent;
    }
  }

  lemma NothingTagged(ms: seq<Mark>, id: nat)
    ensures ms + Tag(id, []) == ms
  {
  }

  /** A turn of the receiver does something unless it waits at an empty ring. */
  lemma ReceiveProgress(st: LogState, msgs: seq<LogMessage>)
    requires Sendable(msgs) && LogInv(st, msgs) && st.pipe.ends > 0
    ensures var r := ReceiveTurn(st);
            && r.pipe.ends == st.pipe.ends && st.received <= r.received
            && (if st.pipe.queue == [] && !st.pipe.calls[st.reading].returned then r == st
                else Left(r, msgs) < Left(st, msgs))
  {
    OpenInStep(st, msgs);
    if !st.pipe.calls[st.reading].returned {
      ReceiveMoves(st, msgs);
    } else {
      ReceiveTurns(st, msgs);
    }
  }

  lemma ReceiveMoves(st: LogState, msgs: seq<LogMessage>)
    requires Sendable(msgs) && LogInv(st, msgs) && st.pipe.ends > 0 && InStep(st, msgs)
    requires !st.pipe.calls[st.reading].returned
    ensures var r := ReceiveTurn(st);
            && r.pipe.ends == st.pipe.ends && st.received == r.received
            && (if st.pipe.queue == [] then r == st else Left(r, msgs) < Left(st, msgs))
  {
    hide Bytes, Stream, Chunk, CallInv, AtEnd, SenderInv, Step, WriteEndsGone, Inv;
    WantsSome(st, msgs);
    OpenEnd(st.pipe);
    ReadMoves(st.pipe, st.reading);
  }

  lemma OpenEnd(s: PipeState)
    ensures s.ends > 0 ==> !WriteEndsGone(s)
  {
  }

  /** A turn of a read that wants bytes: it takes some, or there are none and nothing changes. */
  lemma ReadMoves(s: PipeState, id: nat)
    requires Wf(s) && id < |s.calls| && s.calls[id].ReadCall? && !s.calls[id].returned
    requires s.calls[id].want > 0 && !WriteEndsGone(s)
    ensures var r := Step(s, Resume(id));
            && r.ends == s.ends && r.written == s.written && |r.calls| == |s.calls|
            && (if s.queue == [] then r == s else |r.consumed| > |s.consumed|)
  {
    hide WriteEndsGone, Tag, ReadTurn;
    var c := s.calls[id];
    assert CallWf(c);
    assert Step(s, Resume(id)) == ReadStep(s, id);
    if s.queue == [] {
      TakesNone(c.want, c.got);
      NothingTagged(s.consumed, id);
      assert s.calls[id := c] == s.calls;
    } else {
      TakesSome(s.queue, c.want, c.got);
    }
  }

  lemma TakesNone(want: nat, got: seq<Byte>)
    requires |got| <= want
    ensures ReadTurn([], false, want, got) == ReadOutcome([], got, false) && got[|got|..] == []
  {
    assert got + [] == got;
  }

  lemma TakesSome(queue: seq<Byte>, want: nat, got: seq<Byte>)
    requires |got| < want && queue != []
    ensures |ReadTurn(queue, false, want, got).got| > |got|
  {
  }

  lemma WantsSome(st: LogState, msgs: seq<LogMessage>)
    requires LogInv(st, msgs) && InStep(st, msgs)
    ensures st.pipe.calls[st.reading].want > 0
  {
    hide Inv, Bytes, Stream, SenderInv, AtEnd;
  }

  lemma ReceiveTurns(st: LogState, msgs: seq<LogMessage>)
    requires Sendable(msgs) && LogInv(st, msgs) && st.pipe.ends > 0 && InStep(st, msgs)
    requires st.pipe.calls[st.reading].returned
    ensures var r := ReceiveTurn(st);
            r.pipe.ends == st.pipe.ends && st.received <= r.received && Left(r, msgs) < Left(st, msgs)
  {
    hide Inv, Bytes, Stream, Chunk, CallInv, Decode, Deserialized, Padded, SenderInv;
    Unfailing(st, msgs);
  }

  /** While the write end is open no body fails to parse. */
  lemma Unfailing(st: LogState, msgs: seq<LogMessage>)
    requires Sendable(msgs) && LogInv(st, msgs) && st.pipe.ends > 0 && InStep(st, msgs)
    requires st.pipe.calls[st.reading].returned
    ensures var c := st.pipe.calls[st.reading];
            |c.got| <= c.want && (st.phase.BodyPhase? ==> Deserialized(Padded(c.got, c.want)).Some?)
  {
    hide Bytes, Stream, Chunk, Of, Deserialized, Padded, SenderInv;
    var c, j := st.pipe.calls[st.reading], |st.received|;
    assert CallWf(c) && CallInv(st.pipe, st.reading);
    if st.phase.BodyPhase? {
      WantsSome(st, msgs);
      PrefixDecodes(msgs, j);
      FullRead(st, msgs, 2 * j + 1);
      PaddedFull(c.got);
    }
  }

  // ---- Fair schedules ----

  function PlayOn(st: LogState, msgs: seq<LogMessage>, ts: seq<Turn>): (r: LogState)
    requires Wf(st.pipe)
    ensures Wf(r.pipe)
    decreases |ts|
  {
    if ts == [] then st else PlayOn(Play(st, msgs, ts[0]), msgs, ts[1..])
  }

  lemma {:induction false} PlayAllOn(msgs: seq<LogMessage>, ts: seq<Turn>, more: seq<Turn>)
    ensures PlayAll(msgs, ts + more) == PlayOn(PlayAll(msgs, ts), msgs, more)
    decreases |more|
  {
    hide Play;
    if more == [] {
      assert ts + more == ts;
    } else {
      PlayAllOn(msgs, ts + [more[0]], more[1..]);
      assert ts + [more[0]] + more[1..] == ts + more;
      assert (ts + [more[0]])[..|ts|] == ts;
    }
  }

  /** Turns of sender and receiver: each does something or changes nothing. */
  lemma TurnProgress(st: LogState, msgs: seq<LogMessage>, t: Turn)
    requires Sendable(msgs) && LogInv(st, msgs) && st.pipe.ends > 0 && t != Collected
    ensures var r := Play(st, msgs, t);
            && LogInv(r, msgs) && r.pipe.ends == st.pipe.ends && st.received <= r.received
            && (r == st || Left(r, msgs) < Left(st, msgs))
  {
    hide LogInv, Left, SendTurn, ReceiveTurn;
    PlayKeeps(st, msgs, t);
    if t == Send {
      SendProgress(st, msgs);
    } else {
      ReceiveProgress(st, msgs);
    }
  }

  lemma {:induction false} Onward(st: LogState, msgs: seq<LogMessage>, ts: seq<Turn>)
    requires Sendable(msgs) && LogInv(st, msgs) && st.pipe.ends > 0 && Collected !in ts
    ensures var r := PlayOn(st, msgs, ts);
            && LogInv(r, msgs) && r.pipe.ends == st.pipe.ends && st.received <= r.received
            && (Left(r, msgs) < Left(st, msgs) || (r == st && forall t :: t in ts ==> Play(st, msgs, t) == st))
    decreases |ts|
  {
    hide LogInv, Left, Play;
    InvWf(st, msgs);
    if ts != [] {
      TurnProgress(st, msgs, ts[0]);
      Onward(Play(st, msgs, ts[0]), msgs, ts[1..]);
      assert ts == [ts[0]] + ts[1..];
    }
  }

  /** Nobody can do anything only when all is received. */
  lemma StuckIsDone(st: LogState, msgs: seq<LogMessage>)
    requires Sendable(msgs) && LogInv(st, msgs) && st.pipe.ends > 0
    requires Play(st, msgs, Send) == st && Play(st, msgs, Receive) == st
    ensures st.received == msgs
  {
    hide LogInv, Left, SendTurn, ReceiveTurn, InStep, AtEnd;
    SendProgress(st, msgs);
    ReceiveProgress(st, msgs);
    Reader(st, msgs);
    NothingMissing(st, msgs);
  }

  function Flat(rounds: seq<seq<Turn>>): seq<Turn> {
    if rounds == [] then [] else rounds[0] + Flat(rounds[1..])
  }

  lemma {:induction false} PlayOnConcat(st: LogState, msgs: seq<LogMessage>, a: seq<Turn>, b: seq<Turn>)
    requires Wf(st.pipe)
    ensures PlayOn(st, msgs, a + b) == PlayOn(PlayOn(st, msgs, a), msgs, b)
    decreases |a|
  {
    hide Play;
    if a == [] {
      assert a + b == b;
    } else {
      PlayOnConcat(Play(st, msgs, a[0]), msgs, a[1..], b);
      assert (a + b)[1..] == a[1..] + b;
    }
  }

  lemma InvWf(st: LogState, msgs: seq<LogMessage>)
    requires LogInv(st, msgs)
    ensures Wf(st.pipe) && st.received <= msgs
  {
  }

  lemma NothingLeft(st: LogState, msgs: seq<LogMessage>)
    requires LogInv(st, msgs) && st.pipe.ends > 0 && Left(st, msgs) <= 0
    ensures st.received == msgs
  {
    hide Bytes, Stream, Chunk, Of, CallInv, Inv;
    ConsumedPrefix(st, msgs);
    StreamPrefix(msgs, st.issued, 2 * |msgs|);
    WrittenPrefix(st, msgs);
    OpenInStep(st, msgs);
    assert |Bytes(st.pipe.consumed)| == |st.pipe.consumed|;
  }

  lemma SameOrMore(a: seq<LogMessage>, b: seq<LogMessage>, msgs: seq<LogMessage>)
    requires a <= b <= msgs
    ensures a == msgs ==> b == msgs
  {
  }

  lemma {:induction false} Rounds(st: LogState, msgs: seq<LogMessage>, rounds: seq<seq<Turn>>)
    requires Sendable(msgs) && LogInv(st, msgs) && st.pipe.ends > 0
    requires forall i :: 0 <= i < |rounds| ==> Fair(rounds[i])
    requires |rounds| >= Left(st, msgs) || st.received == msgs
    ensures PlayOn(st, msgs, Flat(rounds)).received == msgs
    decreases |rounds|
  {
    hide LogInv, Left, Play;
    InvWf(st, msgs);
    if rounds == [] {
      if st.received != msgs {
        NothingLeft(st, msgs);
      }
    } else {
      Onward(st, msgs, rounds[0]);
      var r := PlayOn(st, msgs, rounds[0]);
      InvWf(r, msgs);
      if r == st {
        StuckIsDone(st, msgs);
      }
      SameOrMore(st.received, r.received, msgs);
      Rounds(r, msgs, rounds[1..]);
      PlayOnConcat(st, msgs, rounds[0], Flat(rounds[1..]));
    }
  }

  /** A piece of a schedule in which both sides get a turn, in any order, any number of times. */
  predicate Fair(round: seq<Turn>) {
    Send in round && Receive in round && Collected !in round
  }

  /** Delivery: from every reachable state with the write end open, every schedule with
      enough pieces in which both sides get a turn delivers all messages. */
  lemma Delivers(msgs: seq<LogMessage>, ts: seq<Turn>, rounds: seq<seq<Turn>>)
    requires Sendable(msgs) && PlayAll(msgs, ts).pipe.ends > 0
    requires (forall i :: 0 <= i < |rounds| ==> Fair(rounds[i])) && |rounds| >= Left(PlayAll(msgs, ts), msgs)
    ensures PlayAll(msgs, ts + Flat(rounds)).received == msgs
  {
    hide LogInv, PlayAll, PlayOn, Left, Fair;
    PlayAllKeeps(msgs, ts);
    Rounds(PlayAll(msgs, ts), msgs, rounds);
    PlayAllOn(msgs, ts, Flat(rounds));
  }

  /** And there is such a schedule. */
  lemma CanDeliver(msgs: seq<LogMessage>, ts: seq<Turn>) returns (more: seq<Turn>)
    requires Sendable(msgs) && PlayAll(msgs, ts).pipe.ends > 0
    ensures PlayAll(msgs, ts + more).received == msgs
  {
    hide LogInv, PlayAll, Left;
    PlayAllKeeps(msgs, ts);
    LeftNonneg(PlayAll(msgs, ts), msgs);
    var rounds := seq(Left(PlayAll(msgs, ts), msgs), _ => [Send, Receive]);
    more := Flat(rounds);
    Delivers(msgs, ts, rounds);
  }

  // ---- The end ----

  /** What a receiver still has to do before it meets the end of the stream. */
  ghost function LeftToEnd(st: LogState, msgs: seq<LogMessage>): int {
    4 * (|msgs| - |st.received|) + (if st.phase.LengthPhase? then 2 else 0) + |st.pipe.queue|
    + (if st.reading < |st.pipe.calls| && st.pipe.calls[st.reading].returned then 0 else 1)
  }

  /** With no writer left every turn of the receiver does something, or fails. */
  lemma EndProgress(st: LogState, msgs: seq<LogMessage>)
    requires Sendable(msgs) && LogInv(st, msgs) && WriteEndsGone(st.pipe)
    ensures var r := ReceiveTurn(st);
            && LogInv(r, msgs) && WriteEndsGone(r.pipe) && r.issued == st.issued
            && (r.failures > st.failures || LeftToEnd(r, msgs) < LeftToEnd(st, msgs))
  {
    PlayKeeps(st, msgs, Receive);
    if !st.pipe.calls[st.reading].returned {
      EndMoves(st, msgs);
    } else {
      EndTurns(st, msgs);
    }
  }

  lemma EndMoves(st: LogState, msgs: seq<LogMessage>)
    requires LogInv(st, msgs) && WriteEndsGone(st.pipe) && !st.pipe.calls[st.reading].returned
    ensures var r := ReceiveTurn(st);
            WriteEndsGone(r.pipe) && r.issued == st.issued && LeftToEnd(r, msgs) < LeftToEnd(st, msgs)
  {
    hide Bytes, Stream, Chunk, Of, CallInv, Tag, SenderInv;
    var s, id := st.pipe, st.reading;
    var c := s.calls[id];
    assert CallWf(c);
    if InStep(st, msgs) { WantsSome(st, msgs); }
    EndStep(s, Resume(id));
    var o := ReadTurn(s.queue, WriteEndsGone(s), c.want, c.got);
    assert Step(s, Resume(id)) == ReadStep(s, id);
    if s.queue != [] {
      assert |o.queue| < |s.queue|;
    } else {
      assert o.returned;
    }
  }

  lemma EndTurns(st: LogState, msgs: seq<LogMessage>)
    requires LogInv(st, msgs) && WriteEndsGone(st.pipe) && st.pipe.calls[st.reading].returned
    ensures var r := ReceiveTurn(st);
            && WriteEndsGone(r.pipe) && r.issued == st.issued
            && (r.failures > st.failures || LeftToEnd(r, msgs) < LeftToEnd(st, msgs))
  {
    hide Inv, Bytes, Stream, Chunk, CallInv, Decode, Deserialized, Padded, SenderInv, InStep, AtEnd;
    var c := st.pipe.calls[st.reading];
    if st.phase.LengthPhase? {
      EndStep(st.pipe, StartRead(Decode(Padded(c.got, c.want))));
    } else {
      EndStep(st.pipe, StartRead(PREFIX_LEN));
    }
  }

  lemma {:induction false} RunToEnd(st: LogState, msgs: seq<LogMessage>) returns (more: seq<Turn>)
    requires Sendable(msgs) && LogInv(st, msgs) && WriteEndsGone(st.pipe)
    ensures Wf(st.pipe)
    ensures var r := PlayOn(st, msgs, more); LogInv(r, msgs) && r.failures > 0 && r.issued == st.issued
    decreases if st.failures > 0 then 0 else 1 + (if LeftToEnd(st, msgs) > 0 then LeftToEnd(st, msgs) else 0)
  {
    hide LogInv, LeftToEnd, ReceiveTurn, WriteEndsGone;
    InvWf(st, msgs);
    if st.failures > 0 {
      more := [];
    } else {
      EndProgress(st, msgs);
      EndNonneg(ReceiveTurn(st), msgs);
      var rest := RunToEnd(ReceiveTurn(st), msgs);
      more := [Receive] + rest;
      assert more[1..] == rest;
    }
  }

  lemma EndNonneg(st: LogState, msgs: seq<LogMessage>)
    requires LogInv(st, msgs)
    ensures LeftToEnd(st, msgs) >= 0
  {
    hide Inv, SenderInv, InStep, AtEnd;
  }

  /** The end is reported: once the sender is gone between two writes, `receive` comes to
      fail, and by then every message sent whole has been received. */
  lemma EndReported(msgs: seq<LogMessage>, ts: seq<Turn>) returns (more: seq<Turn>)
    requires Sendable(msgs) && Idle(PlayAll(msgs, ts))
    ensures var st := PlayAll(msgs, ts + ([Collected] + more));
            && st.failures > 0 && st.issued == PlayAll(msgs, ts).issued <= 2 * |msgs|
            && st.received == msgs[..st.issued / 2]
  {
    hide LogInv, PlayAll, WriteEndsGone, PlayOn;
    PlayAllKeeps(msgs, ts);
    var st := PlayAll(msgs, ts);
    PlayKeeps(st, msgs, Collected);
    var gone := Play(st, msgs, Collected);
    GoneForGood(st, msgs);
    more := RunToEnd(gone, msgs);
    OneTurn(st, msgs, Collected);
    PlayOnConcat(st, msgs, [Collected], more);
    PlayAllOn(msgs, ts, [Collected] + more);
    InOrder(msgs, ts + ([Collected] + more));
  }

  lemma OneTurn(st: LogState, msgs: seq<LogMessage>, t: Turn)
    requires Wf(st.pipe)
    ensures PlayOn(st, msgs, [t]) == Play(st, msgs, t)
  {
    hide Play;
    assert [t][1..] == [];
  }

  lemma GoneForGood(st: LogState, msgs: seq<LogMessage>)
    requires LogInv(st, msgs) && Idle(st)
    ensures WriteEndsGone(Play(st, msgs, Collected).pipe) && Play(st, msgs, Collected).issued == st.issued
  {
    hide Inv, Bytes, Stream, Chunk, CallInv, InStep, AtEnd;
  }
}
