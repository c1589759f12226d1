/**
 * The ring buffer of a pipe and the two blocking loops that work on it.
 *
 * A reader or a writer runs until its call returns or until it yields the processor;
 * what it does in between is one turn.  `ReadTurn` and `WriteTurn` say what a turn
 * means on a queue of bytes; the methods work byte by byte on the ring.
 */
module PipeRing {
  import opened Basics
  import opened LittleEndian

  const RING_SIZE := 32

  datatype Status = Full | Empty | Normal

  /** What is left in the queue, what the reader has so far, and whether its call returns
      (else it is suspended). */
  datatype ReadOutcome = ReadOutcome(queue: seq<Byte>, got: seq<Byte>, returned: bool)

  function ReadTurn(queue: seq<Byte>, closed: bool, want: nat, got: seq<Byte>): (o: ReadOutcome)
    requires |got| <= want
    ensures o.got + o.queue == got + queue
    ensures |got| <= |o.got| <= want
    ensures o.returned && |o.got| < want ==> o.queue == [] && closed
    ensures !o.returned ==> o.queue == [] && !closed && (|o.got| < want || (queue == [] && o.got == got))
  {
    var k := Min(|queue|, want - |got|);
    ReadOutcome(queue[k..], got + queue[..k],
                (queue != [] && |got| + k == want) || (closed && k == |queue|))
  }

  datatype WriteOutcome = WriteOutcome(queue: seq<Byte>, sent: nat, returned: bool)

  function WriteTurn(queue: seq<Byte>, buf: seq<Byte>, sent: nat): (o: WriteOutcome)
    requires |queue| <= RING_SIZE && sent <= |buf|
    ensures sent <= o.sent <= |buf| && |o.queue| <= RING_SIZE
    ensures o.queue == queue + buf[sent..o.sent]
    ensures o.returned ==> o.sent == |buf|
    ensures !o.returned ==> |o.queue| == RING_SIZE && (o.sent < |buf| || o.sent == sent)
  {
    var k := Min(RING_SIZE - |queue|, |buf| - sent);
    WriteOutcome(queue + buf[sent..sent + k], sent + k, |queue| < RING_SIZE && sent + k == |buf|)
  }

  /** `n` bytes of the ring from position `head` on, wrapping at its end. */
  ghost function Window(a: seq<Byte>, head: nat, n: nat): (s: seq<Byte>)
    requires |a| == RING_SIZE && head < RING_SIZE && n <= RING_SIZE
    ensures |s| == n
  {
    if head + n <= RING_SIZE then a[head..head + n] else a[head..] + a[..head + n - RING_SIZE]
  }

  lemma WindowHead(a: seq<Byte>, head: nat, n: nat, next: nat)
    requires |a| == RING_SIZE && head < RING_SIZE && 0 < n <= RING_SIZE
    requires next == if head + 1 < RING_SIZE then head + 1 else 0
    ensures Window(a, head, n) == [a[head]] + Window(a, next, n - 1)
  {
    if head + n <= RING_SIZE {
      WindowSplit(a, head, head + n);
      if next == 0 { assert a[head + 1..head + n] == [] == a[0..n - 1]; }
    } else {
      var rest := a[..head + n - RING_SIZE];
      WindowSplit(a, head, RING_SIZE);
      assert a[head..] == a[head..RING_SIZE] && a[head + 1..] == a[head + 1..RING_SIZE];
      assert [a[head]] + a[head + 1..] + rest == [a[head]] + (a[head + 1..] + rest);
      if next == 0 { assert a[head + 1..] + rest == rest == a[0..n - 1]; }
    }
  }

  lemma WindowSplit(a: seq<Byte>, lo: nat, hi: nat)
    requires lo < hi <= |a|
    ensures a[lo..hi] == [a[lo]] + a[lo + 1..hi]
  {
  }

  lemma WindowTail(a: seq<Byte>, head: nat, n: nat, tail: nat, b: Byte)
    requires |a| == RING_SIZE && head < RING_SIZE && n < RING_SIZE
    requires tail == if head + n < RING_SIZE then head + n else head + n - RING_SIZE
    ensures Window(a[tail := b], head, n + 1) == Window(a, head, n) + [b]
  {
  }

  class PipeRingBuffer {
    const arr: array<Byte>
    var head: nat
    var tail: nat
    var status: Status

    ghost predicate Valid()
      reads this
    {
      arr.Length == RING_SIZE && head < RING_SIZE && tail < RING_SIZE && (status == Normal <==> head != tail)
    }

    /** Number of bytes between head and tail. */
    ghost function Count(): (n: nat)
      reads this
      requires Valid()
      ensures n <= RING_SIZE
      ensures n == 0 <==> status == Empty
      ensures n == RING_SIZE <==> status == Full
    {
      if status == Empty then 0 else if head < tail then tail - head else tail + RING_SIZE - head
    }

    ghost function Contents(): (s: seq<Byte>)
      reads this, arr
      requires Valid()
      ensures |s| == Count()
    {
      Window(arr[..], head, Count())
    }

    constructor ()
      ensures Valid() && fresh(arr) && Contents() == []
    {
      arr := new Byte[RING_SIZE](_ => 0);
      head, tail, status := 0, 0, Empty;
    }

    method ReadByte() returns (c: Byte)
      requires Valid() && Contents() != []
      modifies this
      ensures Valid() && old(Contents()) == [c] + Contents()
    {
      hide Window;
      WindowHead(arr[..], head, Count(), if head + 1 < RING_SIZE then head + 1 else 0);
      status := Normal;
      c := arr[head];
      head := (head + 1) % RING_SIZE;
      if head == tail {
        status := Empty;
      }
    }

    method WriteByte(byte: Byte)
      requires Valid() && |Contents()| < RING_SIZE
      modifies this, arr
      ensures Valid() && Contents() == old(Contents()) + [byte]
    {
      hide Window;
      WindowTail(arr[..], head, Count(), tail, byte);
      ghost var was := arr[..];
      status := Normal;
      arr[tail] := byte;
      assert arr[..] == was[tail := byte];
      tail := (tail + 1) % RING_SIZE;
      if tail == head {
        status := Full;
      }
    }

    method AvailableRead() returns (n: nat)
      requires Valid()
      ensures n == |Contents()|
    {
      if status == Empty {
        n := 0;
      } else if tail > head {
        n := tail - head;
      } else {
        n := tail + RING_SIZE - head;
      }
    }

    method AvailableWrite() returns (n: nat)
      requires Valid()
      ensures n == RING_SIZE - |Contents()|
    {
      if status == Full {
        n := 0;
      } else {
        var used := AvailableRead();
        n := RING_SIZE - used;
      }
    }

    /** The loop of `Pipe::read` from where it was resumed to its return or its next yield. */
    method Read(closed: bool, want: nat, already: seq<Byte>) returns (got: seq<Byte>, returned: bool)
      requires Valid() && |already| <= want && (want > 0 ==> |already| < want)
      modifies this
      ensures Valid()
      ensures ReadOutcome(Contents(), got, returned) == ReadTurn(old(Contents()), closed, want, already)
    {
      hide Valid, Contents, Count;
      ghost var queue := Contents();
      got := already;
      while true
        invariant Valid() && |already| <= |got| <= want && (want > 0 ==> |got| < want)
        invariant got + Contents() == already + queue
        invariant got != already ==> Contents() == []
        decreases |Contents()|
      {
        var loopRead := AvailableRead();
        if loopRead == 0 {
          Drained(queue, closed, already, got, want);
          return got, closed;
        }
        for i := 0 to loopRead
          invariant Valid() && |Contents()| == loopRead - i
          invariant |already| <= |got| <= want && (want > 0 ==> |got| < want)
          invariant got + Contents() == already + queue
          invariant i > 0 ==> want > 0
        {
          if |got| < want {
            var c := ReadByte();
            got := got + [c];
            if |got| == want {
              Filled(queue, closed, already, got, Contents(), want);
              return got, true;
            }
          } else {
            Filled(queue, closed, already, got, Contents(), want);
            return got, true;
          }
        }
      }
    }

    /** The loop of `Pipe::write` from where it was resumed to its return or its next yield. */
    method Write(buf: seq<Byte>, already: nat) returns (sent: nat, returned: bool)
      requires Valid() && already <= |buf| && (buf != [] ==> already < |buf|)
      modifies this, arr
      ensures Valid()
      ensures WriteOutcome(Contents(), sent, returned) == WriteTurn(old(Contents()), buf, already)
    {
      hide Valid, Contents, Count;
      ghost var queue := Contents();
      sent := already;
      while true
        invariant Valid() && already <= sent <= |buf| && (buf != [] ==> sent < |buf|)
        invariant Contents() == queue + buf[already..sent] && |Contents()| <= RING_SIZE
        invariant sent != already ==> |Contents()| == RING_SIZE
        decreases RING_SIZE - |Contents()|
      {
        var loopWrite := AvailableWrite();
        if loopWrite == 0 {
          return sent, false;
        }
        for i := 0 to loopWrite
          invariant Valid() && |Contents()| == RING_SIZE - loopWrite + i
          invariant already <= sent <= |buf| && (buf != [] ==> sent < |buf|)
          invariant Contents() == queue + buf[already..sent]
        {
          if sent < |buf| {
            WriteByte(buf[sent]);
            sent := sent + 1;
            if sent == |buf| {
              return sent, true;
            }
          } else {
            return sent, true;
          }
        }
      }
    }
  }

  /** The queue ran out before the reader had all it wants. */
  lemma Drained(queue: seq<Byte>, closed: bool, already: seq<Byte>, got: seq<Byte>, want: nat)
    requires |already| <= |got| <= want && (want > 0 ==> |got| < want)
    requires got == already + queue
    ensures ReadTurn(queue, closed, want, already) == ReadOutcome([], got, closed)
  {
    assert |got| == |already| + |queue|;
    assert queue[..|queue|] == queue && queue[|queue|..] == [];
  }

  /** The reader has all it wants. */
  lemma Filled(queue: seq<Byte>, closed: bool, already: seq<Byte>, got: seq<Byte>, rest: seq<Byte>, want: nat)
    requires |already| <= |got| == want && queue != []
    requires got + rest == already + queue
    ensures ReadTurn(queue, closed, want, already) == ReadOutcome(rest, got, true)
  {
    var k := want - |already|;
    assert got == (got + rest)[..want] == already + queue[..k];
    assert rest == (got + rest)[want..] == queue[k..];
  }
}
