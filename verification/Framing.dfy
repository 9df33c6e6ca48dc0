/** Length-prefixed frames: concurrent senders behind one lock, and the read loop on the other side. */
module Framing {
  import opened Primitives
  import opened BigEndians

  const MAX_FRAME_SIZE: nat := 16 * 1024 * 1024
  const U32_RANGE: nat := 0x1_0000_0000

  // ----- one frame -----

  function HeaderSize(): nat { 4 }

  lemma HeaderRange()
    ensures Range(HeaderSize()) == U32_RANGE
  {
    assert Range(1) == 256 && Range(2) == 0x1_0000 && Range(3) == 0x100_0000;
  }

  /** The length header, cut to 32 bits, which is visible only beyond the frame cap. */
  function Header(n: nat): (r: Bytes)
    ensures |r| == 4
  {
    BigEndian(n % U32_RANGE, HeaderSize())
  }

  lemma HeaderReads(n: nat)
    ensures FromBigEndian(Header(n)) == n % U32_RANGE
  {
    HeaderRange();
    BigEndianRoundTrip(n % U32_RANGE, HeaderSize());
  }

  lemma HeaderWrites(b: Bytes)
    requires |b| == 4
    ensures Header(FromBigEndian(b)) == b
  {
    FromBigEndianRoundTrip(b);
    HeaderRange();
  }

  /** What `send` puts on the wire. */
  function Frame(data: Bytes): Bytes {
    Header(|data|) + data
  }

  function Frames(payloads: seq<Bytes>): Bytes {
    if payloads == [] then [] else Frame(payloads[0]) + Frames(payloads[1..])
  }

  predicate WithinCap(payloads: seq<Bytes>) {
    forall i :: 0 <= i < |payloads| ==> |payloads[i]| <= MAX_FRAME_SIZE
  }

  datatype ConnError = ReadError | MalformedData(length: nat)

  /** One frame off the front of the wire, and what follows it. */
  function ReadFrame(wire: Bytes): Result<(Bytes, Bytes), ConnError> {
    if |wire| < 4 then Failure(ReadError)
    else
      var n := FromBigEndian(wire[..4]);
      if n > MAX_FRAME_SIZE then Failure(MalformedData(n))
      else if |wire| < 4 + n then Failure(ReadError)
      else Success((wire[4..4 + n], wire[4 + n..]))
  }

  lemma ReadAfterHeader(header: Bytes, data: Bytes, rest: Bytes)
    requires |header| == 4 && FromBigEndian(header) == |data| <= MAX_FRAME_SIZE
    ensures ReadFrame(header + data + rest) == Success((data, rest))
  {
    var wire := header + data + rest;
    assert wire[..4] == header;
    assert wire[4..4 + |data|] == data && wire[4 + |data|..] == rest;
  }

  /** The first `k` bytes of a frame give the reader nothing: too few for the length it sees, or that beyond the cap. */
  predicate Unread(data: Bytes, k: nat) {
    var n := |data| % U32_RANGE;
    n > MAX_FRAME_SIZE || k < 4 + n
  }

  lemma CutAfterHeader(header: Bytes, data: Bytes, k: nat)
    requires |header| == 4 && FromBigEndian(header) == |data| % U32_RANGE && k <= 4 + |data|
    ensures ReadFrame((header + data)[..k]).Failure? <==> Unread(data, k)
  {
    if k >= 4 { assert (header + data)[..k][..4] == header; }
  }

  /** A frame within the cap, with anything behind it, is read back whole. */
  lemma ReadFrameOfFrame(data: Bytes, rest: Bytes)
    requires |data| <= MAX_FRAME_SIZE
    ensures ReadFrame(Frame(data) + rest) == Success((data, rest))
  {
    HeaderReads(|data|);
    ReadAfterHeader(Header(|data|), data, rest);
  }

  /** Reading and framing are inverse: a frame that was read is on the wire as it would have been sent. */
  lemma FrameOfReadFrame(wire: Bytes)
    requires ReadFrame(wire).Success?
    ensures var (data, rest) := ReadFrame(wire).value;
            |data| <= MAX_FRAME_SIZE && wire == Frame(data) + rest
  {
    var n := FromBigEndian(wire[..4]);
    HeaderWrites(wire[..4]);
    assert wire == wire[..4] + wire[4..4 + n] + wire[4 + n..];
  }

  // ----- the reader -----

  /** A stream whose bytes arrive in pieces of any size. */
  class Reader {
    var pending: seq<Bytes>

    constructor (pieces: seq<Bytes>)
      ensures pending == pieces
    {
      pending := pieces;
    }

    function Wire(): Bytes
      reads this
    {
      Concat(pending)
    }

    /** `read_exact`: take pieces until the buffer is full; the end of the stream is an error. */
    method ReadExact(n: nat) returns (r: Option<Bytes>)
      modifies this
      ensures r.Some? <==> |old(Wire())| >= n
      ensures r.Some? ==> |r.value| == n && old(Wire()) == r.value + Wire()
    {
      var buf: Bytes := [];
      while |buf| < n
        invariant |buf| <= n && old(Wire()) == buf + Wire()
        decreases |pending|, n - |buf|
      {
        if pending == [] { return None; }
        var piece := pending[0];
        var want := n - |buf|;
        if |piece| <= want {
          assert buf + (piece + Concat(pending[1..])) == (buf + piece) + Concat(pending[1..]);
          buf, pending := buf + piece, pending[1..];
        } else {
          pending := [piece[want..]] + pending[1..];
          buf := buf + piece[..want];
          assert piece == piece[..want] + piece[want..];
        }
      }
      r := Some(buf);
    }

    /** `get_data_async`: header, cap check before the body is read, body. */
    method GetData() returns (r: Result<Bytes, ConnError>)
      modifies this
      ensures
        match ReadFrame(old(Wire()))
        case Failure(e) => r == Failure(e)
        case Success((data, rest)) => r == Success(data) && Wire() == rest
    {
      ghost var wire := Wire();
      var header := ReadExact(4);
      if header.None? { return Failure(ReadError); }
      assert header.value == wire[..4] && Wire() == wire[4..];
      var n := FromBigEndian(header.value);
      if n > MAX_FRAME_SIZE { return Failure(MalformedData(n)); }
      var data := ReadExact(n);
      if data.None? { return Failure(ReadError); }
      assert data.value == wire[4..4 + n] && Wire() == wire[4 + n..];
      r := Success(data.value);
    }

    /** The connection's read loop: hand over every frame, stop at the first error. */
    method ReadLoop() returns (delivered: seq<Bytes>)
      modifies this
      ensures delivered == Delivered(old(Wire()))
    {
      delivered := [];
      while true
        invariant delivered + Delivered(Wire()) == Delivered(old(Wire()))
        decreases |Wire()|
      {
        var data := GetData();
        match data {
          case Success(d) => delivered := delivered + [d];
          case Failure(_) => return;
        }
      }
    }
  }

  /** The payloads handed over from a wire. */
  function Delivered(wire: Bytes): seq<Bytes>
    decreases |wire|
  {
    match ReadFrame(wire)
    case Failure(_) => []
    case Success((data, rest)) => [data] + Delivered(rest)
  }

  /** What the loop leaves unread. */
  function Leftover(wire: Bytes): Bytes
    decreases |wire|
  {
    match ReadFrame(wire)
    case Failure(_) => wire
    case Success((_, rest)) => Leftover(rest)
  }

  /** Every delivery was on the wire as a whole frame within the cap, and no whole frame follows the last one. */
  lemma {:induction false} DeliveredIsFramed(wire: Bytes)
    ensures WithinCap(Delivered(wire))
    ensures wire == Frames(Delivered(wire)) + Leftover(wire)
    ensures ReadFrame(Leftover(wire)).Failure?
    decreases |wire|
  {
    if ReadFrame(wire).Success? {
      var (data, rest) := ReadFrame(wire).value;
      FrameOfReadFrame(wire);
      DeliveredIsFramed(rest);
      var ps := Delivered(wire);
      assert ps[1..] == Delivered(rest);
      assert Frame(data) + (Frames(ps[1..]) + Leftover(rest)) == Frame(data) + Frames(ps[1..]) + Leftover(rest);
    } else {
      assert [] + wire == wire;
    }
  }

  lemma DeliveredCons(data: Bytes, rest: Bytes)
    requires |data| <= MAX_FRAME_SIZE
    ensures Delivered(Frame(data) + rest) == [data] + Delivered(rest)
  {
    ReadFrameOfFrame(data, rest);
  }

  lemma Regroup(a: Bytes, b: Bytes, c: Bytes)
    ensures (a + b) + c == a + (b + c)
  {
  }

  lemma ConsAppend(a: seq<Bytes>, b: seq<Bytes>)
    requires a != []
    ensures [a[0]] + (a[1..] + b) == a + b
  {
  }

  /** Whole frames at the front of a wire are delivered in order, before whatever else is. */
  lemma {:induction false} FramesAreDelivered(payloads: seq<Bytes>, rest: Bytes)
    requires WithinCap(payloads)
    ensures Delivered(Frames(payloads) + rest) == payloads + Delivered(rest)
  {
    if payloads == [] {
      assert [] + rest == rest;
    } else {
      var p, tail := payloads[0], Frames(payloads[1..]) + rest;
      assert Frames(payloads) + rest == Frame(p) + tail by { Regroup(Frame(p), Frames(payloads[1..]), rest); }
      FramesAreDelivered(payloads[1..], rest);
      DeliveredCons(p, tail);
      ConsAppend(payloads, Delivered(rest));
    }
  }

  /** So the read loop delivers exactly the longest run of whole frames: no other reading of the wire goes further. */
  lemma LongestPrefixDelivered(wire: Bytes, payloads: seq<Bytes>, rest: Bytes)
    requires WithinCap(payloads) && wire == Frames(payloads) + rest
    ensures payloads <= Delivered(wire)
    ensures payloads == Delivered(wire) <==> ReadFrame(rest).Failure?
  {
    FramesAreDelivered(payloads, rest);
  }

  /** For payloads of every size, the start of a frame delivers nothing exactly when the reader cannot finish it. */
  lemma CutFrameRead(data: Bytes, k: nat)
    requires k <= |Frame(data)|
    ensures Delivered(Frame(data)[..k]) == [] <==> Unread(data, k)
  {
    HeaderReads(|data|);
    CutAfterHeader(Header(|data|), data, k);
  }

  /** The two errors tell a frame beyond the cap, with the length its header holds, from one that is not all there. */
  lemma ErrorsTold(data: Bytes, k: nat)
    requires k <= |Frame(data)|
    ensures
      var n := |data| % U32_RANGE;
      && (ReadFrame(Frame(data)[..k]) == Failure(MalformedData(n)) <==> k >= 4 && n > MAX_FRAME_SIZE)
      && (ReadFrame(Frame(data)[..k]) == Failure(ReadError) <==> k < 4 || (n <= MAX_FRAME_SIZE && k < 4 + n))
  {
    HeaderReads(|data|);
    if k >= 4 { assert Frame(data)[..k][..4] == Header(|data|); }
  }

  /** A frame within the cap that was cut short is never delivered, not even in part. */
  lemma TruncatedFrame(data: Bytes, k: nat)
    requires |data| <= MAX_FRAME_SIZE && k < |Frame(data)|
    ensures Delivered(Frame(data)[..k]) == []
  {
    CutFrameRead(data, k);
  }

  // ----- the senders -----

  /** The thread in the lock, its payload, and how much of the frame it has written. */
  datatype Holder = Holder(thread: nat, payload: Bytes, written: nat)

  /** A lock section that has ended. */
  datatype Section = Section(payload: Bytes, written: nat)

  /** The wire, the writer lock, and the lock sections so far in the order they were entered. */
  datatype Conn = Conn(wire: Bytes, lock: Option<Holder>, sections: seq<Section>)

  datatype SendStep =
    | Acquire(thread: nat, payload: Bytes)
    | Write(thread: nat, count: nat)
    | Release(thread: nat)
    | GiveUp(thread: nat)

  predicate Holds(c: Conn, thread: nat) {
    c.lock.Some? && c.lock.value.thread == thread
  }

  /** One step of one sender. Only the holder writes; a step that is not enabled changes nothing. */
  function Send(c: Conn, step: SendStep): Conn {
    match step
    case Acquire(t, payload) => if c.lock.None? then c.(lock := Some(Holder(t, payload, 0))) else c
    case Write(t, n) =>
      if Holds(c, t) && c.lock.value.written + n <= |Frame(c.lock.value.payload)| then
        var h := c.lock.value;
        c.(wire := c.wire + Frame(h.payload)[h.written..h.written + n], lock := Some(h.(written := h.written + n)))
      else c
    case Release(t) =>
      if Holds(c, t) && c.lock.value.written == |Frame(c.lock.value.payload)| then EndSection(c) else c
    case GiveUp(t) => if Holds(c, t) then EndSection(c) else c
  }

  function EndSection(c: Conn): Conn
    requires c.lock.Some?
  {
    c.(lock := None, sections := c.sections + [Section(c.lock.value.payload, c.lock.value.written)])
  }

  function SendAll(c: Conn, steps: seq<SendStep>): Conn {
    if steps == [] then c else Send(SendAll(c, steps[..|steps| - 1]), steps[|steps| - 1])
  }

  const IDLE: Conn := Conn([], None, [])

  function SectionBytes(sections: seq<Section>): Bytes {
    if sections == [] then []
    else
      var s := sections[|sections| - 1];
      SectionBytes(sections[..|sections| - 1])
      + (if s.written <= |Frame(s.payload)| then Frame(s.payload)[..s.written] else [])
  }

  /** The holder's part of the wire. */
  function InFlight(c: Conn): Bytes {
    match c.lock
    case None => []
    case Some(h) => if h.written <= |Frame(h.payload)| then Frame(h.payload)[..h.written] else []
  }

  /** The wire is the lock sections one after the other, each the start of one frame, then the holder's part. */
  predicate Serialized(c: Conn) {
    && c.wire == SectionBytes(c.sections) + InFlight(c)
    && (c.lock.Some? ==> c.lock.value.written <= |Frame(c.lock.value.payload)|)
    && forall i :: 0 <= i < |c.sections| ==> c.sections[i].written <= |Frame(c.sections[i].payload)|
  }

  lemma WriteExtends(before: Bytes, f: Bytes, at: nat, n: nat)
    requires at + n <= |f|
    ensures before + f[..at] + f[at..at + n] == before + f[..at + n]
  {
    assert f[..at] + f[at..at + n] == f[..at + n];
    assert before + f[..at] + f[at..at + n] == before + (f[..at] + f[at..at + n]);
  }

  lemma EndKeepsSerialized(c: Conn)
    requires Serialized(c) && c.lock.Some?
    ensures Serialized(EndSection(c))
  {
    var c' := EndSection(c);
    assert c'.sections[..|c.sections|] == c.sections;
    assert c'.wire + [] == c'.wire;
  }

  lemma SendKeepsSerialized(c: Conn, step: SendStep)
    requires Serialized(c)
    ensures Serialized(Send(c, step))
  {
    var c' := Send(c, step);
    if c' == c {
    } else if step.Acquire? {
      assert c.wire == c.wire + [];
    } else if step.Write? {
      var h := c.lock.value;
      WriteExtends(SectionBytes(c.sections), Frame(h.payload), h.written, step.count);
    } else {
      EndKeepsSerialized(c);
    }
  }

  /** No interleaving of senders mixes two frames, even when sends fail or are dropped half way. */
  lemma {:induction false} SendsAreSerialized(steps: seq<SendStep>)
    ensures Serialized(SendAll(IDLE, steps))
  {
    if steps != [] {
      SendsAreSerialized(steps[..|steps| - 1]);
      SendKeepsSerialized(SendAll(IDLE, steps[..|steps| - 1]), steps[|steps| - 1]);
    }
  }

  // ----- what the other side receives -----

  predicate Whole(s: Section) { s.written == |Frame(s.payload)| }

  /** Every section wrote its whole frame or nothing at all. */
  predicate Clean(sections: seq<Section>) {
    forall i :: 0 <= i < |sections| ==> Whole(sections[i]) || sections[i].written == 0
  }

  /** The payloads sent whole, in lock order. */
  function Sent(sections: seq<Section>): seq<Bytes> {
    if sections == [] then []
    else
      var s := sections[|sections| - 1];
      Sent(sections[..|sections| - 1]) + (if Whole(s) then [s.payload] else [])
  }

  lemma {:induction false} FramesAppend(a: seq<Bytes>, b: seq<Bytes>)
    ensures Frames(a + b) == Frames(a) + Frames(b)
  {
    if a == [] {
      assert a + b == b;
    } else {
      assert (a + b)[1..] == a[1..] + b;
      FramesAppend(a[1..], b);
    }
  }

  lemma {:induction false} CleanSectionsAreFrames(sections: seq<Section>)
    requires Clean(sections)
    ensures SectionBytes(sections) == Frames(Sent(sections))
  {
    if sections != [] {
      var front, s := sections[..|sections| - 1], sections[|sections| - 1];
      CleanSectionsAreFrames(front);
      if Whole(s) {
        FramesAppend(Sent(front), [s.payload]);
        assert [s.payload][1..] == [] && Frames([s.payload]) == Frame(s.payload) + [] == Frame(s.payload);
        assert Frame(s.payload)[..s.written] == Frame(s.payload);
      } else {
        assert Frame(s.payload)[..0] == [] && Sent(front) + [] == Sent(front);
        assert SectionBytes(front) + [] == SectionBytes(front);
      }
    }
  }

  /** What the reader should have: the payloads sent whole, and the holder's once its frame is complete. */
  function Expected(c: Conn): seq<Bytes> {
    Sent(c.sections)
    + match c.lock
      case Some(h) => if h.written == |Frame(h.payload)| then [h.payload] else []
      case None => []
  }

  /** The holder's part is read as what it is: within the cap when complete, nothing yet before that. */
  predicate HolderRight(c: Conn) {
    match c.lock
    case Some(h) =>
      if h.written == |Frame(h.payload)| then |h.payload| <= MAX_FRAME_SIZE else Unread(h.payload, h.written)
    case None => true
  }

  /**
   After any interleaving, if no ended section left part of a frame behind, the wire is the whole frames in lock
   order plus the start of the holder's frame. The sender never looks at the cap, so the reader is given exactly
   what was sent if and only if all of that was within it.
   */
  lemma ReaderGetsWhatWasSent(steps: seq<SendStep>)
    requires Clean(SendAll(IDLE, steps).sections)
    ensures
      var c := SendAll(IDLE, steps);
      && c.wire == Frames(Sent(c.sections)) + InFlight(c)
      && (Delivered(c.wire) == Expected(c) <==> WithinCap(Sent(c.sections)) && HolderRight(c))
  {
    var c := SendAll(IDLE, steps);
    SendsAreSerialized(steps);
    CleanSectionsAreFrames(c.sections);
    DeliveredIsFramed(c.wire);
    if WithinCap(Sent(c.sections)) {
      FramesAreDelivered(Sent(c.sections), InFlight(c));
      InFlightDelivery(c);
      SamePrefix(Sent(c.sections), Delivered(InFlight(c)), Expected(c)[|Sent(c.sections)|..]);
    } else {
      OversizeStays(Sent(c.sections), Expected(c));
    }
  }

  lemma SamePrefix(a: seq<Bytes>, b: seq<Bytes>, c: seq<Bytes>)
    ensures a + b == a + c <==> b == c
  {
    if a + b == a + c { assert b == (a + b)[|a|..] && c == (a + c)[|a|..]; }
  }

  lemma OversizeStays(a: seq<Bytes>, b: seq<Bytes>)
    requires a <= b && !WithinCap(a)
    ensures !WithinCap(b)
  {
    var i :| 0 <= i < |a| && |a[i]| > MAX_FRAME_SIZE;
    assert b[i] == a[i];
  }

  lemma InFlightDelivery(c: Conn)
    requires Serialized(c)
    ensures Delivered(InFlight(c)) == Expected(c)[|Sent(c.sections)|..] <==> HolderRight(c)
  {
    if c.lock.Some? {
      var h := c.lock.value;
      CutFrameRead(h.payload, h.written);
      if h.written == |Frame(h.payload)| {
        assert Frame(h.payload)[..h.written] == Frame(h.payload);
        WholeFrameDelivery(h.payload);
      }
    }
  }

  /** A whole frame by itself is delivered as its payload exactly within the cap. */
  lemma WholeFrameDelivery(data: Bytes)
    ensures Delivered(Frame(data)) == [data] <==> |data| <= MAX_FRAME_SIZE
  {
    DeliveredIsFramed(Frame(data));
    if |data| <= MAX_FRAME_SIZE {
      DeliveredCons(data, []);
      assert Frame(data) + [] == Frame(data);
    }
  }
}
