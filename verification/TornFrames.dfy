/** What a send that stops half way does to everything after it. */
module TornFrames {
  import opened Primitives
  import opened BigEndians
  import opened Framing

  // ----- the next frame -----

  /** What is added to a wire is read after what the wire left over. */
  lemma DeliveredAfter(wire: Bytes, more: Bytes)
    ensures Delivered(wire + more) == Delivered(wire) + Delivered(Leftover(wire) + more)
  {
    DeliveredIsFramed(wire);
    var ps, rest := Delivered(wire), Leftover(wire);
    assert wire + more == Frames(ps) + (rest + more) by { Regroup(Frames(ps), rest, more); }
    FramesAreDelivered(ps, rest + more);
  }

  /** Delivery of one payload means its frame is at the front. */
  lemma DeliveredFirst(wire: Bytes, q: Bytes)
    requires Delivered(wire) == [q]
    ensures Frame(q) <= wire
  {
    DeliveredIsFramed(wire);
    assert Frames([q]) == Frame(q) by { assert [q][1..] == []; }
  }

  /** A frame behind the wire is delivered after what was delivered before. */
  predicate GetsThrough(wire: Bytes, q: Bytes) {
    Delivered(wire + Frame(q)) == Delivered(wire) + [q]
  }

  /** The next frame gets through with any payload within the cap. */
  ghost predicate NextGetsThrough(wire: Bytes) {
    forall q :: |q| <= MAX_FRAME_SIZE ==> GetsThrough(wire, q)
  }

  lemma EmptyFrame(q: Bytes)
    requires q == []
    ensures Frame(q) == [0, 0, 0, 0]
  {
    assert BigEndian(0, 0) == [] && BigEndian(0, 1) == [0] && BigEndian(0, 2) == [0, 0] && BigEndian(0, 3) == [0, 0, 0];
  }

  lemma OneByteFrame(q: Bytes)
    requires |q| == 1
    ensures Frame(q) == [0, 0, 0, 1] + q
  {
    assert BigEndian(0, 0) == [] && BigEndian(0, 1) == [0] && BigEndian(0, 2) == [0, 0] && BigEndian(0, 3) == [0, 0, 0];
    assert BigEndian(1, 4) == BigEndian(0, 3) + [1];
  }

  /** No bytes can stand before both these frames and leave each of them in front. */
  lemma NoRoom(l: Bytes, a: Bytes, b: Bytes)
    requires l != [] && a == [0, 0, 0, 0] && b == [0, 0, 0, 1, 1]
    ensures !(a <= l + a && b <= l + b)
  {
    if |l| >= 4 {
      assert (l + a)[3] == l[3] == (l + b)[3];
    } else {
      assert (l + b)[3] == b[3 - |l|];
    }
  }

  lemma NothingLeftOver(l: Bytes, none: Bytes, one: Bytes)
    requires none == [] && one == [1]
    requires Delivered(l + Frame(none)) == [none] && Delivered(l + Frame(one)) == [one]
    ensures l == []
  {
    EmptyFrame(none);
    OneByteFrame(one);
    DeliveredFirst(l + Frame(none), none);
    DeliveredFirst(l + Frame(one), one);
    if l != [] { NoRoom(l, Frame(none), Frame(one)); }
  }

  lemma Through(wire: Bytes, q: Bytes)
    requires NextGetsThrough(wire) && |q| <= MAX_FRAME_SIZE
    ensures Delivered(Leftover(wire) + Frame(q)) == [q]
  {
    DeliveredAfter(wire, Frame(q));
    SamePrefix(Delivered(wire), Delivered(Leftover(wire) + Frame(q)), [q]);
  }

  lemma BothThrough(wire: Bytes, none: Bytes, one: Bytes)
    requires none == [] && one == [1] && NextGetsThrough(wire)
    ensures Leftover(wire) == []
  {
    Through(wire, none);
    Through(wire, one);
    NothingLeftOver(Leftover(wire), none, one);
  }

  lemma ThroughLeavesNothing(wire: Bytes)
    requires NextGetsThrough(wire)
    ensures Leftover(wire) == []
  {
    BothThrough(wire, [], [1]);
  }

  lemma NothingLeftGetsThrough(wire: Bytes, q: Bytes)
    requires Leftover(wire) == [] && |q| <= MAX_FRAME_SIZE
    ensures GetsThrough(wire, q)
  {
    DeliveredAfter(wire, Frame(q));
    WholeFrameDelivery(q);
    assert Leftover(wire) + Frame(q) == Frame(q);
  }

  /** On any wire, the next frame gets through for every payload exactly when the reader has nothing left over. */
  lemma NextGetsThroughExactly(wire: Bytes)
    ensures NextGetsThrough(wire) <==> Leftover(wire) == []
  {
    if NextGetsThrough(wire) { ThroughLeavesNothing(wire); }
    if Leftover(wire) == [] {
      forall q | |q| <= MAX_FRAME_SIZE ensures GetsThrough(wire, q) { NothingLeftGetsThrough(wire, q); }
    }
  }

  // ----- runs -----

  /** The reader has been given exactly what was sent whole. */
  predicate DeliversRight(c: Conn) { Delivered(c.wire) == Sent(c.sections) }

  /** Then one sender takes the lock, writes its whole frame and lets go. */
  function ThenSend(steps: seq<SendStep>, thread: nat, q: Bytes): seq<SendStep> {
    steps + [Acquire(thread, q)] + [Write(thread, |Frame(q)|)] + [Release(thread)]
  }

  /** Then one sender takes the lock, writes the first `n` bytes of its frame and gives up. */
  function ThenTear(steps: seq<SendStep>, thread: nat, p: Bytes, n: nat): seq<SendStep> {
    steps + [Acquire(thread, p)] + [Write(thread, n)] + [GiveUp(thread)]
  }

  /** The reader is right now, and will be after the next whole send, whoever sends whatever. */
  ghost predicate StaysRight(steps: seq<SendStep>) {
    && DeliversRight(SendAll(IDLE, steps))
    && forall thread, q :: |q| <= MAX_FRAME_SIZE ==> DeliversRight(SendAll(IDLE, ThenSend(steps, thread, q)))
  }

  lemma SendAllSnoc(c: Conn, steps: seq<SendStep>, step: SendStep)
    ensures SendAll(c, steps + [step]) == Send(SendAll(c, steps), step)
  {
    assert (steps + [step])[..|steps|] == steps;
  }

  lemma SendAllThree(c: Conn, steps: seq<SendStep>, a: SendStep, b: SendStep, d: SendStep)
    ensures SendAll(c, steps + [a] + [b] + [d]) == Send(Send(Send(SendAll(c, steps), a), b), d)
  {
    SendAllSnoc(c, steps, a);
    SendAllSnoc(c, steps + [a], b);
    SendAllSnoc(c, steps + [a] + [b], d);
  }

  /** A lock section that takes the lock, writes the first `n` bytes of its frame and ends. */
  lemma OneSection(c: Conn, t: nat, payload: Bytes, n: nat, last: SendStep)
    requires c.lock.None? && n <= |Frame(payload)|
    requires last == GiveUp(t) || (last == Release(t) && n == |Frame(payload)|)
    ensures Send(Send(Send(c, Acquire(t, payload)), Write(t, n)), last)
         == Conn(c.wire + Frame(payload)[..n], None, c.sections + [Section(payload, n)])
  {
    assert Frame(payload)[0..n] == Frame(payload)[..n];
  }

  lemma AfterWholeSend(steps: seq<SendStep>, thread: nat, q: Bytes)
    requires SendAll(IDLE, steps).lock.None?
    ensures
      var c, c' := SendAll(IDLE, steps), SendAll(IDLE, ThenSend(steps, thread, q));
      c'.wire == c.wire + Frame(q) && Sent(c'.sections) == Sent(c.sections) + [q]
  {
    var c := SendAll(IDLE, steps);
    SendAllThree(IDLE, steps, Acquire(thread, q), Write(thread, |Frame(q)|), Release(thread));
    OneSection(c, thread, q, |Frame(q)|, Release(thread));
    assert Frame(q)[..|Frame(q)|] == Frame(q);
    var ss := c.sections + [Section(q, |Frame(q)|)];
    assert ss[..|c.sections|] == c.sections;
  }

  /** Sections leave at least the whole frames on the wire, and nothing more exactly when none was torn. */
  lemma {:induction false} TornBytes(sections: seq<Section>)
    requires forall i :: 0 <= i < |sections| ==> sections[i].written <= |Frame(sections[i].payload)|
    ensures |SectionBytes(sections)| >= |Frames(Sent(sections))|
    ensures |SectionBytes(sections)| == |Frames(Sent(sections))| <==> Clean(sections)
  {
    if sections != [] {
      var front, s := sections[..|sections| - 1], sections[|sections| - 1];
      TornBytes(front);
      if Whole(s) {
        FramesAppend(Sent(front), [s.payload]);
        assert [s.payload][1..] == [] && Frames([s.payload]) == Frame(s.payload) + [] == Frame(s.payload);
      } else {
        assert Sent(front) + [] == Sent(front);
      }
      assert Clean(sections) <==> Clean(front) && (Whole(s) || s.written == 0) by {
        forall i | 0 <= i < |front| ensures front[i] == sections[i] {}
      }
    }
  }

  /** With the lock free and nothing left over, a reader that is right means that no section was torn. */
  lemma RightMeansClean(steps: seq<SendStep>)
    requires
      var c := SendAll(IDLE, steps);
      c.lock.None? && DeliversRight(c) && Leftover(c.wire) == []
    ensures Clean(SendAll(IDLE, steps).sections)
  {
    var c := SendAll(IDLE, steps);
    SendsAreSerialized(steps);
    DeliveredIsFramed(c.wire);
    assert Frames(Sent(c.sections)) + [] == Frames(Sent(c.sections));
    TornBytes(c.sections);
  }

  lemma CleanLeavesNothing(steps: seq<SendStep>)
    requires
      var c := SendAll(IDLE, steps);
      c.lock.None? && Clean(c.sections) && WithinCap(Sent(c.sections))
    ensures DeliversRight(SendAll(IDLE, steps)) && Leftover(SendAll(IDLE, steps).wire) == []
  {
    var c := SendAll(IDLE, steps);
    ReaderGetsWhatWasSent(steps);
    DeliveredIsFramed(c.wire);
    assert Delivered(c.wire) == Sent(c.sections) && InFlight(c) == [];
    assert |c.wire| == |Frames(Sent(c.sections))| + |Leftover(c.wire)| == |Frames(Sent(c.sections))|;
  }

  /** A whole send is right exactly when its frame gets through. */
  lemma SendRightExactly(steps: seq<SendStep>, thread: nat, q: Bytes)
    requires SendAll(IDLE, steps).lock.None? && DeliversRight(SendAll(IDLE, steps))
    ensures DeliversRight(SendAll(IDLE, ThenSend(steps, thread, q))) <==> GetsThrough(SendAll(IDLE, steps).wire, q)
  {
    AfterWholeSend(steps, thread, q);
  }

  lemma CleanStaysRight(steps: seq<SendStep>)
    requires
      var c := SendAll(IDLE, steps);
      c.lock.None? && Clean(c.sections) && WithinCap(Sent(c.sections))
    ensures StaysRight(steps)
  {
    CleanLeavesNothing(steps);
    forall thread, q | |q| <= MAX_FRAME_SIZE ensures DeliversRight(SendAll(IDLE, ThenSend(steps, thread, q))) {
      NothingLeftGetsThrough(SendAll(IDLE, steps).wire, q);
      SendRightExactly(steps, thread, q);
    }
  }

  lemma RightGetsThrough(steps: seq<SendStep>)
    requires SendAll(IDLE, steps).lock.None? && StaysRight(steps)
    ensures NextGetsThrough(SendAll(IDLE, steps).wire)
  {
    forall q | |q| <= MAX_FRAME_SIZE ensures GetsThrough(SendAll(IDLE, steps).wire, q) {
      assert DeliversRight(SendAll(IDLE, ThenSend(steps, 0, q)));
      SendRightExactly(steps, 0, q);
    }
  }

  /**
   After any interleaving that leaves the lock free: the reader is right, and stays right whatever is sent next
   within the cap, exactly when every section so far wrote its whole frame or nothing, and no frame beyond the cap.
   */
  lemma StaysRightExactly(steps: seq<SendStep>)
    requires SendAll(IDLE, steps).lock.None?
    ensures
      var c := SendAll(IDLE, steps);
      StaysRight(steps) <==> Clean(c.sections) && WithinCap(Sent(c.sections))
  {
    var c := SendAll(IDLE, steps);
    if Clean(c.sections) && WithinCap(Sent(c.sections)) { CleanStaysRight(steps); }
    if StaysRight(steps) {
      RightGetsThrough(steps);
      ThroughLeavesNothing(c.wire);
      RightMeansClean(steps);
      DeliveredIsFramed(c.wire);
    }
  }

  /** A torn section does no harm until something follows it, unless what came before or its own length is misread. */
  lemma TornLastExactly(steps: seq<SendStep>, n: nat)
    requires
      var c := SendAll(IDLE, steps);
      c.lock.None? && |c.sections| == n + 1 && Clean(c.sections[..n]) && !Whole(c.sections[n])
    ensures
      var c := SendAll(IDLE, steps);
      DeliversRight(c) <==> WithinCap(Sent(c.sections)) && Unread(c.sections[n].payload, c.sections[n].written)
  {
    var c := SendAll(IDLE, steps);
    var front, torn := c.sections[..n], c.sections[n];
    SendsAreSerialized(steps);
    CleanSectionsAreFrames(front);
    DeliveredIsFramed(c.wire);
    var rest := Frame(torn.payload)[..torn.written];
    assert c.wire == Frames(Sent(front)) + rest;
    assert Sent(c.sections) == Sent(front) == Sent(front) + [];
    if WithinCap(Sent(front)) {
      FramesAreDelivered(Sent(front), rest);
      CutFrameRead(torn.payload, torn.written);
      SamePrefix(Sent(front), Delivered(rest), []);
    }
  }

  // ----- beyond the cap -----

  /** A whole send beyond the cap makes the reader wrong at once, with nothing torn. */
  lemma OversizeMisdelivers(steps: seq<SendStep>, thread: nat, q: Bytes)
    requires SendAll(IDLE, steps).lock.None? && |q| > MAX_FRAME_SIZE
    ensures !DeliversRight(SendAll(IDLE, ThenSend(steps, thread, q)))
  {
    AfterWholeSend(steps, thread, q);
    var c' := SendAll(IDLE, ThenSend(steps, thread, q));
    DeliveredIsFramed(c'.wire);
    assert Sent(c'.sections)[|Sent(c'.sections)| - 1] == q;
  }

  /** When the length the header holds is beyond the cap as well, nothing behind the frame is ever delivered. */
  lemma OversizeStopsReader(wire: Bytes, q: Bytes, more: Bytes)
    requires Leftover(wire) == [] && |q| % U32_RANGE > MAX_FRAME_SIZE
    ensures Delivered(wire + (Frame(q) + more)) == Delivered(wire)
  {
    DeliveredAfter(wire, Frame(q) + more);
    HeaderReads(|q|);
    var w := Frame(q) + more;
    assert Leftover(wire) + w == w && w[..4] == Header(|q|);
  }

  // ----- what is read instead -----

  /** The header the reader sees when a frame for `p` stopped after `k` bytes and a frame for `q` follows. */
  function SeenHeader(p: Bytes, q: Bytes, k: nat): (r: Bytes)
    requires 0 < k < |Frame(p)|
    ensures |r| == 4
  {
    if k < 4 then Header(|p|)[..k] + Header(|q|)[..4 - k] else Header(|p|)
  }

  lemma HeaderSeen(p: Bytes, q: Bytes, k: nat)
    requires 0 < k < |Frame(p)|
    ensures (Frame(p)[..k] + Frame(q))[..4] == SeenHeader(p, q, k)
  {
    if k < 4 { assert Frame(p)[..k] == Header(|p|)[..k] && Frame(q)[..4 - k] == Header(|q|)[..4 - k]; }
  }

  lemma TornIsNotSent(sections: seq<Section>, s: Section)
    requires !Whole(s)
    ensures Sent(sections + [s]) == Sent(sections)
  {
    var ss := sections + [s];
    assert ss[..|sections|] == sections && Sent(sections) + [] == Sent(sections);
  }

  lemma AfterTear(steps: seq<SendStep>, thread: nat, p: Bytes, n: nat)
    requires SendAll(IDLE, steps).lock.None? && n < |Frame(p)|
    ensures
      var c, c' := SendAll(IDLE, steps), SendAll(IDLE, ThenTear(steps, thread, p, n));
      c'.wire == c.wire + Frame(p)[..n] && Sent(c'.sections) == Sent(c.sections) && c'.lock.None?
  {
    var c := SendAll(IDLE, steps);
    SendAllThree(IDLE, steps, Acquire(thread, p), Write(thread, n), GiveUp(thread));
    OneSection(c, thread, p, n, GiveUp(thread));
    TornIsNotSent(c.sections, Section(p, n));
  }

  lemma TornFrameRead(p: Bytes, q: Bytes, k: nat)
    requires 0 < k < |Frame(p)|
    ensures
      var w, n := Frame(p)[..k] + Frame(q), FromBigEndian(SeenHeader(p, q, k));
      && Delivered(w) == (if n > MAX_FRAME_SIZE || |w| < 4 + n then [] else [w[4..4 + n]] + Delivered(w[4 + n..]))
      && (n != |q| ==> Delivered(w) != [q])
  {
    HeaderSeen(p, q, k);
    var w, n := Frame(p)[..k] + Frame(q), FromBigEndian(SeenHeader(p, q, k));
    if n != |q| && n <= MAX_FRAME_SIZE && 4 + n <= |w| { OtherFirst(w[4..4 + n], Delivered(w[4 + n..]), q); }
  }

  lemma OtherFirst(x: Bytes, rest: seq<Bytes>, q: Bytes)
    requires |x| != |q|
    ensures [x] + rest != [q]
  {
    assert ([x] + rest)[0] == x;
  }

  /**
   After any run that leaves nothing over, a frame cut anywhere and then a whole frame: the reader takes the
   length from the mixed header. So a frame cut after its header swallows the start of the next one, or all of it
   and waits for more, and any length but the sent one makes the delivery wrong.
   */
  lemma TornFrameMisdelivers(steps: seq<SendStep>, p: Bytes, q: Bytes, k: nat)
    requires SendAll(IDLE, steps).lock.None? && Leftover(SendAll(IDLE, steps).wire) == []
    requires DeliversRight(SendAll(IDLE, steps)) && 0 < k < |Frame(p)|
    ensures
      var c, c' := SendAll(IDLE, steps), SendAll(IDLE, ThenSend(ThenTear(steps, 1, p, k), 2, q));
      var w, n := Frame(p)[..k] + Frame(q), FromBigEndian(SeenHeader(p, q, k));
      && Sent(c'.sections) == Sent(c.sections) + [q]
      && Delivered(c'.wire) == Delivered(c.wire)
           + (if n > MAX_FRAME_SIZE || |w| < 4 + n then [] else [w[4..4 + n]] + Delivered(w[4 + n..]))
      && (k >= 4 ==> n == |p| % U32_RANGE)
      && (n != |q| ==> !DeliversRight(c'))
  {
    var c, torn := SendAll(IDLE, steps), ThenTear(steps, 1, p, k);
    var w, n := Frame(p)[..k] + Frame(q), FromBigEndian(SeenHeader(p, q, k));
    AfterTear(steps, 1, p, k);
    AfterWholeSend(torn, 2, q);
    DeliveredAfter(c.wire, w);
    assert Leftover(c.wire) + w == w;
    assert c.wire + Frame(p)[..k] + Frame(q) == c.wire + w by { Regroup(c.wire, Frame(p)[..k], Frame(q)); }
    TornFrameRead(p, q, k);
    HeaderReads(|p|);
    if Delivered(c.wire) + Delivered(w) == Sent(c.sections) + [q] { SamePrefix(Delivered(c.wire), Delivered(w), [q]); }
  }
}
