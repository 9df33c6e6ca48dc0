/** What a socket that cuts its stream anywhere does to a request, and when that cannot be seen. */
module Chunking {
  import opened Primitives
  import opened Text
  import opened LossyText
  import opened Http
  import opened Ingress

  // ----- chunking -----

  /** A stream that delivers these pieces, then whatever comes after. */
  function Pieces(chunks: seq<Bytes>, after: seq<Read>): seq<Read> {
    if chunks == [] then after else [Data(chunks[0])] + Pieces(chunks[1..], after)
  }

  /** Any bytes up to their first blank line. */
  predicate EndsAtBlankLine(head: Bytes) {
    |head| >= 4 && TerminatorAt(head, |head| - 4) && forall i :: 0 <= i < |head| - 4 ==> !TerminatorAt(head, i)
  }

  /** A head that is never over the bound before it is complete. */
  predicate WellFormedHead(head: Bytes) {
    EndsAtBlankLine(head) && |head| <= MAX_HEAD_BYTES + 1
  }

  /** A prefix of the request has a blank line exactly when it has the whole head. */
  lemma TerminatorSeenExactly(head: Bytes, body: Bytes, buf: Bytes)
    requires EndsAtBlankLine(head) && buf <= head + body
    ensures HasTerminator(buf) <==> |buf| >= |head|
  {
    var all := head + body;
    if |buf| >= |head| {
      assert TerminatorAt(buf, |head| - 4);
    }
    forall i | 0 <= i < |buf| && |buf| < |head| ensures !TerminatorAt(buf, i) {
      if i < |head| - 4 { assert !TerminatorAt(head, i); }
      assert forall k :: 0 <= k < |buf| ==> buf[k] == all[k];
    }
  }

  /** The head loop stops with the whole head and some of the body, and leaves the rest of the pieces. */
  lemma {:induction false} HeadLoopStops(head: Bytes, body: Bytes, buf: Bytes, chunks: seq<Bytes>, after: seq<Read>)
    returns (got: Bytes, left: seq<Bytes>)
    requires WellFormedHead(head) && |buf| < |head| && buf + Concat(chunks) == head + body
    ensures ReadHead(Pieces(chunks, after), buf) == HeadOk(head + got, Pieces(left, after))
    ensures got + Concat(left) == body
    decreases |chunks|
  {
    assert chunks != [];
    var next := buf + chunks[0];
    var stream := Pieces(chunks, after);
    assert stream[0] == Data(chunks[0]) && stream[1..] == Pieces(chunks[1..], after);
    assert next + Concat(chunks[1..]) == head + body;
    TerminatorSeenExactly(head, body, next);
    if |next| >= |head| {
      got, left := next[|head|..], chunks[1..];
      assert next[..|head|] == (head + body)[..|head|] == head;
      assert next == head + got;
      assert got + Concat(left) == (head + body)[|head|..] == body;
    } else {
      got, left := HeadLoopStops(head, body, next, chunks[1..], after);
    }
  }

  /** The body loop gathers the same bytes however they are cut into pieces. */
  lemma {:induction false} BodyLoopGathers(body: Bytes, got: Bytes, left: seq<Bytes>, after: seq<Read>, n: nat)
    requires got + Concat(left) == body
    ensures ReadUpTo(Pieces(left, after), got, n) == ReadUpTo(after, body, n)
    decreases |left|
  {
    if left == [] {
      assert got == body;
    } else if |got| >= n {
      assert |body| >= n && Truncate(got, n) == got[..n] == body[..n] == Truncate(body, n);
    } else {
      var stream := Pieces(left, after);
      assert stream[0] == Data(left[0]) && stream[1..] == Pieces(left[1..], after);
      assert (got + left[0]) + Concat(left[1..]) == body;
      BodyLoopGathers(body, got + left[0], left[1..], after, n);
    }
  }

  // ----- the head and what arrives with it -----

  function RequestLine(head: Bytes): string { SplitHead(Lossy(head)).0 }

  function Headers(head: Bytes): string { SplitHead(Lossy(head)).1 }

  /** A blank line of the text is one of the bytes: with the only one at the end, so is the text's. */
  lemma {:induction false} BlankOnlyAtEnd(b: Bytes, i: nat)
    requires forall j :: 0 <= j < |b| && TerminatorAt(b, j) ==> j + 4 == |b|
    requires BlankLineAt(Lossy(b), i)
    ensures i + 4 == |Lossy(b)|
    decreases |b|
  {
    var d := NextChar(b);
    var rest := b[d.used..];
    assert Lossy(b) == [d.c] + Lossy(rest);
    if i == 0 {
      BlankAtStart(b);
    } else {
      forall j | 0 <= j < |rest| && TerminatorAt(rest, j) ensures j + 4 == |rest| {
        assert TerminatorAt(b, j + d.used);
      }
      BlankOnlyAtEnd(rest, i - 1);
    }
  }

  /** Text that starts with an ASCII character starts with its byte. */
  lemma AsciiAtStart(b: Bytes, c: char)
    requires Lossy(b) != "" && Lossy(b)[0] == c && c as int < 0x80
    ensures b != [] && b[0] == c as int && Lossy(b[1..]) == Lossy(b)[1..]
  {
    NextCharAscii(b);
  }

  lemma BlankAtStart(b: Bytes)
    requires BlankLineAt(Lossy(b), 0)
    ensures TerminatorAt(b, 0) && (|b| == 4 ==> |Lossy(b)| == 4)
  {
    var s := Lossy(b);
    AsciiAtStart(b, '\r');
    AsciiAtStart(b[1..], '\n');
    AsciiAtStart(b[1..][1..], '\r');
    AsciiAtStart(b[1..][1..][1..], '\n');
    assert b[1..][1..][1..][1..] == b[4..];
    assert |b| == 4 ==> b[4..] == [];
  }

  const BLANK: string := ['\r', '\n', '\r', '\n']

  /** ASCII in the middle keeps what is before it and what is behind it apart. */
  lemma AsciiBetween(most: Bytes, end: Bytes, got: Bytes, text: string)
    requires end != [] && IsAscii(end) && AsciiText(end) == text
    ensures Lossy(most + end + got) == Lossy(most) + text + Lossy(got)
  {
    LossyBefore(most, end + got);
    LossyAscii(end, got);
    assert most + end + got == most + (end + got);
    assert Lossy(most) + text + Lossy(got) == Lossy(most) + (text + Lossy(got));
  }

  lemma BlankEnd(head: Bytes, end: Bytes)
    requires WellFormedHead(head) && end == head[|head| - 4..]
    ensures IsAscii(end) && AsciiText(end) == BLANK
  {
    assert end[0] == 13 && end[1] == 10 && end[2] == 13 && end[3] == 10;
  }

  /** The text of a head ends with a blank line, whatever its bytes are. */
  lemma TextOfHead(head: Bytes, got: Bytes)
    requires WellFormedHead(head)
    ensures Lossy(head + got) == Lossy(head) + Lossy(got)
    ensures |Lossy(head)| >= 4 && Lossy(head)[|Lossy(head)| - 4..] == BLANK
  {
    var most, end := head[..|head| - 4], head[|head| - 4..];
    assert most + end == head;
    BlankEnd(head, end);
    AsciiBetween(most, end, got, BLANK);
    AsciiAtEnd(most, end, BLANK);
    EndsWith(Lossy(most), BLANK, Lossy(head));
  }

  lemma AsciiAtEnd(most: Bytes, end: Bytes, text: string)
    requires end != [] && IsAscii(end) && AsciiText(end) == text
    ensures Lossy(most + end) == Lossy(most) + text
  {
    LossyBefore(most, end);
    AsciiWidth(end);
  }

  lemma EndsWith(a: string, b: string, s: string)
    requires s == a + b
    ensures |s| >= |b| && s[|s| - |b|..] == b
  {}

  lemma OnlyBlankLine(text: string, more: string)
    requires |text| >= 4 && text[|text| - 4..] == BLANK
    requires forall k :: 0 <= k < |text| && BlankLineAt(text, k) ==> k + 4 == |text|
    ensures FindBlankLine(text + more, 0) == Some(|text| - 4)
  {
    var all, end := text + more, |text| - 4;
    assert text[end..][0] == text[end] && text[end..][1] == text[end + 1];
    assert text[end..][2] == text[end + 2] && text[end..][3] == text[end + 3];
    FindBlankLineFirst(all, 0);
    assert BlankLineAt(all, end);
    forall k | 0 <= k < end ensures !BlankLineAt(all, k) { assert !BlankLineAt(text, k); }
  }

  lemma BlankLineFound(head: Bytes, text: string, more: string)
    requires WellFormedHead(head) && text == Lossy(head)
    ensures |text| >= 4 && FindBlankLine(text + more, 0) == Some(|text| - 4)
  {
    TextOfHead(head, []);
    forall k | 0 <= k < |text| && BlankLineAt(text, k) ensures k + 4 == |text| { BlankOnlyAtEnd(head, k); }
    OnlyBlankLine(text, more);
  }

  /** Text after the head changes neither where the request line ends nor which headers come first. */
  lemma TextSplits(text: string, more: string)
    requires |text| >= 4 && text[|text| - 4..] == BLANK
    ensures SplitHead(text + more) == (SplitHead(text).0, SplitHead(text).1 + more)
    ensures var h := SplitHead(text).1; h != "" && h[|h| - 1] == '\n'
  {
    var all, end := text + more, |text| - 4;
    assert text[end..][0] == text[end] && text[end..][1] == text[end + 1] && text[end..][3] == text[end + 3];
    FindCrLfFirst(text, 0);
    FindCrLfFirst(all, 0);
    assert LineBreakAt(text, end);
    var i := FindCrLf(text, 0).value;
    assert LineBreakAt(all, i);
    var j := FindCrLf(all, 0).value;
    assert j <= i && LineBreakAt(text, j);
    assert all[..i] == text[..i] && all[i + 2..] == text[i + 2..] + more;
  }

  lemma HeadSplits(head: Bytes, more: string)
    requires WellFormedHead(head)
    ensures SplitHead(Lossy(head) + more) == (RequestLine(head), Headers(head) + more)
    ensures Headers(head) != "" && Headers(head)[|Headers(head)| - 1] == '\n'
  {
    TextOfHead(head, []);
    TextSplits(Lossy(head), more);
  }

  lemma BlankLineBytes(most: string, blank: string)
    requires blank == BLANK
    ensures |Utf8(most + blank)| == |Utf8(most)| + 4
  {
    Utf8Concat(most, blank);
    AsciiBytes(blank);
  }

  lemma EndOffset(text: string, more: string)
    requires |text| >= 4 && text[|text| - 4..] == BLANK
    ensures ByteOffset(text + more, |text| - 4) + 4 == |Utf8(text)|
  {
    var most, blank := text[..|text| - 4], text[|text| - 4..];
    assert (text + more)[..|text| - 4] == most && text == most + blank;
    BlankLineBytes(most, blank);
  }

  /** Where the body is taken to start: the drift of the head too late, as far as bytes have arrived. */
  lemma BodyStart(head: Bytes, got: Bytes)
    requires WellFormedHead(head)
    ensures HeadLength(Lossy(head + got), head + got) == |head| + if Drift(head) <= |got| then Drift(head) else |got|
  {
    TextOfHead(head, got);
    BlankLineFound(head, Lossy(head), Lossy(got));
    EndOffset(Lossy(head), Lossy(got));
  }

  /** The body is found where it starts exactly if the head decodes to its own length or nothing came with it. */
  lemma BodyStartsExactly(head: Bytes, got: Bytes)
    requires WellFormedHead(head)
    ensures HeadLength(Lossy(head + got), head + got) == |head| <==> Drift(head) == 0 || got == []
  {
    BodyStart(head, got);
  }

  /** The part of `got` that is taken for the start of the body. */
  function Kept(head: Bytes, got: Bytes): Bytes {
    if Drift(head) <= |got| then got[Drift(head)..] else []
  }

  /** The header search runs on into the part of the body that arrived with the head. */
  lemma HeadServed(head: Bytes, got: Bytes, rest: seq<Read>, stopping: bool)
    requires WellFormedHead(head)
    ensures
      var headers := Headers(head) + Lossy(got);
      ServeHead(head + got, rest, stopping)
      == Reply(RequestLine(head), Declared(headers), MsgPackDeclared(headers), Kept(head, got), rest, stopping)
  {
    TextOfHead(head, got);
    HeadSplits(head, Lossy(got));
    BodyStart(head, got);
    KeptBytes(head, got, HeadLength(Lossy(head + got), head + got));
  }

  lemma KeptBytes(head: Bytes, got: Bytes, n: nat)
    requires n == |head| + if Drift(head) <= |got| then Drift(head) else |got|
    ensures (head + got)[n..] == Kept(head, got)
  {}

  lemma ReplyGathers(line: string, declared: Option<nat>, msgPack: bool, body: Bytes, got: Bytes, left: seq<Bytes>,
                     after: seq<Read>, stopping: bool)
    requires got + Concat(left) == body
    ensures Reply(line, declared, msgPack, got, Pieces(left, after), stopping)
         == Reply(line, declared, msgPack, body, after, stopping)
  {
    if declared.Some? { BodyLoopGathers(body, got, left, after, declared.value); }
  }

  lemma NothingDropped(head: Bytes, got: Bytes, left: seq<Bytes>, body: Bytes)
    requires got + Concat(left) == body && Drift(head) == 0
    ensures Kept(head, got) + Concat(left) == body
  {}

  /** A piecewise delivery is answered as if some text stood behind the headers, and on some gathered bytes. */
  lemma PiecesServed(head: Bytes, body: Bytes, chunks: seq<Bytes>, after: seq<Read>, stopping: bool)
    returns (more: string, gathered: Bytes)
    requires WellFormedHead(head) && Concat(chunks) == head + body
    ensures Drift(head) == 0 ==> gathered == body
    ensures
      var headers := Headers(head) + more;
      Serve(Pieces(chunks, after), stopping)
      == Reply(RequestLine(head), Declared(headers), MsgPackDeclared(headers), gathered, after, stopping)
  {
    assert [] + Concat(chunks) == head + body;
    var got, left := HeadLoopStops(head, body, [], chunks, after);
    HeadServed(head, got, Pieces(left, after), stopping);
    more, gathered := Lossy(got), Kept(head, got) + Concat(left);
    if Drift(head) == 0 { NothingDropped(head, got, left, body); }
    var headers := Headers(head) + more;
    ReplyGathers(RequestLine(head), Declared(headers), MsgPackDeclared(headers), gathered, Kept(head, got), left, after,
                 stopping);
  }

  // ----- when the head alone decides -----

  /** The answer to a request whose head is read by itself. */
  function Answer(head: Bytes, body: Bytes, after: seq<Read>, stopping: bool): Response {
    Reply(RequestLine(head), Declared(Headers(head)), MsgPackDeclared(Headers(head)), body, after, stopping)
  }

  /** The declared length asks for no bytes of the body. */
  predicate AsksNoBody(declared: Option<nat>) {
    match declared case None => true case Some(n) => n == 0 || n > MAX_INGRESS_BODY_BYTES
  }

  /** The head answers every question the gates go on to ask. */
  predicate SettledText(line: string, headers: string, stopping: bool) {
    match MethodAndPath(line)
    case None => true
    case Some(request) =>
      && HeaderValue(headers, "content-length").Some?
      && (|| request.0 != "POST" || request.1 != INGRESS_PATH || stopping
          || (match Declared(headers) case Some(n) => n > MAX_INGRESS_BODY_BYTES case None => false)
          || HeaderValue(headers, "content-type").Some?)
  }

  /** It also puts the body where it is, if any of it is asked for. */
  predicate Settled(head: Bytes, stopping: bool) {
    && SettledText(RequestLine(head), Headers(head), stopping)
    && (MethodAndPath(RequestLine(head)).None? || Drift(head) == 0 || AsksNoBody(Declared(Headers(head))))
  }

  /** The content type is asked for last but the length. */
  lemma TypeAskedLate(line: string, declared: Option<nat>, one: bool, other: bool, body: Bytes, after: seq<Read>,
                      stopping: bool)
    requires
      match MethodAndPath(line)
      case None => true
      case Some(request) =>
        || one == other || request.0 != "POST" || request.1 != INGRESS_PATH || stopping
        || (match declared case Some(n) => n > MAX_INGRESS_BODY_BYTES case None => false)
    ensures Reply(line, declared, one, body, after, stopping) == Reply(line, declared, other, body, after, stopping)
  {}

  lemma BodyUnused(line: string, declared: Option<nat>, msgPack: bool, one: Bytes, other: Bytes, after: seq<Read>,
                   stopping: bool)
    requires one == other || AsksNoBody(declared) || MethodAndPath(line).None?
    ensures Reply(line, declared, msgPack, one, after, stopping)
         == Reply(line, declared, msgPack, other, after, stopping)
  {}

  lemma SettledReply(line: string, headers: string, more: string, body: Bytes, after: seq<Read>, stopping: bool)
    requires headers != "" && headers[|headers| - 1] == '\n' && SettledText(line, headers, stopping)
    ensures Reply(line, Declared(headers + more), MsgPackDeclared(headers + more), body, after, stopping)
         == Reply(line, Declared(headers), MsgPackDeclared(headers), body, after, stopping)
  {
    if MethodAndPath(line).Some? {
      LengthStable(headers, more);
      if HeaderValue(headers, "content-type").Some? { TypeStable(headers, more); }
      TypeAskedLate(line, Declared(headers), MsgPackDeclared(headers + more), MsgPackDeclared(headers), body, after,
                    stopping);
    }
  }

  lemma LengthStable(headers: string, more: string)
    requires headers != "" && headers[|headers| - 1] == '\n' && HeaderValue(headers, "content-length").Some?
    ensures Declared(headers + more) == Declared(headers)
  {
    HeaderValueStable(headers, more, "content-length");
  }

  lemma TypeStable(headers: string, more: string)
    requires headers != "" && headers[|headers| - 1] == '\n' && HeaderValue(headers, "content-type").Some?
    ensures MsgPackDeclared(headers + more) == MsgPackDeclared(headers)
  {
    HeaderValueStable(headers, more, "content-type");
  }

  lemma HeadersEnd(head: Bytes)
    requires WellFormedHead(head)
    ensures Headers(head) != "" && Headers(head)[|Headers(head)| - 1] == '\n'
  {
    HeadSplits(head, "");
  }

  lemma SettledAnswer(line: string, headers: string, more: string, gathered: Bytes, body: Bytes, after: seq<Read>,
                      stopping: bool)
    requires headers != "" && headers[|headers| - 1] == '\n' && SettledText(line, headers, stopping)
    requires gathered == body || AsksNoBody(Declared(headers)) || MethodAndPath(line).None?
    ensures Reply(line, Declared(headers + more), MsgPackDeclared(headers + more), gathered, after, stopping)
         == Reply(line, Declared(headers), MsgPackDeclared(headers), body, after, stopping)
  {
    SettledReply(line, headers, more, gathered, after, stopping);
    BodyUnused(line, Declared(headers), MsgPackDeclared(headers), gathered, body, after, stopping);
  }

  lemma SettledAs(head: Bytes, body: Bytes, more: string, gathered: Bytes, after: seq<Read>, stopping: bool)
    requires WellFormedHead(head) && Settled(head, stopping) && (Drift(head) == 0 ==> gathered == body)
    ensures
      var headers := Headers(head) + more;
      Reply(RequestLine(head), Declared(headers), MsgPackDeclared(headers), gathered, after, stopping)
      == Answer(head, body, after, stopping)
  {
    HeadersEnd(head);
    SettledAnswer(RequestLine(head), Headers(head), more, gathered, body, after, stopping);
  }

  lemma SettledServed(head: Bytes, body: Bytes, chunks: seq<Bytes>, after: seq<Read>, stopping: bool)
    requires WellFormedHead(head) && Concat(chunks) == head + body && Settled(head, stopping)
    ensures Serve(Pieces(chunks, after), stopping) == Answer(head, body, after, stopping)
  {
    var more, gathered := PiecesServed(head, body, chunks, after, stopping);
    SettledAs(head, body, more, gathered, after, stopping);
  }

  /**
   A request to the ingress path with both headers, whose body is as long as declared, delivers exactly the
   declared bytes, as in section 6.2 of RFC 9112, for every way of cutting it and whatever comes behind it.
   */
  lemma RequestDelivers(head: Bytes, body: Bytes, n: nat, chunks: seq<Bytes>, after: seq<Read>)
    requires WellFormedHead(head) && Drift(head) == 0 && Concat(chunks) == head + body
    requires MethodAndPath(RequestLine(head)) == Some(("POST", INGRESS_PATH)) && MsgPackDeclared(Headers(head))
    requires Declared(Headers(head)) == Some(n) && n <= MAX_INGRESS_BODY_BYTES && n <= |body|
    ensures Serve(Pieces(chunks, after), false) == Submit(body[..n])
  {
    HeadersNamed(Headers(head));
    SettledServed(head, body, chunks, after, false);
    SubmitsDeclared(RequestLine(head), n, body, after);
  }

  lemma HeadersNamed(headers: string)
    ensures Declared(headers).Some? ==> HeaderValue(headers, "content-length").Some?
    ensures MsgPackDeclared(headers) ==> HeaderValue(headers, "content-type").Some?
  {}

  lemma SubmitsDeclared(line: string, n: nat, body: Bytes, after: seq<Read>)
    requires MethodAndPath(line) == Some(("POST", INGRESS_PATH)) && n <= MAX_INGRESS_BODY_BYTES && n <= |body|
    ensures Reply(line, Some(n), true, body, after, false) == Submit(body[..n])
  {
    assert Truncate(body, n) == body[..n];
  }

  // ----- two deliveries that part at the end of the head -----

  /** One byte at a time. */
  function Singles(b: Bytes): (chunks: seq<Bytes>)
    ensures Concat(chunks) == b && Readable(chunks)
  {
    if b == [] then [] else [[b[0]]] + Singles(b[1..])
  }

  /** What the read buffer can give: pieces that are not empty and fit it. */
  predicate Readable(chunks: seq<Bytes>) {
    forall i :: 0 <= i < |chunks| ==> 1 <= |chunks[i]| <= READ_BYTES
  }

  /** The head byte by byte, its last byte together with `got`, then the rest. */
  function Cut(head: Bytes, got: Bytes, left: seq<Bytes>): seq<Bytes>
    requires head != []
  {
    Singles(head[..|head| - 1]) + ([[head[|head| - 1]] + got] + left)
  }

  lemma CutDelivers(head: Bytes, got: Bytes, left: seq<Bytes>)
    requires head != [] && |got| < READ_BYTES && Readable(left)
    ensures Concat(Cut(head, got, left)) == head + (got + Concat(left)) && Readable(Cut(head, got, left))
  {
    var piece := [head[|head| - 1]] + got;
    ConcatAppend(Singles(head[..|head| - 1]), [piece] + left);
    assert ([piece] + left)[1..] == left;
    assert head[..|head| - 1] + (piece + Concat(left)) == head + (got + Concat(left));
  }

  /** Pieces of an unfinished head only fill the buffer, up to the bound. */
  lemma {:induction false} BufferFills(head: Bytes, buf: Bytes, first: seq<Bytes>, left: seq<Bytes>, after: seq<Read>)
    requires EndsAtBlankLine(head) && buf + Concat(first) <= head && |buf + Concat(first)| < |head|
    requires |buf + Concat(first)| <= MAX_HEAD_BYTES
    ensures ReadHead(Pieces(first + left, after), buf) == ReadHead(Pieces(left, after), buf + Concat(first))
    decreases |first|
  {
    if first == [] {
      assert first + left == left && buf + Concat(first) == buf;
    } else {
      var chunks, next := first + left, buf + first[0];
      var stream := Pieces(chunks, after);
      assert chunks[1..] == first[1..] + left;
      assert stream[0] == Data(first[0]) && stream[1..] == Pieces(first[1..] + left, after);
      assert next + Concat(first[1..]) == buf + Concat(first) && next <= buf + Concat(first);
      assert head == head + [];
      TerminatorSeenExactly(head, [], next);
      BufferFills(head, next, first[1..], left, after);
    }
  }

  lemma LastOfHead(head: Bytes, buf: Bytes, piece: Bytes, got: Bytes, left: seq<Bytes>, after: seq<Read>)
    requires WellFormedHead(head) && buf + piece == head + got
    ensures ReadHead(Pieces([piece] + left, after), buf) == HeadOk(head + got, Pieces(left, after))
  {
    var stream := Pieces([piece] + left, after);
    assert ([piece] + left)[1..] == left;
    assert stream[0] == Data(piece) && stream[1..] == Pieces(left, after);
    TerminatorSeenExactly(head, got, head + got);
  }

  lemma ReadThrough(head: Bytes, buf: Bytes, first: seq<Bytes>, piece: Bytes, got: Bytes, left: seq<Bytes>,
                    after: seq<Read>)
    requires WellFormedHead(head) && buf == [] && Concat(first) == head[..|head| - 1]
    requires piece == [head[|head| - 1]] + got
    ensures ReadHead(Pieces(first + ([piece] + left), after), buf) == HeadOk(head + got, Pieces(left, after))
  {
    var most := head[..|head| - 1];
    assert buf + Concat(first) == most && most <= head;
    assert most + piece == head + got;
    BufferFills(head, buf, first, [piece] + left, after);
    LastOfHead(head, most, piece, got, left, after);
  }

  lemma CutRead(head: Bytes, got: Bytes, left: seq<Bytes>, after: seq<Read>)
    requires WellFormedHead(head)
    ensures ReadHead(Pieces(Cut(head, got, left), after), []) == HeadOk(head + got, Pieces(left, after))
  {
    ReadThrough(head, [], Singles(head[..|head| - 1]), [head[|head| - 1]] + got, got, left, after);
  }

  lemma CutServed(head: Bytes, got: Bytes, headers: string, left: seq<Bytes>, body: Bytes, after: seq<Read>,
                  stopping: bool)
    requires WellFormedHead(head) && headers == Headers(head) + Lossy(got) && body == Kept(head, got) + Concat(left)
    ensures Serve(Pieces(Cut(head, got, left), after), stopping)
         == Reply(RequestLine(head), Declared(headers), MsgPackDeclared(headers), body, after, stopping)
  {
    CutRead(head, got, left, after);
    HeadServed(head, got, Pieces(left, after), stopping);
    ReplyGathers(RequestLine(head), Declared(headers), MsgPackDeclared(headers), body, Kept(head, got), left, after,
                 stopping);
  }

  lemma NothingMore(headers: string, got: Bytes)
    requires got == []
    ensures headers == headers + Lossy(got)
  {}

  lemma OnePiece(got: Bytes, body: Bytes)
    requires got == []
    ensures body == got + Concat([body])
  {
    assert [body][1..] == [];
  }

  /** The body arrives after the head. */
  lemma Apart(head: Bytes, body: Bytes, left: seq<Bytes>, after: seq<Read>, stopping: bool)
    requires WellFormedHead(head) && Concat(left) == body
    ensures Serve(Pieces(Cut(head, [], left), after), stopping) == Answer(head, body, after, stopping)
  {
    var got: Bytes := [];
    NothingMore(Headers(head), got);
    assert body == Kept(head, got) + Concat(left) by { assert Kept(head, got) == []; }
    CutServed(head, got, Headers(head), left, body, after, stopping);
  }

  /** The body arrives with the end of the head. */
  lemma Together(head: Bytes, text: string, after: seq<Read>, stopping: bool) returns (body: Bytes)
    requires WellFormedHead(head)
    ensures
      var headers := Headers(head) + text;
      Serve(Pieces(Cut(head, Utf8(text), []), after), stopping)
      == Reply(RequestLine(head), Declared(headers), MsgPackDeclared(headers), body, after, stopping)
  {
    LossyUtf8(text);
    body := Kept(head, Utf8(text));
    assert body + Concat([]) == body;
    CutServed(head, Utf8(text), Headers(head) + text, [], body, after, stopping);
  }

  // ----- what a late header line does -----

  lemma SevenNines(v: string)
    requires |v| == 7 && forall i :: 0 <= i < 7 ==> v[i] == '9'
    ensures Trimmed(v) && '\n' !in v && ParseUsize(Trim(v)) == Some(9_999_999)
  {
    assert Digits(v[7..], 9_999_999) == Some(9_999_999);
    assert v[6..][1..] == v[7..] && v[5..][1..] == v[6..] && v[4..][1..] == v[5..] && v[3..][1..] == v[4..];
    assert v[2..][1..] == v[3..] && v[1..][1..] == v[2..];
    assert Digits(v[6..], 999_999) == Digits(v[7..], 9_999_999);
    assert Digits(v[5..], 99_999) == Digits(v[6..], 999_999);
    assert Digits(v[4..], 9_999) == Digits(v[5..], 99_999);
    assert Digits(v[3..], 999) == Digits(v[4..], 9_999);
    assert Digits(v[2..], 99) == Digits(v[3..], 999);
    assert Digits(v[1..], 9) == Digits(v[2..], 99);
    assert Digits(v, 0) == Digits(v[1..], 9);
  }

  lemma LateLength(name: string, v: string)
    requires name == "content-length" && |v| == 7 && forall i :: 0 <= i < 7 ==> v[i] == '9'
    ensures Declared(Line(name, v)) == Some(9_999_999)
  {
    SevenNines(v);
    LineGivesHeader(name, v);
  }

  lemma MsgPackType(v: string)
    requires v == "application/msgpack"
    ensures Trimmed(v) && '\n' !in v && StartsWith(LowerAll(v), "application/msgpack")
  {
    assert forall i :: 0 <= i < |v| ==> LowerAll(v)[i] == v[i];
    assert LowerAll(v) == v;
  }

  lemma LateType(name: string, v: string)
    requires name == "content-type" && v == "application/msgpack"
    ensures MsgPackDeclared(Line(name, v))
  {
    MsgPackType(v);
    LineGivesHeader(name, v);
  }

  lemma TooLargeExactly(line: string, declared: Option<nat>, msgPack: bool, body: Bytes, after: seq<Read>,
                        stopping: bool)
    requires MethodAndPath(line).Some?
    ensures Reply(line, declared, msgPack, body, after, stopping) == Status(413)
       <==> declared.Some? && declared.value > MAX_INGRESS_BODY_BYTES
  {}

  lemma LateLengthDeclared(headers: string, name: string, v: string)
    requires name == "content-length" && |v| == 7 && forall i :: 0 <= i < 7 ==> v[i] == '9'
    requires headers != "" && headers[|headers| - 1] == '\n' && HeaderValue(headers, name).None?
    ensures Declared(headers + Line(name, v)) == Some(9_999_999) && Declared(headers).None?
  {
    LateLength(name, v);
    HeaderValueLater(headers, Line(name, v), name);
  }

  /** Without a length in the head, a length line at the start of the body decides by how it is delivered. */
  lemma LengthLeaks(head: Bytes, stopping: bool) returns (late: string)
    requires WellFormedHead(head) && MethodAndPath(RequestLine(head)).Some?
    requires HeaderValue(Headers(head), "content-length").None?
    ensures DeliveriesDiffer(head, late, stopping)
  {
    var name, v := "content-length", seq(7, _ => '9');
    late := Line(name, v);
    var body := Utf8(late);
    HeadersEnd(head);
    LateLengthDeclared(Headers(head), name, v);
    var together := Together(head, late, [], stopping);
    OnePiece([], body);
    Apart(head, body, [body], [], stopping);
    var line, headers := RequestLine(head), Headers(head) + late;
    TooLargeExactly(line, Declared(headers), MsgPackDeclared(headers), together, [], stopping);
    TooLargeExactly(line, Declared(Headers(head)), MsgPackDeclared(Headers(head)), body, [], stopping);
  }

  lemma TypeDecides(line: string, declared: Option<nat>, body: Bytes, other: Bytes)
    requires MethodAndPath(line) == Some(("POST", INGRESS_PATH))
    requires declared.Some? ==> declared.value <= MAX_INGRESS_BODY_BYTES
    ensures Reply(line, declared, false, body, [], false) == Status(415)
    ensures Reply(line, declared, true, other, [], false) != Status(415)
  {}

  lemma LateTypeDeclared(headers: string, name: string, v: string)
    requires name == "content-type" && v == "application/msgpack"
    requires headers != "" && headers[|headers| - 1] == '\n'
    requires HeaderValue(headers, "content-length").Some? && HeaderValue(headers, name).None?
    ensures MsgPackDeclared(headers + Line(name, v)) && !MsgPackDeclared(headers)
    ensures Declared(headers + Line(name, v)) == Declared(headers)
  {
    LateType(name, v);
    HeaderValueLater(headers, Line(name, v), name);
    LengthStable(headers, Line(name, v));
  }

  /** Without a content type in the head, a content-type line at the start of the body does the same. */
  lemma TypeLeaks(head: Bytes) returns (late: string)
    requires WellFormedHead(head) && MethodAndPath(RequestLine(head)) == Some(("POST", INGRESS_PATH))
    requires HeaderValue(Headers(head), "content-length").Some? && HeaderValue(Headers(head), "content-type").None?
    requires Declared(Headers(head)).Some? ==> Declared(Headers(head)).value <= MAX_INGRESS_BODY_BYTES
    ensures DeliveriesDiffer(head, late, false)
  {
    var name, v := "content-type", "application/msgpack";
    late := Line(name, v);
    var body := Utf8(late);
    HeadersEnd(head);
    LateTypeDeclared(Headers(head), name, v);
    var together := Together(head, late, [], false);
    OnePiece([], body);
    Apart(head, body, [body], [], false);
    TypeDecides(RequestLine(head), Declared(Headers(head)), body, together);
  }

  // ----- what a drift of the head does -----

  lemma ShortIsSilent(line: string, n: nat, msgPack: bool, body: Bytes, stopping: bool)
    requires MethodAndPath(line).Some? && n <= MAX_INGRESS_BODY_BYTES
    ensures Reply(line, Some(n), msgPack, body, [Failed], stopping) == Silent <==> |body| < n
  {}

  lemma ShortStaysSilent(line: string, headers: string, more: string, n: nat, body: Bytes, stopping: bool)
    requires MethodAndPath(line).Some? && headers != "" && headers[|headers| - 1] == '\n'
    requires HeaderValue(headers, "content-length").Some? && Declared(headers) == Some(n)
    requires |body| < n <= MAX_INGRESS_BODY_BYTES
    ensures Reply(line, Declared(headers + more), MsgPackDeclared(headers + more), body, [Failed], stopping) == Silent
  {
    LengthStable(headers, more);
    ShortIsSilent(line, n, MsgPackDeclared(headers + more), body, stopping);
  }

  lemma OneByteDropped(head: Bytes, got: Bytes, left: seq<Bytes>)
    requires Drift(head) > 0 && |got| == 1
    ensures Kept(head, got) + Concat(left) == Concat(left)
  {}

  /** One byte that comes with the end of the head is dropped, so the declared bytes never fill. */
  lemma FirstByteLost(head: Bytes, n: nat, got: Bytes, left: seq<Bytes>, stopping: bool)
    requires WellFormedHead(head) && MethodAndPath(RequestLine(head)).Some? && Drift(head) > 0
    requires HeaderValue(Headers(head), "content-length").Some? && Declared(Headers(head)) == Some(n)
    requires |Concat(left)| < n <= MAX_INGRESS_BODY_BYTES && |got| == 1
    ensures Serve(Pieces(Cut(head, got, left), [Failed]), stopping) == Silent
  {
    HeadersEnd(head);
    OneByteDropped(head, got, left);
    CutServed(head, got, Headers(head) + Lossy(got), left, Concat(left), [Failed], stopping);
    ShortStaysSilent(RequestLine(head), Headers(head), Lossy(got), n, Concat(left), stopping);
  }

  lemma WholeBodyServed(head: Bytes, n: nat, left: seq<Bytes>, stopping: bool)
    requires WellFormedHead(head) && MethodAndPath(RequestLine(head)).Some? && Declared(Headers(head)) == Some(n)
    requires |Concat(left)| == n <= MAX_INGRESS_BODY_BYTES
    ensures Serve(Pieces(Cut(head, [], left), [Failed]), stopping) != Silent
  {
    Apart(head, Concat(left), left, [Failed], stopping);
    ShortIsSilent(RequestLine(head), n, MsgPackDeclared(Headers(head)), Concat(left), stopping);
  }

  lemma DriftDiffers(head: Bytes, n: nat, stopping: bool)
    requires WellFormedHead(head) && MethodAndPath(RequestLine(head)).Some? && Drift(head) > 0
    requires HeaderValue(Headers(head), "content-length").Some? && Declared(Headers(head)) == Some(n)
    requires 0 < n <= MAX_INGRESS_BODY_BYTES
    ensures !ChunkingIrrelevant(head, stopping)
  {
    var body: Bytes := seq(n, _ => 0);
    FirstByteLost(head, n, body[..1], Singles(body[1..]), stopping);
    WholeBodyServed(head, n, Singles(body), stopping);
    CutDelivers(head, body[..1], Singles(body[1..]));
    CutDelivers(head, [], Singles(body));
    assert body[..1] + body[1..] == body && [] + body == body;
  }

  /** A short text gets one answer when it comes with the end of the head and another when it comes after. */
  predicate DeliveriesDiffer(head: Bytes, late: string, stopping: bool)
    requires head != []
  {
    && 1 <= |late| <= 200
    && Serve(Pieces(Cut(head, Utf8(late), []), []), stopping)
       != Serve(Pieces(Cut(head, [], [Utf8(late)]), []), stopping)
  }

  /** The answer does not depend on how the network cuts the request into pieces. */
  ghost predicate ChunkingIrrelevant(head: Bytes, stopping: bool) {
    forall body: Bytes, one: seq<Bytes>, other: seq<Bytes>, after: seq<Read> ::
      Readable(one) && Readable(other) && Concat(one) == head + body && Concat(other) == head + body
      ==> Serve(Pieces(one, after), stopping) == Serve(Pieces(other, after), stopping)
  }

  lemma SettledIsEnough(head: Bytes, stopping: bool)
    requires WellFormedHead(head) && Settled(head, stopping)
    ensures ChunkingIrrelevant(head, stopping)
  {
    forall body: Bytes, one: seq<Bytes>, other: seq<Bytes>, after: seq<Read>
      | Readable(one) && Readable(other) && Concat(one) == head + body && Concat(other) == head + body
      ensures Serve(Pieces(one, after), stopping) == Serve(Pieces(other, after), stopping)
    {
      SettledServed(head, body, one, after, stopping);
      SettledServed(head, body, other, after, stopping);
    }
  }

  lemma {:induction false} Utf8Length(s: string)
    ensures |s| <= |Utf8(s)| <= 4 * |s|
  {
    if s != "" { Utf8Length(s[1..]); }
  }

  lemma BothReadable(head: Bytes, body: Bytes)
    requires head != [] && 1 <= |body| < READ_BYTES
    ensures Readable(Cut(head, body, [])) && Readable(Cut(head, [], [body]))
    ensures Concat(Cut(head, body, [])) == head + body && Concat(Cut(head, [], [body])) == head + body
  {
    CutDelivers(head, body, []);
    CutDelivers(head, [], [body]);
    OnePiece([], body);
    assert body + Concat([]) == body;
  }

  lemma Differs(head: Bytes, late: string, stopping: bool)
    requires head != [] && DeliveriesDiffer(head, late, stopping)
    ensures !ChunkingIrrelevant(head, stopping)
  {
    Utf8Length(late);
    BothReadable(head, Utf8(late));
  }

  /** Within the bound, delivery in pieces is invisible exactly when the head settles every gate it reaches. */
  lemma SettledWithinBound(head: Bytes, stopping: bool)
    requires WellFormedHead(head)
    ensures ChunkingIrrelevant(head, stopping) <==> Settled(head, stopping)
  {
    if Settled(head, stopping) {
      SettledIsEnough(head, stopping);
    } else if HeaderValue(Headers(head), "content-length").None? {
      var late := LengthLeaks(head, stopping);
      Differs(head, late, stopping);
    } else if Drift(head) > 0 && !AsksNoBody(Declared(Headers(head))) {
      DriftDiffers(head, Declared(Headers(head)).value, stopping);
    } else {
      var late := TypeLeaks(head);
      Differs(head, late, stopping);
    }
  }

  // ----- heads beyond the bound, and no head at all -----

  /** Beyond the bound by more than one read, every delivery is refused before the head is complete. */
  lemma {:induction false} LongHeadRefused(head: Bytes, body: Bytes, buf: Bytes, chunks: seq<Bytes>, after: seq<Read>)
    requires EndsAtBlankLine(head) && |head| > MAX_HEAD_BYTES + READ_BYTES && Readable(chunks)
    requires |buf| <= MAX_HEAD_BYTES && buf + Concat(chunks) == head + body
    ensures ReadHead(Pieces(chunks, after), buf) == HeadTooLarge
    decreases |chunks|
  {
    assert chunks != [];
    var stream, next := Pieces(chunks, after), buf + chunks[0];
    assert stream[0] == Data(chunks[0]) && stream[1..] == Pieces(chunks[1..], after);
    assert next + Concat(chunks[1..]) == head + body;
    TerminatorSeenExactly(head, body, next);
    if |next| <= MAX_HEAD_BYTES { LongHeadRefused(head, body, next, chunks[1..], after); }
  }

  /** One piece that is read when the buffer is full to the bound. */
  lemma LastPiece(head: Bytes, buf: Bytes, piece: Bytes, left: seq<Bytes>, after: seq<Read>)
    requires EndsAtBlankLine(head) && buf + piece <= head && |buf + piece| > MAX_HEAD_BYTES
    ensures ReadHead(Pieces([piece] + left, after), buf)
         == if buf + piece == head then HeadOk(head, Pieces(left, after)) else HeadTooLarge
  {
    var stream := Pieces([piece] + left, after);
    assert ([piece] + left)[1..] == left;
    assert stream[0] == Data(piece) && stream[1..] == Pieces(left, after);
    assert head == head + [];
    TerminatorSeenExactly(head, [], buf + piece);
    if |buf + piece| == |head| { assert buf + piece == head[..|head|] == head; }
  }

  /** The head with its first bytes up to the bound one by one, then the rest in the given pieces. */
  function AtBound(head: Bytes, rest: seq<Bytes>): seq<Bytes>
    requires |head| > MAX_HEAD_BYTES
  {
    Singles(head[..MAX_HEAD_BYTES]) + rest
  }

  lemma AtBoundRead(head: Bytes, piece: Bytes, left: seq<Bytes>, none: Bytes)
    requires EndsAtBlankLine(head) && |head| > MAX_HEAD_BYTES && none == []
    requires piece != [] && head[..MAX_HEAD_BYTES] + piece <= head
    ensures ReadHead(Pieces(AtBound(head, [piece] + left), []), none)
         == if head[..MAX_HEAD_BYTES] + piece == head then HeadOk(head, Pieces(left, [])) else HeadTooLarge
  {
    var buf := head[..MAX_HEAD_BYTES];
    assert none + Concat(Singles(buf)) == buf;
    BufferFills(head, none, Singles(buf), [piece] + left, []);
    LastPiece(head, buf, piece, left, []);
  }

  lemma NoReplyIsTooLong(line: string, declared: Option<nat>, msgPack: bool, body: Bytes, rest: seq<Read>,
                         stopping: bool)
    ensures Reply(line, declared, msgPack, body, rest, stopping) != Status(414)
  {}

  lemma NeverSaysTooLong(buf: Bytes, head: string, rest: seq<Read>, stopping: bool)
    requires head == Lossy(buf)
    ensures ServeHead(buf, rest, stopping) != Status(414)
  {
    var (line, headers) := SplitHead(head);
    NoReplyIsTooLong(line, Declared(headers), MsgPackDeclared(headers), buf[HeadLength(head, buf)..], rest, stopping);
  }

  lemma CrossingServed(head: Bytes, end: Bytes, stopping: bool)
    requires EndsAtBlankLine(head) && |head| > MAX_HEAD_BYTES && end == head[MAX_HEAD_BYTES..]
    ensures Serve(Pieces(AtBound(head, [end]), []), stopping) != Status(414)
  {
    assert head[..MAX_HEAD_BYTES] + end == head && [end] == [end] + [];
    AtBoundRead(head, end, [], []);
    NeverSaysTooLong(head, Lossy(head), Pieces([], []), stopping);
  }

  lemma CrossingRefused(head: Bytes, end: Bytes, stopping: bool)
    requires EndsAtBlankLine(head) && |head| > MAX_HEAD_BYTES + 1 && end == head[MAX_HEAD_BYTES..]
    ensures Serve(Pieces(AtBound(head, Singles(end)), []), stopping) == Status(414)
  {
    assert head[..MAX_HEAD_BYTES] + [end[0]] == head[..MAX_HEAD_BYTES + 1];
    AtBoundRead(head, [end[0]], Singles(end[1..]), []);
  }

  lemma AtBoundDelivers(head: Bytes, rest: seq<Bytes>)
    requires |head| > MAX_HEAD_BYTES && Concat(rest) == head[MAX_HEAD_BYTES..] && Readable(rest)
    ensures Concat(AtBound(head, rest)) == head + [] && Readable(AtBound(head, rest))
  {
    ConcatAppend(Singles(head[..MAX_HEAD_BYTES]), rest);
  }

  /** The blank line is looked for before the size, so a last read that crosses the bound is served. */
  lemma BoundLeaks(head: Bytes, stopping: bool)
    requires EndsAtBlankLine(head) && MAX_HEAD_BYTES + 1 < |head| <= MAX_HEAD_BYTES + READ_BYTES
    ensures !ChunkingIrrelevant(head, stopping)
  {
    var end := head[MAX_HEAD_BYTES..];
    OnePiece([], end);
    assert [] + Concat([end]) == Concat([end]);
    AtBoundDelivers(head, [end]);
    AtBoundDelivers(head, Singles(end));
    CrossingServed(head, end, stopping);
    CrossingRefused(head, end, stopping);
  }

  lemma LongHeadIrrelevant(head: Bytes, stopping: bool)
    requires EndsAtBlankLine(head) && |head| > MAX_HEAD_BYTES + READ_BYTES
    ensures ChunkingIrrelevant(head, stopping)
  {
    forall body: Bytes, one: seq<Bytes>, other: seq<Bytes>, after: seq<Read>
      | Readable(one) && Readable(other) && Concat(one) == head + body && Concat(other) == head + body
      ensures Serve(Pieces(one, after), stopping) == Serve(Pieces(other, after), stopping)
    {
      assert [] + Concat(one) == head + body && [] + Concat(other) == head + body;
      LongHeadRefused(head, body, [], one, after);
      LongHeadRefused(head, body, [], other, after);
    }
  }

  /**
   For a head of any bytes and any length, delivery in pieces is invisible exactly when the head is complete before
   the bound and settles every gate it reaches, or is too long for any delivery to complete it.
   */
  lemma SettledExactly(head: Bytes, stopping: bool)
    requires EndsAtBlankLine(head)
    ensures ChunkingIrrelevant(head, stopping)
       <==> if |head| <= MAX_HEAD_BYTES + 1 then Settled(head, stopping) else |head| > MAX_HEAD_BYTES + READ_BYTES
  {
    if |head| <= MAX_HEAD_BYTES + 1 {
      SettledWithinBound(head, stopping);
    } else if |head| <= MAX_HEAD_BYTES + READ_BYTES {
      BoundLeaks(head, stopping);
    } else {
      LongHeadIrrelevant(head, stopping);
    }
  }

  lemma PrefixUnterminated(s: Bytes, b: Bytes)
    requires b <= s && !HasTerminator(s)
    ensures !HasTerminator(b)
  {
    forall i | 0 <= i < |b| ensures !TerminatorAt(b, i) {
      assert !TerminatorAt(s, i);
      assert forall k :: 0 <= k < |b| ==> b[k] == s[k];
    }
  }

  /** Bytes without a blank line are refused or only buffered, by their number alone. */
  lemma {:induction false} UnterminatedRead(buf: Bytes, chunks: seq<Bytes>, after: seq<Read>)
    requires |buf| <= MAX_HEAD_BYTES && !HasTerminator(buf + Concat(chunks))
    ensures ReadHead(Pieces(chunks, after), buf)
         == if |buf + Concat(chunks)| > MAX_HEAD_BYTES then HeadTooLarge else ReadHead(after, buf + Concat(chunks))
    decreases |chunks|
  {
    var all := buf + Concat(chunks);
    if chunks == [] {
      assert all == buf;
    } else {
      var stream, next := Pieces(chunks, after), buf + chunks[0];
      assert stream[0] == Data(chunks[0]) && stream[1..] == Pieces(chunks[1..], after);
      assert next + Concat(chunks[1..]) == all;
      PrefixUnterminated(all, next);
      if |next| <= MAX_HEAD_BYTES { UnterminatedRead(next, chunks[1..], after); }
    }
  }

  /** Without a blank line, delivery in pieces is always invisible. */
  lemma UnterminatedIrrelevant(sent: Bytes, one: seq<Bytes>, other: seq<Bytes>, after: seq<Read>, stopping: bool)
    requires !HasTerminator(sent) && Concat(one) == sent && Concat(other) == sent
    ensures Serve(Pieces(one, after), stopping) == Serve(Pieces(other, after), stopping)
  {
    assert [] + sent == sent;
    UnterminatedRead([], one, after);
    UnterminatedRead([], other, after);
  }
}
