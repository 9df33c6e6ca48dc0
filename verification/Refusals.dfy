/** What the ingress answers: the decision table of a request, and how a connection ends early. */
module Refusals {
  import opened Primitives
  import opened Text
  import opened LossyText
  import opened Http
  import opened Ingress
  import opened Chunking

  /** The bytes a stream gives before anything else happens on it. */
  function Arrives(stream: seq<Read>): Bytes {
    if stream == [] || !stream[0].Data? then [] else stream[0].bytes + Arrives(stream[1..])
  }

  /** The first thing on a stream that is not bytes. */
  function Ending(stream: seq<Read>): Option<Read> {
    if stream == [] then None else if !stream[0].Data? then Some(stream[0]) else Ending(stream[1..])
  }

  /** The body loop takes the declared bytes if they arrive, what there is if not, and gives up on a failed read. */
  lemma {:induction false} GathersExactly(stream: seq<Read>, body: Bytes, n: nat)
    ensures
      var all := body + Arrives(stream);
      if |all| >= n then ReadUpTo(stream, body, n) == BodyRead(all[..n])
      else if Ending(stream) == Some(Failed) then ReadUpTo(stream, body, n) == BodyAborted
      else ReadUpTo(stream, body, n) == BodyRead(all)
    decreases |stream|
  {
    var all := body + Arrives(stream);
    if |body| >= n {
      assert Truncate(body, n) == body[..n] == all[..n];
    } else if stream == [] || !stream[0].Data? {
      assert all == body;
    } else {
      assert all == (body + stream[0].bytes) + Arrives(stream[1..]);
      GathersExactly(stream[1..], body + stream[0].bytes, n);
    }
  }

  /** The length a head declares: the number in its first content-length line. */
  predicate Declares(headers: string, n: Option<nat>) {
    match HeaderValue(headers, "content-length") case None => n == None case Some(v) => n == ParseUsize(Trim(v))
  }

  /** The first content-type line starts with the MessagePack type, in any case. */
  predicate IsMsgPack(headers: string) {
    var v := HeaderValue(headers, "content-type");
    v.Some? && |v.value| >= 19 && LowerAll(v.value)[..19] == "application/msgpack"
  }

  /** The answer to a head with a readable request line, in the order in which it is decided. */
  datatype Decision =
    | TooLarge
    | Aborted
    | NotPost
    | NotHere
    | Draining
    | WrongType
    | NoLength
    | TooShort
    | Accepted(body: Bytes)

  function Decide(verb: string, path: string, stopping: bool, msgPack: bool, declared: Option<nat>, all: Bytes,
                  end: Option<Read>): Decision
  {
    if declared.Some? && declared.value > 1_048_576 then TooLarge
    else if declared.Some? && |all| < declared.value && end == Some(Failed) then Aborted
    else if verb != "POST" then NotPost
    else if path != "/v1/transactions" then NotHere
    else if stopping then Draining
    else if !msgPack then WrongType
    else if declared.None? then NoLength
    else if |all| < declared.value then TooShort
    else Accepted(all[..declared.value])
  }

  function Answers(d: Decision): Response {
    match d
    case TooLarge => Status(413)
    case Aborted => Silent
    case NotPost => Status(405)
    case NotHere => Status(404)
    case Draining => Status(503)
    case WrongType => Status(415)
    case NoLength => Status(400)
    case TooShort => Status(400)
    case Accepted(body) => Submit(body)
  }

  /** The gates on what was gathered, for a length that asks for no more than arrived or came to an end. */
  lemma GatesDecide(verb: string, path: string, stopping: bool, msgPack: bool, declared: Option<nat>, all: Bytes,
                    end: Option<Read>, body: Bytes)
    requires declared.Some? ==> declared.value <= MAX_INGRESS_BODY_BYTES
    requires declared.Some? && |all| < declared.value ==> end != Some(Failed) && body == all
    requires declared.Some? && |all| >= declared.value ==> body == all[..declared.value]
    ensures Gates((verb, path), stopping, msgPack, declared, body)
         == Answers(Decide(verb, path, stopping, msgPack, declared, all, end))
  {
    assert INGRESS_PATH == "/v1/transactions";
  }

  function Decided(line: string, declared: Option<nat>, msgPack: bool, all: Bytes, end: Option<Read>,
                   stopping: bool): Response
  {
    match MethodAndPath(line)
    case None => Status(400)
    case Some((verb, path)) => Answers(Decide(verb, path, stopping, msgPack, declared, all, end))
  }

  lemma ReplyDecides(line: string, declared: Option<nat>, msgPack: bool, body: Bytes, after: seq<Read>, stopping: bool)
    ensures Reply(line, declared, msgPack, body, after, stopping)
         == Decided(line, declared, msgPack, body + Arrives(after), Ending(after), stopping)
  {
    var all, end := body + Arrives(after), Ending(after);
    if MethodAndPath(line).Some? {
      var (verb, path) := MethodAndPath(line).value;
      if declared.None? {
        GatesDecide(verb, path, stopping, msgPack, declared, all, end, body);
      } else if declared.value <= MAX_INGRESS_BODY_BYTES {
        GathersExactly(after, body, declared.value);
        var got := ReadUpTo(after, body, declared.value);
        if got.BodyRead? { GatesDecide(verb, path, stopping, msgPack, declared, all, end, got.body); }
      }
    }
  }

  lemma TypeIs(headers: string)
    ensures MsgPackDeclared(headers) <==> IsMsgPack(headers)
  {
    assert |"application/msgpack"| == 19;
  }

  /** Every request is answered by its first reason for refusal, and only one without any is submitted. */
  lemma ReplyExactly(line: string, headers: string, declared: Option<nat>, body: Bytes, after: seq<Read>,
                     stopping: bool)
    requires Declares(headers, declared)
    ensures Reply(line, Declared(headers), MsgPackDeclared(headers), body, after, stopping)
         == Decided(line, declared, IsMsgPack(headers), body + Arrives(after), Ending(after), stopping)
  {
    TypeIs(headers);
    ReplyDecides(line, declared, IsMsgPack(headers), body, after, stopping);
  }

  lemma DecideAccepted(verb: string, path: string, stopping: bool, msgPack: bool, declared: Option<nat>, all: Bytes,
                       end: Option<Read>, body: Bytes)
    requires Answers(Decide(verb, path, stopping, msgPack, declared, all, end)) == Submit(body)
    ensures !stopping && verb == "POST" && path == "/v1/transactions" && msgPack
    ensures declared == Some(|body|) && |body| <= 1_048_576 && body <= all
  {
  }

  lemma AcceptedMeans(line: string, declared: Option<nat>, msgPack: bool, all: Bytes, end: Option<Read>, stopping: bool,
                      body: Bytes)
    requires Decided(line, declared, msgPack, all, end, stopping) == Submit(body)
    ensures !stopping && MethodAndPath(line) == Some(("POST", "/v1/transactions")) && msgPack
    ensures declared == Some(|body|) && |body| <= 1_048_576 && body <= all
  {
    var request := MethodAndPath(line).value;
    DecideAccepted(request.0, request.1, stopping, msgPack, declared, all, end, body);
  }

  lemma HeadSubmitted(buf: Bytes, text: string, line: string, headers: string, rest: seq<Read>, stopping: bool,
                      body: Bytes)
    requires text == Lossy(buf) && (line, headers) == SplitHead(text) && ServeHead(buf, rest, stopping) == Submit(body)
    ensures !stopping && MethodAndPath(line) == Some(("POST", "/v1/transactions")) && IsMsgPack(headers)
    ensures Declares(headers, Some(|body|)) && |body| <= 1_048_576
  {
    var start := buf[HeadLength(text, buf)..];
    ReplyExactly(line, headers, Declared(headers), start, rest, stopping);
    AcceptedMeans(line, Declared(headers), IsMsgPack(headers), start + Arrives(rest), Ending(rest), stopping, body);
  }

  /** Whatever the stream was, a submitted body has the declared length, and every gate was passed. */
  lemma SubmittedIsDeclared(stream: seq<Read>, stopping: bool, body: Bytes, head: HeadResult, text: string,
                            line: string, headers: string)
    requires head == ReadHead(stream, []) && Serve(stream, stopping) == Submit(body)
    requires head.HeadOk? ==> text == Lossy(head.buf) && (line, headers) == SplitHead(text)
    ensures head.HeadOk? && !stopping
    ensures MethodAndPath(line) == Some(("POST", "/v1/transactions")) && IsMsgPack(headers)
    ensures Declares(headers, Some(|body|)) && |body| <= 1_048_576
  {
    HeadSubmitted(head.buf, text, line, headers, head.rest, stopping, body);
  }

  lemma ShortDecided(line: string, n: nat, all: Bytes, end: Option<Read>)
    requires MethodAndPath(line) == Some(("POST", "/v1/transactions")) && |all| < n <= 1_048_576
    ensures Decided(line, Some(n), true, all, end, false) == if end == Some(Failed) then Silent else Status(400)
  {
  }

  /** A request whose body stops short of its declared length is refused, or left without an answer by a failed read. */
  lemma ShortRequest(head: Bytes, body: Bytes, n: nat, chunks: seq<Bytes>, after: seq<Read>, line: string,
                     headers: string)
    requires WellFormedHead(head) && Drift(head) == 0 && Concat(chunks) == head + body
    requires line == RequestLine(head) && headers == Headers(head)
    requires MethodAndPath(line) == Some(("POST", "/v1/transactions")) && IsMsgPack(headers)
    requires Declares(headers, Some(n)) && |body + Arrives(after)| < n <= 1_048_576
    ensures Serve(Pieces(chunks, after), false) == if Ending(after) == Some(Failed) then Silent else Status(400)
  {
    HeadersNamed(headers);
    TypeIs(headers);
    SettledServed(head, body, chunks, after, false);
    ReplyExactly(line, headers, Some(n), body, after, false);
    ShortDecided(line, n, body + Arrives(after), Ending(after));
  }

  /** A connection that ends before a blank line: only an orderly end after some bytes gets an answer. */
  lemma EndsBeforeHead(sent: Bytes, chunks: seq<Bytes>, after: seq<Read>, stopping: bool)
    requires !HasTerminator(sent) && Concat(chunks) == sent && |sent| <= 8192
    requires after != [] ==> !after[0].Data?
    ensures Serve(Pieces(chunks, after), stopping)
         == if after != [] && after[0].Eof? && sent != [] then ServeHead(sent, after[1..], stopping) else Silent
  {
    assert [] + sent == sent;
    UnterminatedRead([], chunks, after);
  }
}
