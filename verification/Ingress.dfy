/** One connection of the transaction ingress: read the head, drain the declared body, pass the gates. */
module Ingress {
  import opened Primitives
  import opened Text
  import opened LossyText
  import opened Http

  const MAX_INGRESS_BODY_BYTES: nat := 1024 * 1024
  const MAX_HEAD_BYTES: nat := 8 * 1024
  const READ_BYTES: nat := 1024
  const INGRESS_PATH: string := "/v1/transactions"

  /** What one read of the socket gives: bytes, the end of the stream, a timeout or a failure. */
  datatype Read = Data(bytes: Bytes) | Eof | TimedOut | Failed

  /** Silence, a refusal with a status, or a body that goes on to decoding and authentication. */
  datatype Response = Silent | Status(code: nat) | Submit(body: Bytes)

  // ----- the head -----

  predicate TerminatorAt(b: Bytes, i: nat) {
    i + 4 <= |b| && b[i] == 13 && b[i + 1] == 10 && b[i + 2] == 13 && b[i + 3] == 10
  }

  predicate HasTerminator(b: Bytes) {
    exists i :: 0 <= i < |b| && TerminatorAt(b, i)
  }

  datatype HeadResult = HeadOk(buf: Bytes, rest: seq<Read>) | HeadTooLarge | HeadClosed

  /** The head is read until a blank line, the end of the stream or the bound. */
  function ReadHead(stream: seq<Read>, buf: Bytes): HeadResult {
    if stream == [] then HeadClosed
    else
      match stream[0]
      case Eof => if buf != [] then HeadOk(buf, stream[1..]) else HeadClosed
      case Data(d) =>
        if HasTerminator(buf + d) then HeadOk(buf + d, stream[1..])
        else if |buf + d| > MAX_HEAD_BYTES then HeadTooLarge
        else ReadHead(stream[1..], buf + d)
      case TimedOut => HeadClosed
      case Failed => HeadClosed
  }

  // ----- the body -----

  datatype BodyResult = BodyRead(body: Bytes) | BodyAborted

  function ReadBody(stream: seq<Read>, body: Bytes, n: nat): BodyResult {
    if |body| >= n || stream == [] then BodyRead(body)
    else
      match stream[0]
      case Data(d) => ReadBody(stream[1..], body + d, n)
      case Eof => BodyRead(body)
      case TimedOut => BodyRead(body)
      case Failed => BodyAborted
  }

  function Truncate(b: Bytes, n: nat): Bytes {
    if n < |b| then b[..n] else b
  }

  /** The drained body, cut to the declared length. */
  function ReadUpTo(stream: seq<Read>, body: Bytes, n: nat): BodyResult {
    match ReadBody(stream, body, n) case BodyRead(b) => BodyRead(Truncate(b, n)) case BodyAborted => BodyAborted
  }

  // ----- the gates -----

  function Declared(headers: string): Option<nat> {
    match HeaderValue(headers, "content-length") case None => None case Some(v) => ParseUsize(Trim(v))
  }

  predicate MsgPackDeclared(headers: string) {
    match HeaderValue(headers, "content-type")
    case None => false
    case Some(v) => StartsWith(LowerAll(v), "application/msgpack")
  }

  /** Method, path, draining, content type and length, in that order. */
  function Gates(request: (string, string), stopping: bool, msgPack: bool, declared: Option<nat>,
                 body: Bytes): Response {
    if request.0 != "POST" then Status(405)
    else if request.1 != INGRESS_PATH then Status(404)
    else if stopping then Status(503)
    else if !msgPack then Status(415)
    else if declared.None? then Status(400)
    else if |body| < declared.value then Status(400)
    else Submit(body)
  }

  function HeadLength(head: string, buf: Bytes): (n: nat)
    ensures n <= |buf|
  {
    match FindBlankLine(head, 0)
    case None => |buf|
    case Some(i) => var n := ByteOffset(head, i) + 4; if n <= |buf| then n else |buf|
  }

  /** What is answered once the head is taken apart: `start` is the part of the body that came with it. */
  function Reply(line: string, declared: Option<nat>, msgPack: bool, start: Bytes, rest: seq<Read>,
                 stopping: bool): Response {
    match MethodAndPath(line)
    case None => Status(400)
    case Some(request) =>
      if declared.None? then Gates(request, stopping, msgPack, declared, start)
      else if declared.value > MAX_INGRESS_BODY_BYTES then Status(413)
      else
        match ReadUpTo(rest, start, declared.value)
        case BodyAborted => Silent
        case BodyRead(body) => Gates(request, stopping, msgPack, declared, body)
  }

  function ServeHead(buf: Bytes, rest: seq<Read>, stopping: bool): Response {
    var head := Lossy(buf);
    var (line, headers) := SplitHead(head);
    Reply(line, Declared(headers), MsgPackDeclared(headers), buf[HeadLength(head, buf)..], rest, stopping)
  }

  /** The whole connection as a function of what its stream give. */
  function Serve(stream: seq<Read>, stopping: bool): Response {
    match ReadHead(stream, [])
    case HeadClosed => Silent
    case HeadTooLarge => Status(414)
    case HeadOk(buf, rest) => ServeHead(buf, rest, stopping)
  }

  // ----- the read loops -----

  method ReadHeadLoop(stream: seq<Read>) returns (r: HeadResult)
    ensures r == ReadHead(stream, [])
  {
    var buf: Bytes := [];
    for i := 0 to |stream|
      invariant ReadHead(stream[i..], buf) == ReadHead(stream, [])
    {
      assert stream[i..][0] == stream[i] && stream[i..][1..] == stream[i + 1..];
      match stream[i] {
        case Eof =>
          if buf == [] { return HeadClosed; }
          return HeadOk(buf, stream[i + 1..]);
        case Data(d) =>
          buf := buf + d;
          var found := Scan(buf);
          if found { return HeadOk(buf, stream[i + 1..]); }
          if |buf| > MAX_HEAD_BYTES { return HeadTooLarge; }
        case TimedOut => return HeadClosed;
        case Failed => return HeadClosed;
      }
    }
    r := HeadClosed;
  }

  /** `windows(4).any(...)`. */
  method Scan(b: Bytes) returns (found: bool)
    ensures found <==> HasTerminator(b)
  {
    for i := 0 to |b|
      invariant forall k :: 0 <= k < i ==> !TerminatorAt(b, k)
    {
      if TerminatorAt(b, i) { return true; }
    }
    found := false;
  }

  method ReadBodyLoop(stream: seq<Read>, start: Bytes, n: nat) returns (r: BodyResult)
    ensures r == ReadBody(stream, start, n)
  {
    var body := start;
    var i := 0;
    while |body| < n
      invariant i <= |stream| && ReadBody(stream[i..], body, n) == ReadBody(stream, start, n)
      decreases |stream| - i
    {
      if i == |stream| { return BodyRead(body); }
      assert stream[i..][0] == stream[i] && stream[i..][1..] == stream[i + 1..];
      match stream[i] {
        case Data(d) => body := body + d;
        case Eof => return BodyRead(body);
        case TimedOut => return BodyRead(body);
        case Failed => return BodyAborted;
      }
      i := i + 1;
    }
    r := BodyRead(body);
  }

  /** `serve_connection` up to the hand-over to the pipeline. */
  method ServeConnection(stream: seq<Read>, stopping: bool) returns (r: Response)
    ensures r == Serve(stream, stopping)
  {
    var h := ReadHeadLoop(stream);
    if h.HeadClosed? { return Silent; }
    if h.HeadTooLarge? { return Status(414); }
    var head := Lossy(h.buf);
    var (line, headers) := SplitHead(head);
    var request := MethodAndPath(line);
    if request.None? { return Status(400); }
    var declared := Declared(headers);
    if declared.Some? && declared.value > MAX_INGRESS_BODY_BYTES { return Status(413); }
    var body := h.buf[HeadLength(head, h.buf)..];
    if declared.Some? {
      var b := ReadBodyLoop(h.rest, body, declared.value);
      if b.BodyAborted? { return Silent; }
      body := Truncate(b.body, declared.value);
    }
    r := Gates(request.value, stopping, MsgPackDeclared(headers), declared, body);
  }
}
