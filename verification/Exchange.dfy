/** Client and ingress together: the request one prints the other reads, and the answer back. */
module Exchange {
  import opened Primitives
  import opened Text
  import opened LossyText
  import opened Http
  import opened Ingress
  import opened Chunking
  import opened ReceiptJson
  import opened ReceiptParser

  // ----- decimal numbers -----

  function Decimal(n: nat): (s: string)
    ensures s != "" && forall i :: 0 <= i < |s| ==> '0' <= s[i] <= '9'
  {
    if n < 10 then [(n + '0' as int) as char] else Decimal(n / 10) + [(n % 10 + '0' as int) as char]
  }

  lemma {:induction false} DigitsSnoc(s: string, acc: nat, c: char)
    requires '0' <= c <= '9'
    ensures Digits(s + [c], acc)
         == match Digits(s, acc) case Some(n) => Some(10 * n + (c as int - '0' as int)) case None => None
  {
    if s == "" {
      assert s + [c] == [c] && [c][1..] == "";
    } else if '0' <= s[0] <= '9' {
      assert (s + [c])[1..] == s[1..] + [c];
      DigitsSnoc(s[1..], 10 * acc + (s[0] as int - '0' as int), c);
    }
  }

  /** A number is read exactly from text that is all digits. */
  lemma {:induction false} DigitsOrNothing(s: string, acc: nat)
    ensures Digits(s, acc).Some? <==> forall i :: 0 <= i < |s| ==> '0' <= s[i] <= '9'
  {
    if s != "" && '0' <= s[0] <= '9' {
      DigitsOrNothing(s[1..], 10 * acc + (s[0] as int - '0' as int));
      assert s == [s[0]] + s[1..];
    }
  }

  lemma {:induction false} DigitsOfDecimal(n: nat)
    ensures Digits(Decimal(n), 0) == Some(n)
  {
    if n >= 10 {
      DigitsOfDecimal(n / 10);
      DigitsSnoc(Decimal(n / 10), 0, (n % 10 + '0' as int) as char);
    } else {
      var s := Decimal(n);
      assert s[1..] == "" && Digits(s[1..], n) == Some(n);
    }
  }

  /** Every number is parsed back from its decimal form. */
  lemma DecimalRoundTrip(n: U64)
    ensures Trimmed(Decimal(n)) && ParseUsize(Decimal(n)) == Some(n)
  {
    DigitsOfDecimal(n);
  }

  // ----- heads as lines -----

  /** No control characters, ASCII only. */
  predicate Printable(s: string) {
    forall i :: 0 <= i < |s| ==> 0x20 <= s[i] as int < 0x7F
  }

  predicate HeadLines(lines: seq<string>) {
    forall i :: 0 <= i < |lines| ==> lines[i] != "" && Printable(lines[i])
  }

  /** The lines and the blank line after them. */
  function HeadOf(lines: seq<string>): (s: string)
    ensures |s| >= 2
  {
    if lines == [] then ['\r', '\n'] else lines[0] + ['\r', '\n'] + HeadOf(lines[1..])
  }

  lemma {:induction false} HeadStart(lines: seq<string>)
    requires HeadLines(lines) && lines != []
    ensures HeadOf(lines)[0] != '\r'
  {
    assert HeadOf(lines)[0] == lines[0][0];
  }

  /** The only blank line of a head is its end. */
  lemma {:induction false} BlankOnlyAtEnd(lines: seq<string>, more: string, i: nat)
    requires HeadLines(lines) && lines != [] && i <= |HeadOf(lines)| - 4
    ensures BlankLineAt(HeadOf(lines) + more, i) <==> i == |HeadOf(lines)| - 4
  {
    var line, rest := lines[0], lines[1..];
    var tail := HeadOf(rest) + more;
    var s := HeadOf(lines) + more;
    assert s == line + ['\r', '\n'] + tail;
    if i < |line| {
      assert s[i] == line[i];
    } else if i == |line| {
      assert s[i + 2] == tail[0] == HeadOf(rest)[0];
      if rest != [] { HeadStart(rest); }
    } else if i == |line| + 1 {
      assert s[i] == '\n';
    } else {
      ShiftedBlank(line + ['\r', '\n'], tail, i - |line| - 2);
      BlankOnlyAtEnd(rest, more, i - |line| - 2);
    }
  }

  lemma ShiftedBlank(a: string, b: string, i: nat)
    ensures BlankLineAt(a + b, |a| + i) == BlankLineAt(b, i)
  {}

  lemma EndOfHead(lines: seq<string>, more: string)
    requires HeadLines(lines) && lines != []
    ensures 4 <= |HeadOf(lines)| && FindBlankLine(HeadOf(lines) + more, 0) == Some(|HeadOf(lines)| - 4)
  {
    var s, end := HeadOf(lines) + more, |HeadOf(lines)| - 4;
    FindBlankLineFirst(s, 0);
    BlankOnlyAtEnd(lines, more, end);
    forall i | 0 <= i < end ensures !BlankLineAt(s, i) { BlankOnlyAtEnd(lines, more, i); }
  }

  lemma FirstLine(lines: seq<string>)
    requires HeadLines(lines) && lines != []
    ensures SplitHead(HeadOf(lines)) == (lines[0], HeadOf(lines[1..]))
  {
    var s, n := HeadOf(lines), |lines[0]|;
    assert s[n] == '\r' && s[n + 1] == '\n' && forall i :: 0 <= i < n ==> s[i] == lines[0][i];
    FindCrLfFirst(s, 0);
    assert LineBreakAt(s, n);
    assert s[..n] == lines[0] && s[n + 2..] == HeadOf(lines[1..]);
  }

  lemma LinesOfCons(line: string, tail: string, rest: seq<string>)
    requires Printable(line) && Lines(tail) == rest
    ensures Lines(line + ['\r', '\n'] + tail) == [line] + rest
  {
    OneLine(line);
    LinesConcat(line + ['\r', '\n'], tail);
  }

  lemma LinesOfBlank(s: string, none: string)
    requires none == "" && s == none + ['\r', '\n']
    ensures Lines(s) == [none]
  {
    OneLine(none);
  }

  lemma LinesOfMore(lines: seq<string>, head: string, tail: string, none: string)
    requires lines != [] && Printable(lines[0]) && head == lines[0] + ['\r', '\n'] + tail
    requires Lines(tail) == lines[1..] + [none]
    ensures Lines(head) == lines + [none]
  {
    LinesOfCons(lines[0], tail, lines[1..] + [none]);
    assert [lines[0]] + (lines[1..] + [none]) == lines + [none];
  }

  lemma {:induction false} LinesOfHead(lines: seq<string>)
    requires HeadLines(lines)
    ensures Lines(HeadOf(lines)) == lines + [""]
  {
    if lines == [] {
      LinesOfBlank(HeadOf(lines), "");
    } else {
      LinesOfHead(lines[1..]);
      LinesOfMore(lines, HeadOf(lines), HeadOf(lines[1..]), "");
    }
  }

  lemma {:induction false} HeadAscii(lines: seq<string>)
    requires HeadLines(lines)
    ensures forall i :: 0 <= i < |HeadOf(lines)| ==> HeadOf(lines)[i] as int < 0x80
  {
    if lines != [] { HeadAscii(lines[1..]); }
  }

  lemma TerminatorIsBlankLine(s: string, i: nat)
    requires forall k :: 0 <= k < |s| ==> s[k] as int < 0x80
    ensures |Utf8(s)| == |s| && (TerminatorAt(Utf8(s), i) <==> BlankLineAt(s, i))
  {
    AsciiBytes(s);
  }

  lemma PrintedEnd(b: Bytes, lines: seq<string>)
    requires HeadLines(lines) && lines != [] && b == Utf8(HeadOf(lines)) && |HeadOf(lines)| <= MAX_HEAD_BYTES + 1
    ensures WellFormedHead(b)
  {
    var s := HeadOf(lines);
    HeadAscii(lines);
    EndOfHead(lines, "");
    assert s + "" == s;
    FindBlankLineFirst(s, 0);
    TerminatorIsBlankLine(s, |s| - 4);
    forall i | 0 <= i < |b| - 4 ensures !TerminatorAt(b, i) { TerminatorIsBlankLine(s, i); }
  }

  /** A head printed as lines is a head the ingress can read. */
  lemma PrintedHead(b: Bytes, lines: seq<string>)
    requires HeadLines(lines) && lines != [] && |HeadOf(lines)| <= MAX_HEAD_BYTES + 1 && b == Utf8(HeadOf(lines))
    ensures WellFormedHead(b) && RequestLine(b) == lines[0] && Headers(b) == HeadOf(lines[1..]) && Drift(b) == 0
  {
    PrintedEnd(b, lines);
    LossyUtf8(HeadOf(lines));
    Utf8NoDrift(HeadOf(lines));
    FirstLine(lines);
  }

  // ----- the request -----

  function Field(key: string, value: string): string {
    key + [':'] + ([' '] + value)
  }

  lemma FieldValue(key: string, value: string, name: string)
    requires Trimmed(key) && ':' !in key && Trimmed(value)
    ensures HeaderLine(Field(key, value), name) == if LowerAll(key) == LowerAll(name) then Some(value) else None
  {
    FieldLine(key, [' '] + value, name);
    assert ([' '] + value)[1..] == value && TrimStart([' '] + value) == value;
  }

  function RequestLines(host: string, n: nat): seq<string> {
    ["POST" + [' '] + INGRESS_PATH + [' '] + "HTTP/1.1",
     Field("Host", host),
     Field("Content-Type", "application/msgpack"),
     Field("Content-Length", Decimal(n))]
  }

  /** The bytes the client writes to submit a body. */
  function Request(host: string, body: Bytes): Bytes {
    Utf8(HeadOf(RequestLines(host, |body|))) + body
  }

  /** A key that is found under its lower-case name and under no name of another length. */
  predicate Key(key: string, name: string) {
    Trimmed(key) && Printable(key) && ':' !in key && LowerAll(key) == LowerAll(name)
  }

  lemma LengthKey(key: string, name: string)
    requires key == "Content-Length" && name == "content-length"
    ensures Key(key, name) && |name| == 14
  {
    assert forall i :: 0 <= i < |key| ==> LowerAll(key)[i] == LowerAll(name)[i];
  }

  lemma TypeKey(key: string, name: string)
    requires key == "Content-Type" && name == "content-type"
    ensures Key(key, name) && |name| == 12
  {
    assert forall i :: 0 <= i < |key| ==> LowerAll(key)[i] == LowerAll(name)[i];
  }

  lemma HostKey(key: string)
    requires key == "Host"
    ensures Key(key, key)
  {}

  lemma MsgPackPrintable(v: string)
    requires v == "application/msgpack"
    ensures Printable(v)
  {}

  /** Header lookup goes line by line. */
  lemma HeaderStep(lines: seq<string>, name: string)
    requires HeadLines(lines) && lines != []
    ensures HeaderValue(HeadOf(lines), name)
         == match HeaderLine(lines[0], name) case Some(v) => Some(v) case None => HeaderValue(HeadOf(lines[1..]), name)
  {
    LinesOfHead(lines);
    LinesOfHead(lines[1..]);
    assert (lines + [""])[1..] == lines[1..] + [""];
  }

  lemma OtherField(key: string, value: string, name: string)
    requires Trimmed(key) && ':' !in key && |key| != |name|
    ensures HeaderLine(Field(key, value), name).None?
  {
    FieldLine(key, [' '] + value, name);
    assert |LowerAll(key)| != |LowerAll(name)|;
  }

  lemma SecondFound(lines: seq<string>, first: (string, string), second: (string, string), name: string)
    requires HeadLines(lines) && |lines| >= 2
    requires lines[0] == Field(first.0, first.1) && lines[1] == Field(second.0, second.1)
    requires Trimmed(first.0) && ':' !in first.0 && |first.0| != |name| && Key(second.0, name) && Trimmed(second.1)
    ensures HeaderValue(HeadOf(lines), name) == Some(second.1)
  {
    OtherField(first.0, first.1, name);
    FieldValue(second.0, second.1, name);
    HeaderStep(lines, name);
    HeaderStep(lines[1..], name);
  }

  lemma ThirdFound(lines: seq<string>, first: (string, string), second: (string, string), third: (string, string),
                   name: string)
    requires HeadLines(lines) && lines == [Field(first.0, first.1), Field(second.0, second.1), Field(third.0, third.1)]
    requires Trimmed(first.0) && ':' !in first.0 && |first.0| != |name|
    requires Trimmed(second.0) && ':' !in second.0 && |second.0| != |name|
    requires Key(third.0, name) && Trimmed(third.1)
    ensures HeaderValue(HeadOf(lines), name) == Some(third.1)
  {
    OtherField(first.0, first.1, name);
    HeaderStep(lines, name);
    SecondFound(lines[1..], second, third, name);
  }

  lemma FieldPrintable(key: string, value: string)
    requires Printable(key) && Printable(value)
    ensures Printable(Field(key, value)) && Field(key, value) != ""
  {}

  lemma DecimalPrintable(n: nat)
    ensures Printable(Decimal(n))
  {}

  lemma RequestLineRead(verb: string, path: string, version: string, line: string)
    requires line == verb + [' '] + path + [' '] + version && ' ' !in verb && ' ' !in path
    ensures MethodAndPath(line) == Some((verb, path))
  {
    var rest := path + [' '] + version;
    assert line == verb + [' '] + rest;
    FindCharAfter(verb, ' ', rest);
    assert line[..|verb|] == verb && line[|verb| + 1..] == rest;
    FindCharAfter(path, ' ', version);
    assert rest[..|path|] == path;
  }

  lemma PathPrintable(path: string)
    requires path == INGRESS_PATH
    ensures Printable(path) && ' ' !in path
  {}

  lemma JoinPrintable(a: string, b: string, c: string)
    requires Printable(a) && Printable(b) && Printable(c)
    ensures Printable(a + [' '] + b + [' '] + c)
  {}

  lemma PostLine(line: string)
    requires line == "POST" + [' '] + INGRESS_PATH + [' '] + "HTTP/1.1"
    ensures MethodAndPath(line) == Some(("POST", INGRESS_PATH)) && Printable(line) && line != ""
  {
    var verb, version := "POST", "HTTP/1.1";
    PathPrintable(INGRESS_PATH);
    JoinPrintable(verb, INGRESS_PATH, version);
    RequestLineRead(verb, INGRESS_PATH, version, line);
  }

  lemma RequestFields(host: string, n: U64, lines: seq<string>)
    requires Printable(host) && lines == RequestLines(host, n)[1..]
    ensures HeadLines(lines) && HeaderValue(HeadOf(lines), "content-type") == Some("application/msgpack")
    ensures HeaderValue(HeadOf(lines), "content-length") == Some(Decimal(n))
  {
    var hostKey, kindKey, lengthKey := "Host", "Content-Type", "Content-Length";
    var kind, kindName, lengthName := "application/msgpack", "content-type", "content-length";
    HostKey(hostKey);
    TypeKey(kindKey, kindName);
    LengthKey(lengthKey, lengthName);
    MsgPackPrintable(kind);
    MsgPackType(kind);
    DecimalPrintable(n);
    DecimalRoundTrip(n);
    FieldPrintable(hostKey, host);
    FieldPrintable(kindKey, kind);
    FieldPrintable(lengthKey, Decimal(n));
    SecondFound(lines, (hostKey, host), (kindKey, kind), kindName);
    ThirdFound(lines, (hostKey, host), (kindKey, kind), (lengthKey, Decimal(n)), lengthName);
  }

  lemma RequestDeclares(host: string, n: U64, headers: string)
    requires Printable(host) && headers == HeadOf(RequestLines(host, n)[1..])
    ensures HeaderValue(headers, "content-length").Some? && HeaderValue(headers, "content-type").Some?
    ensures Declared(headers) == Some(n) && MsgPackDeclared(headers)
  {
    RequestFields(host, n, RequestLines(host, n)[1..]);
    DecimalRoundTrip(n);
    MsgPackType("application/msgpack");
  }

  /** What the ingress makes of a request for its path, as a function of the declared length and the body. */
  lemma PostAnswered(line: string, body: Bytes, after: seq<Read>, stopping: bool)
    requires MethodAndPath(line) == Some(("POST", INGRESS_PATH))
    ensures Reply(line, Some(|body|), true, body, after, stopping)
         == if |body| > MAX_INGRESS_BODY_BYTES then Status(413) else if stopping then Status(503) else Submit(body)
  {}

  /**
   However the network cuts it up, the request the client prints is answered as the gates intend, and a body
   within the cap reaches the pipeline of a running node byte for byte.
   */
  lemma RequestArrives(host: string, body: Bytes, chunks: seq<Bytes>, after: seq<Read>, stopping: bool)
    requires Printable(host) && |HeadOf(RequestLines(host, |body|))| <= MAX_HEAD_BYTES + 1 && |body| <= U64_MAX
    requires Concat(chunks) == Request(host, body)
    ensures Serve(Pieces(chunks, after), stopping)
         == if |body| > MAX_INGRESS_BODY_BYTES then Status(413) else if stopping then Status(503) else Submit(body)
  {
    var lines := RequestLines(host, |body|);
    var head := Utf8(HeadOf(lines));
    PostLine(lines[0]);
    RequestFields(host, |body|, lines[1..]);
    assert HeadLines(lines) by { assert forall i :: 0 < i < |lines| ==> lines[i] == lines[1..][i - 1]; }
    PrintedHead(head, lines);
    RequestDeclares(host, |body|, Headers(head));
    SettledServed(head, body, chunks, after, stopping);
    PostAnswered(lines[0], body, after, stopping);
  }

  // ----- the response -----

  function Reason(status: nat): string {
    match status
    case 200 => "OK"
    case 400 => "Bad Request"
    case 401 => "Unauthorized"
    case 405 => "Method Not Allowed"
    case 409 => "Conflict"
    case 413 => "Payload Too Large"
    case 414 => "URI Too Long"
    case 415 => "Unsupported Media Type"
    case 422 => "Unprocessable Entity"
    case 503 => "Service Unavailable"
    case _ => "Status"
  }

  function StatusLine(status: nat): string {
    "HTTP/1.1" + [' '] + Decimal(status) + [' '] + Reason(status)
  }

  function ResponseLines(status: nat, contentType: string, n: nat): seq<string> {
    [StatusLine(status),
     Field("Content-Type", contentType),
     Field("Content-Length", Decimal(n)),
     Field("Connection", "close")]
  }

  /** `write_response`. */
  function WriteResponse(status: nat, contentType: string, body: Bytes): Bytes {
    Utf8(HeadOf(ResponseLines(status, contentType, |body|))) + body
  }

  function TakeWord(s: string): string {
    if s == "" || IsWhite(s[0]) then "" else [s[0]] + TakeWord(s[1..])
  }

  function AfterWord(s: string): string {
    if s == "" || IsWhite(s[0]) then s else AfterWord(s[1..])
  }

  /** `split_whitespace().nth(1)`. */
  function SecondWord(s: string): Option<string> {
    var first := TrimStart(s);
    var rest := TrimStart(AfterWord(first));
    if first == "" || rest == "" then None else Some(TakeWord(rest))
  }

  /** `parse::<u16>`. */
  function ParseU16(s: string): Option<nat> {
    match ParseUsize(s) case Some(n) => if n < 0x1_0000 then Some(n) else None case None => None
  }

  /** What the client reads out of the bytes up to the end of the stream: status and body, or no status line. */
  function ReadResponse(raw: Bytes): Option<(nat, string)> {
    var text := Lossy(raw);
    match SecondWord(text)
    case None => None
    case Some(word) =>
      match ParseU16(word)
      case None => None
      case Some(status) =>
        Some((status, match FindBlankLine(text, 0) case Some(i) => text[i + 4..] case None => ""))
  }

  predicate NoWhite(s: string) {
    forall i :: 0 <= i < |s| ==> !IsWhite(s[i])
  }

  lemma {:induction false} WordThenSpace(word: string, more: string)
    requires NoWhite(word)
    ensures TakeWord(word + [' '] + more) == word && AfterWord(word + [' '] + more) == [' '] + more
  {
    var s := word + [' '] + more;
    if word == "" {
      assert s == [' '] + more;
    } else {
      assert s[0] == word[0] && s[1..] == word[1..] + [' '] + more;
      WordThenSpace(word[1..], more);
    }
  }

  lemma SecondWordFound(first: string, second: string, more: string)
    requires NoWhite(first) && NoWhite(second) && first != "" && second != ""
    ensures SecondWord(first + [' '] + (second + [' '] + more)) == Some(second)
  {
    var rest := second + [' '] + more;
    var s := first + [' '] + rest;
    assert s[0] == first[0] && TrimStart(s) == s;
    WordThenSpace(first, rest);
    assert ([' '] + rest)[1..] == rest && rest[0] == second[0];
    assert TrimStart([' '] + rest) == TrimStart(rest) == rest;
    WordThenSpace(second, more);
  }

  lemma EarlyReason(status: nat)
    requires status < 405
    ensures Printable(Reason(status))
  {}

  lemma MiddleReason(status: nat)
    requires 405 <= status < 414
    ensures Printable(Reason(status))
  {}

  lemma LateReason(status: nat)
    requires 414 <= status < 422
    ensures Printable(Reason(status))
  {}

  lemma LastReason(status: nat)
    requires 422 <= status
    ensures Printable(Reason(status))
  {}

  lemma ReasonPrintable(status: nat, reason: string)
    requires reason == Reason(status)
    ensures Printable(reason)
  {
    if status < 405 {
      EarlyReason(status);
    } else if status < 414 {
      MiddleReason(status);
    } else if status < 422 {
      LateReason(status);
    } else {
      LastReason(status);
    }
  }

  lemma StatusWord(version: string, number: string, reason: string, more: string)
    requires NoWhite(version) && NoWhite(number) && version != "" && number != ""
    ensures SecondWord(version + [' '] + number + [' '] + reason + more) == Some(number)
  {
    SecondWordFound(version, number, reason + more);
    assert version + [' '] + number + [' '] + reason + more == version + [' '] + (number + [' '] + (reason + more));
  }

  lemma StatusRead(status: nat, more: string)
    requires status < 0x1_0000
    ensures SecondWord(StatusLine(status) + more) == Some(Decimal(status)) && ParseU16(Decimal(status)) == Some(status)
  {
    var version := "HTTP/1.1";
    StatusWord(version, Decimal(status), Reason(status), more);
    DecimalRoundTrip(status);
  }

  lemma StatusLinePrintable(status: nat, version: string)
    requires version == "HTTP/1.1"
    ensures Printable(version + [' '] + Decimal(status) + [' '] + Reason(status))
  {
    ReasonPrintable(status, Reason(status));
    DecimalPrintable(status);
  }

  lemma FourLines(a: string, b: string, c: string, d: string)
    requires a != "" && b != "" && c != "" && d != "" && Printable(a) && Printable(b) && Printable(c) && Printable(d)
    ensures HeadLines([a, b, c, d])
  {}

  lemma ConnectionPrintable(connection: string, close: string)
    requires connection == "Connection" && close == "close"
    ensures Printable(Field(connection, close))
  {
    FieldPrintable(connection, close);
  }

  lemma ResponseHead(status: nat, contentType: string, n: nat)
    requires Printable(contentType)
    ensures HeadLines(ResponseLines(status, contentType, n))
  {
    var kindKey, lengthKey := "Content-Type", "Content-Length";
    StatusLinePrintable(status, "HTTP/1.1");
    DecimalPrintable(n);
    FieldPrintable(kindKey, contentType);
    FieldPrintable(lengthKey, Decimal(n));
    ConnectionPrintable("Connection", "close");
    FourLines(StatusLine(status), Field(kindKey, contentType), Field(lengthKey, Decimal(n)),
              Field("Connection", "close"));
  }

  lemma HeadBegins(lines: seq<string>, body: string) returns (more: string)
    requires lines != []
    ensures HeadOf(lines) + body == lines[0] + more
  {
    more := ['\r', '\n'] + HeadOf(lines[1..]) + body;
  }

  /** Every status and every text the ingress answers with is what the client reads. */
  lemma ResponseRoundTrip(status: nat, contentType: string, body: string)
    requires status < 0x1_0000 && Printable(contentType)
    ensures ReadResponse(WriteResponse(status, contentType, Utf8(body))) == Some((status, body))
  {
    var lines := ResponseLines(status, contentType, |Utf8(body)|);
    var head := HeadOf(lines);
    Utf8Concat(head, body);
    LossyUtf8(head + body);
    ResponseHead(status, contentType, |Utf8(body)|);
    EndOfHead(lines, body);
    var more := HeadBegins(lines, body);
    StatusRead(status, more);
    assert (head + body)[|head|..] == body;
  }

  // ----- the whole exchange -----

  datatype SubmitError = NoStatusLine | Rejected(status: nat, reason: string) | BadReceipt(error: ReceiptError)

  /** What `submit` returns for the bytes the node answered. */
  function Conclude(raw: Bytes, txId: string): Result<string, SubmitError> {
    match ReadResponse(raw)
    case None => Failure(NoStatusLine)
    case Some((status, body)) =>
      if status != 200 then Failure(Rejected(status, body))
      else match CheckReceipt(body, txId) case Success(id) => Success(id) case Failure(e) => Failure(BadReceipt(e))
  }

  /** The node's acceptance of any id convinces exactly the client that submitted that id. */
  lemma AcceptanceConcluded(id: string, txId: string)
    ensures Conclude(WriteResponse(200, "application/json", Utf8(Receipt(id))), txId)
         == if id == txId then Success(txId) else Failure(BadReceipt(OtherId(id)))
  {
    var contentType := "application/json";
    assert Printable(contentType);
    ResponseRoundTrip(200, contentType, Receipt(id));
    ReceiptNamesOwnTransaction(id, txId);
  }

  /** A refusal reaches the client with its status and its reason unchanged. */
  lemma RefusalConcluded(status: nat, reason: string, txId: string)
    requires status < 0x1_0000 && status != 200
    ensures Conclude(WriteResponse(status, "text/plain", Utf8(reason)), txId) == Failure(Rejected(status, reason))
  {
    var contentType := "text/plain";
    assert Printable(contentType);
    ResponseRoundTrip(status, contentType, reason);
  }
}
