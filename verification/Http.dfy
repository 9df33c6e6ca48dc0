/** The little HTTP that the ingress understands. */
module Http {
  import opened Primitives
  import opened Text

  // ----- lines and headers -----

  function StripCr(line: string): string {
    if line != "" && line[|line| - 1] == '\r' then line[..|line| - 1] else line
  }

  /** `str::lines`. */
  function Lines(s: string): seq<string> {
    if s == "" then []
    else
      match FindChar(s, '\n')
      case None => [s]
      case Some(i) => [StripCr(s[..i])] + Lines(s[i + 1..])
  }

  function Lower(c: char): char {
    if 'A' <= c <= 'Z' then (c as int + 32) as char else c
  }

  function LowerAll(s: string): (r: string)
    ensures |r| == |s|
  {
    seq(|s|, i requires 0 <= i < |s| => Lower(s[i]))
  }

  /** The value of a header line with the given name. */
  function HeaderLine(line: string, name: string): Option<string> {
    match FindChar(line, ':')
    case None => None
    case Some(i) => if LowerAll(Trim(line[..i])) == LowerAll(name) then Some(Trim(line[i + 1..])) else None
  }

  function FirstHeader(lines: seq<string>, name: string): Option<string> {
    if lines == [] then None
    else match HeaderLine(lines[0], name) case Some(v) => Some(v) case None => FirstHeader(lines[1..], name)
  }

  /** `header_value`: the first line that matches. */
  function HeaderValue(headers: string, name: string): Option<string> {
    FirstHeader(Lines(headers), name)
  }

  function Digits(s: string, acc: nat): Option<nat> {
    if s == "" then Some(acc)
    else if '0' <= s[0] <= '9' then Digits(s[1..], 10 * acc + (s[0] as int - '0' as int))
    else None
  }

  /** `parse::<usize>` on a 64-bit target. */
  function ParseUsize(s: string): Option<nat> {
    var digits := if |s| > 1 && s[0] == '+' then s[1..] else s;
    if digits == "" then None
    else match Digits(digits, 0) case Some(n) => if n <= U64_MAX then Some(n) else None case None => None
  }

  predicate LineBreakAt(s: string, i: nat) { i + 2 <= |s| && s[i] == '\r' && s[i + 1] == '\n' }

  /** The position of the first line break of two characters, from `from` on. */
  function FindCrLf(s: string, from: nat): (r: Option<nat>)
    ensures r.Some? ==> r.value + 2 <= |s|
    decreases |s| - from
  {
    if from >= |s| then None else if LineBreakAt(s, from) then Some(from) else FindCrLf(s, from + 1)
  }

  lemma {:induction false} FindCrLfFirst(s: string, from: nat)
    ensures
      match FindCrLf(s, from)
      case None => forall k :: from <= k ==> !LineBreakAt(s, k)
      case Some(i) => from <= i && LineBreakAt(s, i) && forall k :: from <= k < i ==> !LineBreakAt(s, k)
    decreases |s| - from
  {
    if from < |s| && !LineBreakAt(s, from) { FindCrLfFirst(s, from + 1); }
  }

  predicate BlankLineAt(s: string, i: nat) {
    i + 4 <= |s| && s[i] == '\r' && s[i + 1] == '\n' && s[i + 2] == '\r' && s[i + 3] == '\n'
  }

  /** The position of the first blank line. */
  function FindBlankLine(s: string, from: nat): (r: Option<nat>)
    ensures r.Some? ==> r.value + 4 <= |s|
    decreases |s| - from
  {
    if from >= |s| then None
    else if BlankLineAt(s, from) then Some(from)
    else FindBlankLine(s, from + 1)
  }

  lemma {:induction false} FindBlankLineFirst(s: string, from: nat)
    ensures
      match FindBlankLine(s, from)
      case None => forall k :: from <= k ==> !BlankLineAt(s, k)
      case Some(i) => from <= i && BlankLineAt(s, i) && forall k :: from <= k < i ==> !BlankLineAt(s, k)
    decreases |s| - from
  {
    if from < |s| && !BlankLineAt(s, from) { FindBlankLineFirst(s, from + 1); }
  }

  /** Method and path: the first two tokens of the request line. */
  function MethodAndPath(line: string): Option<(string, string)> {
    match FindChar(line, ' ')
    case None => None
    case Some(i) =>
      var rest := line[i + 1..];
      Some((line[..i], match FindChar(rest, ' ') case None => rest case Some(j) => rest[..j]))
  }

  function SplitHead(head: string): (string, string) {
    match FindCrLf(head, 0)
    case None => (head, "")
    case Some(i) => (head[..i], head[i + 2..])
  }

  // ----- what comes after a finished line cannot change the lines before it -----

  lemma FindCharPrefix(a: string, b: string, c: char)
    requires c in a
    ensures FindChar(a + b, c) == FindChar(a, c)
  {
    var s := a + b;
    FindCharFirst(a, c);
    FindCharFirst(s, c);
    var i := FindChar(a, c).value;
    assert s[i] == c && s[..i] == a[..i];
    assert forall j :: i < j <= |s| ==> s[..j][i] == c;
  }

  lemma LinesSplit(s: string, i: nat, first: string, rest: string)
    requires FindChar(s, '\n') == Some(i) && first == s[..i] && rest == s[i + 1..]
    ensures Lines(s) == [StripCr(first)] + Lines(rest)
  {}

  lemma SplitPrefix(a: string, b: string, i: nat)
    requires FindChar(a, '\n') == Some(i)
    ensures FindChar(a + b, '\n') == Some(i)
    ensures (a + b)[..i] == a[..i] && (a + b)[i + 1..] == a[i + 1..] + b
  {
    FindCharFirst(a, '\n');
    FindCharPrefix(a, b, '\n');
  }

  lemma Glue(line: string, a: seq<string>, both: seq<string>, rest: seq<string>, restBoth: seq<string>, b: seq<string>)
    requires a == [line] + rest && both == [line] + restBoth && restBoth == rest + b
    ensures both == a + b
  {}

  lemma NoLines(a: string, b: string)
    requires a == ""
    ensures Lines(a + b) == Lines(a) + Lines(b)
  {
    assert a + b == b;
  }

  lemma {:induction false} LinesConcat(a: string, b: string)
    requires a != "" ==> a[|a| - 1] == '\n'
    ensures Lines(a + b) == Lines(a) + Lines(b)
  {
    if a == "" {
      NoLines(a, b);
    } else {
      FindCharFirst(a, '\n');
      var i := FindChar(a, '\n').value;
      var rest := a[i + 1..];
      if rest != "" { assert rest[|rest| - 1] == a[|a| - 1]; }
      LinesConcat(rest, b);
      SplitPrefix(a, b, i);
      LinesSplit(a, i, a[..i], rest);
      LinesSplit(a + b, i, a[..i], rest + b);
      Glue(StripCr(a[..i]), Lines(a), Lines(a + b), Lines(rest), Lines(rest + b), Lines(b));
    }
  }

  lemma {:induction false} FirstHeaderConcat(a: seq<string>, b: seq<string>, name: string)
    requires FirstHeader(a, name).Some?
    ensures FirstHeader(a + b, name) == FirstHeader(a, name)
  {
    assert (a + b)[1..] == a[1..] + b;
    if HeaderLine(a[0], name).None? { FirstHeaderConcat(a[1..], b, name); }
  }

  /** A header found in finished lines is found whatever text follows them. */
  lemma HeaderValueStable(a: string, b: string, name: string)
    requires a != "" && a[|a| - 1] == '\n'
    requires HeaderValue(a, name).Some?
    ensures HeaderValue(a + b, name) == HeaderValue(a, name)
  {
    LinesConcat(a, b);
    FirstHeaderConcat(Lines(a), Lines(b), name);
  }

  lemma {:induction false} FirstHeaderLater(a: seq<string>, b: seq<string>, name: string)
    requires FirstHeader(a, name).None?
    ensures FirstHeader(a + b, name) == FirstHeader(b, name)
  {
    if a == [] {
      assert a + b == b;
    } else {
      assert (a + b)[1..] == a[1..] + b;
      FirstHeaderLater(a[1..], b, name);
    }
  }

  /** A header missing from finished lines is looked for in whatever text follows them. */
  lemma HeaderValueLater(a: string, b: string, name: string)
    requires a != "" && a[|a| - 1] == '\n'
    requires HeaderValue(a, name).None?
    ensures HeaderValue(a + b, name) == HeaderValue(b, name)
  {
    LinesConcat(a, b);
    FirstHeaderLater(Lines(a), Lines(b), name);
  }

  /** No white space around it. */
  predicate Trimmed(s: string) {
    s != "" && !IsWhite(s[0]) && !IsWhite(s[|s| - 1])
  }

  function Line(name: string, value: string): string {
    name + [':'] + value + ['\r', '\n']
  }

  lemma OneLine(line: string)
    requires '\n' !in line
    ensures Lines(line + ['\r', '\n']) == [line]
  {
    var text := line + ['\r', '\n'];
    assert text == (line + ['\r']) + ['\n'] + "";
    FindCharAfter(line + ['\r'], '\n', "");
    assert text[..|line| + 1] == line + ['\r'] && StripCr(line + ['\r']) == line;
    assert text[|line| + 2..] == "";
  }

  /** A header line is found by its name in any case, and its value comes without the space around it. */
  lemma FieldLine(key: string, raw: string, name: string)
    requires Trimmed(key) && ':' !in key
    ensures HeaderLine(key + [':'] + raw, name)
         == if LowerAll(key) == LowerAll(name) then Some(Trim(raw)) else None
  {
    var line := key + [':'] + raw;
    FindCharAfter(key, ':', raw);
    assert line[..|key|] == key && line[|key| + 1..] == raw;
  }

  lemma LineGivesHeader(name: string, value: string)
    requires Trimmed(name) && Trimmed(value)
    requires ':' !in name && '\n' !in name && '\n' !in value
    ensures HeaderValue(Line(name, value), name) == Some(value)
  {
    var line := name + [':'] + value;
    OneLine(line);
    FieldLine(name, value, name);
  }

  /** The first two words of a request line, the second up to the next space or the end. */
  lemma RequestLineParts(verb: string, path: string, rest: string)
    requires ' ' !in verb && ' ' !in path
    ensures MethodAndPath(verb) == None && MethodAndPath(verb + [' '] + path) == Some((verb, path))
    ensures MethodAndPath(verb + [' '] + path + [' '] + rest) == Some((verb, path))
  {
    var short, long := verb + [' '] + path, verb + [' '] + path + [' '] + rest;
    FindCharFirst(verb, ' ');
    FindCharAt(short, ' ', |verb|);
    FindCharAt(long, ' ', |verb|);
    assert short[|verb| + 1..] == path && long[|verb| + 1..] == path + [' '] + rest;
    FindCharFirst(path, ' ');
    FindCharAt(path + [' '] + rest, ' ', |path|);
    assert short[..|verb|] == verb && long[..|verb|] == verb && (path + [' '] + rest)[..|path|] == path;
  }

  lemma {:induction false} FindCharAt(s: string, c: char, i: nat)
    requires i < |s| && s[i] == c && c !in s[..i]
    ensures FindChar(s, c) == Some(i)
  {
    if i > 0 {
      assert s[..i][0] == s[0] && s[1..][..i - 1] == s[..i][1..];
      FindCharAt(s[1..], c, i - 1);
    }
  }

  /** One leading plus is ignored, as by Rust's integer parser. */
  lemma PlusIgnored(s: string)
    requires s != "" && s[0] != '+'
    ensures ParseUsize(['+'] + s) == ParseUsize(s)
    ensures ParseUsize("+") == None && ParseUsize("") == None && ParseUsize(['+', '+'] + s) == None
  {
    assert (['+'] + s)[1..] == s;
    assert (['+', '+'] + s)[1..] == ['+'] + s;
    assert Digits("+", 0) == None;
  }
}
