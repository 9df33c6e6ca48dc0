/** The client's parser for the receipt, and the check it makes before it believes an answer. */
module ReceiptParser {
  import opened Primitives
  import opened Text
  import opened ReceiptJson

  const QUOTE: Byte := 34
  const BACKSLASH: Byte := 92

  // ----- find_string_end -----

  /** The scan on bytes: a backslash skips the byte after it. */
  function ScanBytes(b: Bytes, i: nat): Option<nat>
    decreases |b| - i
  {
    if i >= |b| then None
    else if b[i] == BACKSLASH then ScanBytes(b, i + 2)
    else if b[i] == QUOTE then Some(i)
    else ScanBytes(b, i + 1)
  }

  /** The scan on characters: a backslash skips the character after it. */
  function ScanChars(s: string, i: nat): (r: Option<nat>)
    ensures r.Some? ==> i <= r.value < |s| && s[r.value] == '"'
    decreases |s| - i
  {
    if i >= |s| then None
    else if s[i] == '\\' then ScanChars(s, i + 2)
    else if s[i] == '"' then Some(i)
    else ScanChars(s, i + 1)
  }

  function EndOfString(s: string): (r: Option<nat>)
    ensures r.Some? ==> 1 <= r.value < |s| && s[0] == '"' && s[r.value] == '"'
  {
    if s == "" || s[0] != '"' then None else ScanChars(s, 1)
  }

  /** `find_string_end` on the bytes of the string. */
  method FindStringEnd(s: string) returns (r: Option<nat>)
    ensures r == match EndOfString(s) case None => None case Some(k) => Some(ByteOffset(s, k))
  {
    var bytes := Utf8(s);
    FirstByte(s);
    if |bytes| == 0 || bytes[0] != QUOTE { return None; }
    var i := 1;
    ScanAgrees(s, 1);
    while i < |bytes|
      invariant ScanBytes(bytes, i) == ScanBytes(bytes, 1)
      decreases |bytes| - i
    {
      if bytes[i] == BACKSLASH {
        i := i + 2;
      } else if bytes[i] == QUOTE {
        return Some(i);
      } else {
        i := i + 1;
      }
    }
    r := None;
  }

  lemma FirstByte(s: string)
    ensures |Utf8(s)| == 0 <==> s == ""
    ensures s != "" ==> (Utf8(s)[0] == QUOTE <==> s[0] == '"')
    ensures s != "" && s[0] == '"' ==> ByteOffset(s, 1) == 1
  {
    if s != "" { ByteOffsetNext(s, 0); assert s[..0] == ""; }
  }

  /** Bytes that are neither a quote nor a backslash are passed one by one. */
  lemma {:induction false} SkipPlain(b: Bytes, i: nat, j: nat)
    requires i <= j <= |b|
    requires forall k :: i <= k < j ==> b[k] != QUOTE && b[k] != BACKSLASH
    ensures ScanBytes(b, i) == ScanBytes(b, j)
    decreases j - i
  {
    if i < j { SkipPlain(b, i + 1, j); }
  }

  /** Inside one character, from its second byte on, there is nothing to stop at. */
  lemma TailIsPlain(s: string, i: nat, k: nat)
    requires i < |s| && ByteOffset(s, i) < k < ByteOffset(s, i + 1)
    ensures k < |Utf8(s)| && Utf8(s)[k] >= 0x80
  {
    ByteOffsetNext(s, i);
    assert Utf8(s)[k] == Utf8(s)[ByteOffset(s, i)..ByteOffset(s, i + 1)][k - ByteOffset(s, i)];
  }

  lemma HeadByte(s: string, i: nat)
    requires i < |s|
    ensures ByteOffset(s, i) < |Utf8(s)|
    ensures Utf8(s)[ByteOffset(s, i)] == QUOTE <==> s[i] == '"'
    ensures Utf8(s)[ByteOffset(s, i)] == BACKSLASH <==> s[i] == '\\'
  {
    ByteOffsetNext(s, i);
    assert Utf8(s)[ByteOffset(s, i)] == Utf8(s)[ByteOffset(s, i)..ByteOffset(s, i + 1)][0];
  }

  /** The byte scan and the character scan stop at the same place, whatever the text contains. */
  lemma {:induction false} ScanAgrees(s: string, i: nat)
    requires i <= |s|
    ensures ScanBytes(Utf8(s), ByteOffset(s, i))
         == match ScanChars(s, i) case None => None case Some(k) => Some(ByteOffset(s, k))
    decreases |s| - i
  {
    var b, o := Utf8(s), ByteOffset(s, i);
    if i == |s| {
      assert s[..i] == s;
    } else {
      HeadByte(s, i);
      ByteOffsetNext(s, i);
      if s[i] == '\\' {
        if i + 1 < |s| {
          ByteOffsetNext(s, i + 1);
          forall k | o + 2 <= k < ByteOffset(s, i + 2) ensures b[k] != QUOTE && b[k] != BACKSLASH {
            TailIsPlain(s, i + 1, k);
          }
          SkipPlain(b, o + 2, ByteOffset(s, i + 2));
          ScanAgrees(s, i + 2);
        } else {
          assert s[..i + 1] == s;
        }
      } else if s[i] != '"' {
        forall k | o <= k < ByteOffset(s, i + 1) ensures b[k] != QUOTE && b[k] != BACKSLASH {
          if k > o { TailIsPlain(s, i, k); }
        }
        SkipPlain(b, o, ByteOffset(s, i + 1));
        ScanAgrees(s, i + 1);
      }
    }
  }

  // ----- parse -----

  datatype Json = JString(text: string) | JBool(value: bool)

  type Fields = seq<(string, Json)>

  datatype ParseError =
    | NotAnObject
    | MissingColon(rest: string)
    | KeyNotString(key: string)
    | UnterminatedString(rest: string)
    | ValueNotString(raw: string)
    | TrailingGarbage(rest: string)

  /** A key and the text after its colon. */
  function ParseKey(s: string): (r: Result<(string, string), ParseError>)
    ensures r.Success? ==> |r.value.1| < |s|
  {
    match FindChar(s, ':')
    case None => Failure(MissingColon(s))
    case Some(i) =>
      match Unquote(Trim(s[..i]))
      case None => Failure(KeyNotString(Trim(s[..i])))
      case Some(key) => Success((key, TrimStart(s[i + 1..])))
  }

  /** A value and the text after it. */
  function ParseValue(s: string): (r: Result<(Json, string), ParseError>)
    ensures r.Success? ==> |r.value.1| <= |s|
  {
    if StartsWith(s, "true") then Success((JBool(true), s[4..]))
    else if StartsWith(s, "false") then Success((JBool(false), s[5..]))
    else
      match EndOfString(s)
      case None => Failure(UnterminatedString(s))
      case Some(end) =>
        match Unquote(s[..end + 1])
        case None => Failure(ValueNotString(s[..end]))
        case Some(t) => Success((JString(t), s[end + 1..]))
  }

  /** The fields from here to the end of the object, after the ones already read. */
  function ParseFields(s: string, fields: Fields): Result<Fields, ParseError>
    decreases |s|
  {
    match ParseKey(TrimStart(s))
    case Failure(e) => Failure(e)
    case Success((key, afterColon)) =>
      match ParseValue(afterColon)
      case Failure(e) => Failure(e)
      case Success((value, afterValue)) =>
        var rest := TrimStart(afterValue);
        var fields' := fields + [(key, value)];
        if rest != "" && rest[0] == ',' then ParseFields(rest[1..], fields')
        else if rest == "" then Success(fields')
        else Failure(TrailingGarbage(rest))
  }

  function ParseObject(text: string): Result<Fields, ParseError> {
    var t := Trim(text);
    if |t| >= 2 && t[0] == '{' && t[|t| - 1] == '}' then
      var inner := Trim(t[1..|t| - 1]);
      if inner == "" then Success([]) else ParseFields(inner, [])
    else Failure(NotAnObject)
  }

  method ParseStringValue(s: string) returns (r: Result<(Json, string), ParseError>)
    requires !StartsWith(s, "true") && !StartsWith(s, "false")
    ensures r == ParseValue(s)
  {
    var end := FindStringEnd(s);
    if end.None? { return Failure(UnterminatedString(s)); }
    var k := CharAt(s, end.value);
    CharAtOffset(s, EndOfString(s).value);
    var t := UnquoteString(s[..k + 1]);
    if t.None? { return Failure(ValueNotString(s[..k])); }
    r := Success((JString(t.value), s[k + 1..]));
  }

  /** `parse`: read fields off the front until nothing is left. */
  method Parse(text: string) returns (r: Result<Fields, ParseError>)
    ensures r == ParseObject(text)
  {
    var t := Trim(text);
    if |t| < 2 || t[0] != '{' || t[|t| - 1] != '}' { return Failure(NotAnObject); }
    var rest := Trim(t[1..|t| - 1]);
    if rest == "" { return Success([]); }
    ghost var inner := rest;
    var fields: Fields := [];
    while true
      invariant ParseFields(rest, fields) == ParseFields(inner, [])
      decreases |rest|
    {
      var s := TrimStart(rest);
      var keyEnd := FindChar(s, ':');
      if keyEnd.None? { return Failure(MissingColon(s)); }
      var keyRaw := Trim(s[..keyEnd.value]);
      var key := UnquoteString(keyRaw);
      if key.None? { return Failure(KeyNotString(keyRaw)); }
      s := TrimStart(s[keyEnd.value + 1..]);
      var value;
      if StartsWith(s, "true") {
        value, s := JBool(true), s[4..];
      } else if StartsWith(s, "false") {
        value, s := JBool(false), s[5..];
      } else {
        var v := ParseStringValue(s);
        if v.Failure? { return Failure(v.error); }
        value, s := v.value.0, v.value.1;
      }
      fields := fields + [(key.value, value)];
      s := TrimStart(s);
      if s != "" && s[0] == ',' {
        rest := s[1..];
      } else if s == "" {
        return Success(fields);
      } else {
        return Failure(TrailingGarbage(s));
      }
    }
  }

  // ----- the round trip -----

  predicate At(s: string, i: nat, t: string) {
    i + |t| <= |s| && s[i..i + |t|] == t
  }

  lemma AtSplit(s: string, i: nat, a: string, b: string)
    requires At(s, i, a + b)
    ensures At(s, i, a) && At(s, i + |a|, b)
  {
    assert s[i..i + |a|] == (a + b)[..|a|] == a;
    assert s[i + |a|..i + |a| + |b|] == (a + b)[|a|..] == b;
  }

  /** Wherever it stands, the scan runs over this piece without stopping. */
  ghost predicate Skips(e: string) {
    forall s, i: nat :: At(s, i, e) ==> ScanChars(s, i) == ScanChars(s, i + |e|)
  }

  lemma SkipsConcat(a: string, b: string)
    requires Skips(a) && Skips(b)
    ensures Skips(a + b)
  {
    forall s, i: nat | At(s, i, a + b) ensures ScanChars(s, i) == ScanChars(s, i + |a + b|) {
      AtSplit(s, i, a, b);
    }
  }

  lemma SkipsPlain(c: char)
    requires c != '"' && c != '\\'
    ensures Skips([c])
  {
    forall s, i: nat | At(s, i, [c]) ensures ScanChars(s, i) == ScanChars(s, i + 1) {
      assert s[i] == s[i..i + 1][0] == c;
    }
  }

  lemma SkipsPair(c: char)
    ensures Skips(['\\', c])
  {
    forall s, i: nat | At(s, i, ['\\', c]) ensures ScanChars(s, i) == ScanChars(s, i + 2) {
      assert s[i] == s[i..i + 2][0] == '\\';
    }
  }

  lemma SkipsEscapeChar(c: char)
    ensures Skips(EscapeChar(c))
  {
    var e := EscapeChar(c);
    if |e| == 2 {
      SkipsPair(e[1]);
      assert e == ['\\', e[1]];
    } else if |e| == 6 {
      var h := Hex4(c as int);
      PlainHex(c as int);
      SkipsPair('u');
      SkipsPlain(h[0]);
      SkipsPlain(h[1]);
      SkipsPlain(h[2]);
      SkipsPlain(h[3]);
      SkipsConcat([h[0]], [h[1]]);
      SkipsConcat([h[0]] + [h[1]], [h[2]]);
      SkipsConcat([h[0]] + [h[1]] + [h[2]], [h[3]]);
      assert h == [h[0]] + [h[1]] + [h[2]] + [h[3]];
      SkipsConcat(['\\', 'u'], h);
    } else {
      SkipsPlain(c);
    }
  }

  /** The scan never stops inside an escaped string. */
  lemma {:induction false} SkipsEscape(id: string)
    ensures Skips(Escape(id))
  {
    if id != "" {
      SkipsEscapeChar(id[0]);
      SkipsEscape(id[1..]);
      SkipsConcat(EscapeChar(id[0]), Escape(id[1..]));
    }
  }

  /** It stops at the true closing quote. */
  lemma EndOfQuoted(id: string)
    ensures EndOfString(Quoted(Escape(id))) == Some(|Escape(id)| + 1)
  {
    var s := Quoted(Escape(id));
    QuotedShape(Escape(id));
    SkipsEscape(id);
    assert At(s, 1, Escape(id));
    assert ScanChars(s, 1 + |Escape(id)|) == Some(1 + |Escape(id)|);
  }

  lemma PlainHex(n: nat)
    requires n < 0x20
    ensures forall k :: 0 <= k < 4 ==> Hex4(n)[k] != '"' && Hex4(n)[k] != '\\'
  {
  }

  lemma {:induction false} DecodePlain(s: string)
    requires '\\' !in s
    ensures Decode(s) == Some(s)
  {
    if s != "" {
      DecodePlain(s[1..]);
      assert [s[0]] + s[1..] == s;
    }
  }

  /** A quoted key without escapes, a colon, and text that does not start with white space. */
  lemma PlainKey(key: string, rest: string)
    requires '\\' !in key && ':' !in key && rest != "" && !IsWhite(rest[0])
    ensures ParseKey(Member(key, rest)) == Success((key, rest))
    ensures TrimStart(Member(key, rest)) == Member(key, rest)
  {
    var quoted := Quoted(key);
    var s := Member(key, rest);
    FindCharAfter(quoted, ':', rest);
    assert s == quoted + [':'] + rest;
    assert s[..|quoted|] == quoted && s[|quoted| + 1..] == rest;
    assert Trim(quoted) == quoted;
    UnquoteQuoted(key);
    DecodePlain(key);
  }

  lemma FirstOf(s: string, p: string)
    requires p != ""
    ensures StartsWith(s, p) ==> s[0] == p[0]
  {
    if StartsWith(s, p) { assert s[..|p|][0] == s[0]; }
  }

  lemma NoLiteral(s: string)
    requires s != "" && s[0] == '"'
    ensures !StartsWith(s, "true") && !StartsWith(s, "false")
  {
    FirstOf(s, "true");
    FirstOf(s, "false");
  }

  lemma QuotedShape(t: string)
    ensures var s := Quoted(t);
            s[0] == '"' && |s| == |t| + 2 && At(s, 1, t) && s[|t| + 1] == '"'
            && s[..|t| + 2] == s && s[|t| + 2..] == ""
  {
  }

  /** The printed id, read back as a value. */
  lemma EscapedValue(id: string)
    ensures ParseValue(Quoted(Escape(id))) == Success((JString(id), ""))
  {
    var s := Quoted(Escape(id));
    QuotedShape(Escape(id));
    NoLiteral(s);
    EndOfQuoted(id);
    UnquoteQuoted(Escape(id));
    DecodeEscape(id);
  }

  lemma SecondField(id: string, fields: Fields)
    ensures ParseFields(Member("tx_id", Quoted(Escape(id))), fields) == Success(fields + [("tx_id", JString(id))])
  {
    PlainKey("tx_id", Quoted(Escape(id)));
    EscapedValue(id);
  }

  lemma TrueThen(more: string)
    ensures ParseValue("true," + more) == Success((JBool(true), "," + more))
    ensures TrimStart("," + more) == "," + more && ("," + more)[1..] == more
  {
    var s := "true," + more;
    assert s[..4] == "true" && s[4..] == "," + more;
  }

  lemma FirstField(more: string)
    ensures ParseFields(Member("accepted", "true," + more), []) == ParseFields(more, [("accepted", JBool(true))])
  {
    PlainKey("accepted", "true," + more);
    TrueThen(more);
    assert [] + [("accepted", JBool(true))] == [("accepted", JBool(true))];
  }

  lemma TrimNothing(s: string)
    requires s != "" && !IsWhite(s[0]) && !IsWhite(s[|s| - 1])
    ensures Trim(s) == s
  {
  }

  lemma BothFields(id: string)
    ensures ParseFields(Member("accepted", "true," + Member("tx_id", Quoted(Escape(id)))), [])
         == Success([("accepted", JBool(true)), ("tx_id", JString(id))])
  {
    FirstField(Member("tx_id", Quoted(Escape(id))));
    SecondField(id, [("accepted", JBool(true))]);
    assert [("accepted", JBool(true))] + [("tx_id", JString(id))]
        == [("accepted", JBool(true)), ("tx_id", JString(id))];
  }

  /** For every id, the client reads back exactly what the ingress printed. */
  lemma ReceiptRoundTrip(id: string)
    ensures ParseObject(Receipt(id)) == Success([("accepted", JBool(true)), ("tx_id", JString(id))])
  {
    var second := Member("tx_id", Quoted(Escape(id)));
    var inner := Member("accepted", "true," + second);
    assert inner[0] == '"' && inner[|inner| - 1] == '"';
    Braces(inner);
    BothFields(id);
  }

  lemma Braces(inner: string)
    requires inner != "" && inner[0] == '"' && inner[|inner| - 1] == '"'
    ensures ParseObject("{" + inner + "}") == ParseFields(inner, [])
  {
    var text := "{" + inner + "}";
    TrimNothing(text);
    TrimNothing(inner);
    assert text[1..|text| - 1] == inner;
  }

  /** Different ids print as different receipts. */
  lemma ReceiptInjective(a: string, b: string)
    requires Receipt(a) == Receipt(b)
    ensures a == b
  {
    ReceiptRoundTrip(a);
    ReceiptRoundTrip(b);
    assert [("accepted", JBool(true)), ("tx_id", JString(a))][1]
        == [("accepted", JBool(true)), ("tx_id", JString(b))][1];
  }

  // ----- the receipt check in submit -----

  function Lookup(fields: Fields, key: string): Option<Json> {
    if fields == [] then None
    else if fields[0].0 == key then Some(fields[0].1)
    else Lookup(fields[1..], key)
  }

  lemma LookupTwo(a: Json, b: Json)
    ensures Lookup([("accepted", a), ("tx_id", b)], "accepted") == Some(a)
    ensures Lookup([("accepted", a), ("tx_id", b)], "tx_id") == Some(b)
  {
    var fields: Fields := [("accepted", a), ("tx_id", b)];
    assert fields[1..] == [("tx_id", b)];
    assert |"accepted"| != |"tx_id"|;
  }

  datatype ReceiptError = Unparsable(error: ParseError) | NotAccepted | MissingId | OtherId(echoed: string)

  /** What the client concludes from a 200 answer to the transaction it submitted. */
  function CheckReceipt(body: string, txId: string): Result<string, ReceiptError> {
    match ParseObject(body)
    case Failure(e) => Failure(Unparsable(e))
    case Success(fields) =>
      if Lookup(fields, "accepted") != Some(JBool(true)) then Failure(NotAccepted)
      else
        match Lookup(fields, "tx_id")
        case Some(JString(echoed)) => if echoed == txId then Success(txId) else Failure(OtherId(echoed))
        case _ => Failure(MissingId)
  }

  /** A client accepts the node's receipt exactly when it names the client's own transaction. */
  lemma ReceiptNamesOwnTransaction(id: string, txId: string)
    ensures CheckReceipt(Receipt(id), txId) == if id == txId then Success(txId) else Failure(OtherId(id))
  {
    ReceiptRoundTrip(id);
    LookupTwo(JBool(true), JString(id));
  }
}
