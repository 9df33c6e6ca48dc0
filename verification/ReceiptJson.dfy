/** The acceptance receipt: the JSON the ingress prints by hand and the client's own parser for it. */
module ReceiptJson {
  import opened Primitives

  // ----- json_escape -----

  function HexDigit(n: nat): char
    requires n < 16
  {
    "0123456789abcdef"[n]
  }

  /** Four lower-case hex digits of a control character. */
  function Hex4(n: nat): string
    requires n < 0x20
  {
    ['0', '0', HexDigit(n / 16), HexDigit(n % 16)]
  }

  function EscapeChar(c: char): string {
    if c == '"' then "\\\""
    else if c == '\\' then "\\\\"
    else if c == '\n' then "\\n"
    else if c == '\r' then "\\r"
    else if c == '\t' then "\\t"
    else if c as int < 0x20 then "\\u" + Hex4(c as int)
    else [c]
  }

  function Escape(s: string): string {
    if s == "" then "" else EscapeChar(s[0]) + Escape(s[1..])
  }

  method JsonEscape(s: string) returns (out: string)
    ensures out == Escape(s)
  {
    out := "";
    for i := 0 to |s|
      invariant out + Escape(s[i..]) == Escape(s)
    {
      var c := s[i];
      var piece;
      if c == '"' {
        piece := "\\\"";
      } else if c == '\\' {
        piece := "\\\\";
      } else if c == '\n' {
        piece := "\\n";
      } else if c == '\r' {
        piece := "\\r";
      } else if c == '\t' {
        piece := "\\t";
      } else if c as int < 0x20 {
        piece := "\\u" + Hex4(c as int);
      } else {
        piece := [c];
      }
      PushPiece(out, s, i, piece);
      out := out + piece;
    }
    assert s[|s|..] == "" && out + "" == out;
  }

  lemma PushPiece(out: string, s: string, i: nat, piece: string)
    requires i < |s| && piece == EscapeChar(s[i])
    ensures out + Escape(s[i..]) == out + piece + Escape(s[i + 1..])
  {
    assert s[i..][1..] == s[i + 1..];
    assert out + (piece + Escape(s[i + 1..])) == out + piece + Escape(s[i + 1..]);
  }

  function Quoted(s: string): string {
    "\"" + s + "\""
  }

  function Member(key: string, value: string): string {
    Quoted(key) + ":" + value
  }

  /** The response body for an accepted transaction: `{"accepted":true,"tx_id":"..."}`. */
  function Receipt(id: string): string {
    "{" + Member("accepted", "true," + Member("tx_id", Quoted(Escape(id)))) + "}"
  }

  // ----- unquote -----

  function HexValue(c: char): Option<nat> {
    if '0' <= c <= '9' then Some(c as int - '0' as int)
    else if 'a' <= c <= 'f' then Some(c as int - 'a' as int + 10)
    else if 'A' <= c <= 'F' then Some(c as int - 'A' as int + 10)
    else None
  }

  function HexDigits(s: string, acc: nat): Option<nat> {
    if s == "" then Some(acc)
    else match HexValue(s[0]) case None => None case Some(d) => HexDigits(s[1..], 16 * acc + d)
  }

  /** `u32::from_str_radix(s, 16)` on at most four characters: a leading plus sign is allowed, no digits are not. */
  function ParseHex(s: string): Option<nat> {
    if s == "" || s == "+" then None
    else if s[0] == '+' then HexDigits(s[1..], 0)
    else HexDigits(s, 0)
  }

  /** `char::from_u32`. */
  function FromU32(n: nat): Option<char> {
    if n < 0xD800 || 0xE000 <= n < 0x11_0000 then Some(n as char) else None
  }

  function Prepend(c: char, s: Option<string>): Option<string> {
    match s case None => None case Some(t) => Some([c] + t)
  }

  /** Decode the inside of a quoted string. */
  function Decode(s: string): Option<string> {
    if s == "" then Some("")
    else if s[0] != '\\' then Prepend(s[0], Decode(s[1..]))
    else if |s| < 2 then None
    else if s[1] == '"' || s[1] == '\\' then Prepend(s[1], Decode(s[2..]))
    else if s[1] == 'n' then Prepend('\n', Decode(s[2..]))
    else if s[1] == 'r' then Prepend('\r', Decode(s[2..]))
    else if s[1] == 't' then Prepend('\t', Decode(s[2..]))
    else if s[1] == 'u' then
      var n := if |s| < 6 then |s| else 6;
      match ParseHex(s[2..n])
      case None => None
      case Some(cp) =>
        (match FromU32(cp)
         case None => None
         case Some(c) => Prepend(c, Decode(s[n..])))
    else None
  }

  function Unquote(raw: string): Option<string> {
    if |raw| >= 2 && raw[0] == '"' && raw[|raw| - 1] == '"' then Decode(raw[1..|raw| - 1]) else None
  }

  /** Appending what was decoded so far. */
  function Onto(out: string, s: Option<string>): Option<string> {
    match s case None => None case Some(t) => Some(out + t)
  }

  lemma OntoPrepend(out: string, c: char, s: Option<string>)
    ensures Onto(out, Prepend(c, s)) == Onto(out + [c], s)
  {
    if s.Some? { assert out + ([c] + s.value) == (out + [c]) + s.value; }
  }

  /** `unquote`: one pass over the characters, pushing decoded ones. */
  method UnquoteString(raw: string) returns (r: Option<string>)
    ensures r == Unquote(raw)
  {
    if |raw| < 2 || raw[0] != '"' || raw[|raw| - 1] != '"' { return None; }
    var inner := raw[1..|raw| - 1];
    var out: string := "";
    var rest := inner;
    if Decode(inner).Some? { assert "" + Decode(inner).value == Decode(inner).value; }
    while rest != ""
      invariant Onto(out, Decode(rest)) == Decode(inner)
      decreases |rest|
    {
      var next: char;
      var used: nat;
      if rest[0] != '\\' {
        next, used := rest[0], 1;
      } else {
        if |rest| < 2 { return None; }
        if rest[1] == '"' || rest[1] == '\\' {
          next, used := rest[1], 2;
        } else if rest[1] == 'n' {
          next, used := '\n', 2;
        } else if rest[1] == 'r' {
          next, used := '\r', 2;
        } else if rest[1] == 't' {
          next, used := '\t', 2;
        } else if rest[1] == 'u' {
          used := if |rest| < 6 then |rest| else 6;
          var cp := ParseHex(rest[2..used]);
          if cp.None? { return None; }
          var c := FromU32(cp.value);
          if c.None? { return None; }
          next := c.value;
        } else {
          return None;
        }
      }
      assert Decode(rest) == Prepend(next, Decode(rest[used..]));
      OntoPrepend(out, next, Decode(rest[used..]));
      out, rest := out + [next], rest[used..];
    }
    assert out + "" == out;
    r := Some(out);
  }

  // ----- escaping and decoding are inverse -----

  lemma DecodeEscapedChar(c: char, s: string)
    ensures Decode(EscapeChar(c) + s) == Prepend(c, Decode(s))
  {
    var e := EscapeChar(c) + s;
    if c == '"' || c == '\\' || c == '\n' || c == '\r' || c == '\t' {
      assert e[2..] == s;
    } else if c as int < 0x20 {
      var n := c as int;
      assert e[2..6] == Hex4(n) && e[6..] == s;
      ControlHex(n);
    } else {
      assert e[1..] == s;
    }
  }

  lemma ControlHex(n: nat)
    requires n < 0x20
    ensures ParseHex(Hex4(n)) == Some(n)
  {
    var h := Hex4(n);
    DigitValue(0);
    DigitValue(n / 16);
    DigitValue(n % 16);
    assert h[1..] == ['0', HexDigit(n / 16), HexDigit(n % 16)];
    assert h[1..][1..] == [HexDigit(n / 16), HexDigit(n % 16)];
    assert h[1..][1..][1..] == [HexDigit(n % 16)];
    assert HexDigits([HexDigit(n % 16)], n / 16) == HexDigits("", 16 * (n / 16) + n % 16) == Some(n);
    assert HexDigits(h[1..][1..], 0) == Some(n);
    assert HexDigits(h[1..], 0) == Some(n);
  }

  lemma DigitValue(n: nat)
    requires n < 16
    ensures HexValue(HexDigit(n)) == Some(n)
  {
  }

  /** `unquote` undoes `json_escape` on every string. */
  lemma {:induction false} DecodeEscape(s: string)
    ensures Decode(Escape(s)) == Some(s)
  {
    if s != "" {
      DecodeEscapedChar(s[0], Escape(s[1..]));
      DecodeEscape(s[1..]);
      assert [s[0]] + s[1..] == s;
    }
  }

  /** Escaped text has no control characters, as section 7 of RFC 8259 demands of a string. */
  lemma {:induction false} EscapedHasNoControls(s: string, i: nat)
    requires i < |Escape(s)|
    ensures Escape(s)[i] as int >= 0x20
  {
    var first := EscapeChar(s[0]);
    if i < |first| {
      if |first| == 6 { HexIsPrintable(s[0] as int); }
      assert Escape(s)[i] == first[i];
    } else {
      EscapedHasNoControls(s[1..], i - |first|);
    }
  }

  lemma HexIsPrintable(n: nat)
    requires n < 0x20
    ensures forall i :: 0 <= i < 4 ==> Hex4(n)[i] as int >= 0x20
  {
  }

  /** Only what needs it is escaped: quote, backslash and control characters. */
  lemma EscapeLeavesRest(c: char)
    ensures EscapeChar(c) == [c] <==> c != '"' && c != '\\' && c as int >= 0x20
    ensures EscapeChar(c) != [c] ==> EscapeChar(c)[0] == '\\'
  {
  }

  function PrependAll(p: string, s: Option<string>): Option<string> {
    match s case None => None case Some(t) => Some(p + t)
  }

  lemma PrependStep(c: char, p: string, s: Option<string>)
    ensures Prepend(c, PrependAll(p, s)) == PrependAll([c] + p, s)
  {
    if s.Some? { assert [c] + (p + s.value) == ([c] + p) + s.value; }
  }

  lemma EscapeSplits(p: string, s: string)
    requires p != ""
    ensures Escape(p) + s == EscapeChar(p[0]) + (Escape(p[1..]) + s)
  {
  }

  lemma PrependNothing(p: string, s: Option<string>)
    requires p == ""
    ensures PrependAll(p, s) == s
  {
    if s.Some? { assert p + s.value == s.value; }
  }

  lemma {:induction false} DecodeAfter(p: string, s: string)
    ensures Decode(Escape(p) + s) == PrependAll(p, Decode(s))
  {
    if p == "" {
      assert Escape(p) + s == s;
      PrependNothing(p, Decode(s));
    } else {
      EscapeSplits(p, s);
      DecodeEscapedChar(p[0], Escape(p[1..]) + s);
      DecodeAfter(p[1..], s);
      PrependStep(p[0], p[1..], Decode(s));
      assert [p[0]] + p[1..] == p;
    }
  }

  /** After any text, an unknown escape or a backslash at the end refuses the whole string. */
  lemma BadEscapeRefused(p: string, x: char, rest: string)
    requires x !in ['"', '\\', 'n', 'r', 't', 'u']
    ensures Decode(Escape(p) + (['\\', x] + rest)) == None && Decode(Escape(p) + ['\\']) == None
  {
    DecodeAfter(p, ['\\', x] + rest);
    DecodeAfter(p, ['\\']);
  }

  lemma UnquoteQuoted(s: string)
    ensures Unquote(Quoted(s)) == Decode(s)
  {
    assert Quoted(s)[1..|Quoted(s)| - 1] == s;
  }
}
