/** The string operations of Rust's standard library that the parsers use. */
module Text {
  import opened Primitives

  /** Unicode `White_Space`. */
  predicate IsWhite(c: char) {
    var n := c as int;
    || 0x09 <= n <= 0x0D || n == 0x20 || n == 0x85 || n == 0xA0 || n == 0x1680 || 0x2000 <= n <= 0x200A
    || n == 0x2028 || n == 0x2029 || n == 0x202F || n == 0x205F || n == 0x3000
  }

  function TrimStart(s: string): (r: string)
    ensures |r| <= |s|
  {
    if s != "" && IsWhite(s[0]) then TrimStart(s[1..]) else s
  }

  function TrimEnd(s: string): (r: string)
    ensures |r| <= |s|
  {
    if s != "" && IsWhite(s[|s| - 1]) then TrimEnd(s[..|s| - 1]) else s
  }

  function Trim(s: string): (r: string)
    ensures |r| <= |s|
  {
    TrimEnd(TrimStart(s))
  }

  predicate AllWhite(s: string) { forall i :: 0 <= i < |s| ==> IsWhite(s[i]) }

  lemma {:induction false} TrimStartTakes(s: string) returns (before: string)
    ensures AllWhite(before) && s == before + TrimStart(s) && (TrimStart(s) != "" ==> !IsWhite(TrimStart(s)[0]))
  {
    if s != "" && IsWhite(s[0]) {
      before := TrimStartTakes(s[1..]);
      before := [s[0]] + before;
      assert s == [s[0]] + s[1..];
    } else {
      before := "";
    }
  }

  lemma {:induction false} TrimEndTakes(s: string) returns (after: string)
    ensures AllWhite(after) && s == TrimEnd(s) + after && (TrimEnd(s) != "" ==> !IsWhite(TrimEnd(s)[|TrimEnd(s)| - 1]))
  {
    if s != "" && IsWhite(s[|s| - 1]) {
      after := TrimEndTakes(s[..|s| - 1]);
      after := after + [s[|s| - 1]];
      assert s == s[..|s| - 1] + [s[|s| - 1]];
    } else {
      after := "";
    }
  }

  /** Trimming takes white space off both ends, and all of it. */
  lemma TrimTakes(s: string) returns (before: string, after: string)
    ensures AllWhite(before) && AllWhite(after) && s == before + Trim(s) + after
    ensures Trim(s) != "" ==> !IsWhite(Trim(s)[0]) && !IsWhite(Trim(s)[|Trim(s)| - 1])
  {
    before := TrimStartTakes(s);
    after := TrimEndTakes(TrimStart(s));
    assert Trim(s) != "" ==> Trim(s)[0] == TrimStart(s)[0];
  }

  lemma {:induction false} TrimStartWhite(a: string, s: string)
    requires AllWhite(a) && (s == "" || !IsWhite(s[0]))
    ensures TrimStart(a + s) == s
  {
    if a == "" {
      assert a + s == s;
    } else {
      assert (a + s)[1..] == a[1..] + s;
      TrimStartWhite(a[1..], s);
    }
  }

  lemma {:induction false} TrimEndWhite(s: string, b: string)
    requires AllWhite(b) && (s == "" || !IsWhite(s[|s| - 1]))
    ensures TrimEnd(s + b) == s
  {
    if b == "" {
      assert s + b == s;
    } else {
      assert (s + b)[..|s + b| - 1] == s + b[..|b| - 1];
      TrimEndWhite(s, b[..|b| - 1]);
    }
  }

  lemma TrimWhite(a: string, s: string, b: string)
    requires AllWhite(a) && AllWhite(b) && s != "" && !IsWhite(s[0]) && !IsWhite(s[|s| - 1])
    ensures Trim(a + s + b) == s
  {
    assert a + s + b == a + (s + b);
    TrimStartWhite(a, s + b);
    TrimEndWhite(s, b);
  }

  predicate StartsWith(s: string, p: string) {
    |p| <= |s| && s[..|p|] == p
  }

  /** The first position of a character. */
  function FindChar(s: string, c: char): (r: Option<nat>)
    ensures r.Some? ==> r.value < |s|
  {
    if s == "" then None
    else if s[0] == c then Some(0)
    else match FindChar(s[1..], c) case None => None case Some(i) => Some(i + 1)
  }

  lemma {:induction false} FindCharFirst(s: string, c: char)
    ensures
      match FindChar(s, c)
      case None => c !in s
      case Some(i) => s[i] == c && c !in s[..i]
  {
    if s != "" && s[0] != c {
      FindCharFirst(s[1..], c);
      match FindChar(s[1..], c) {
        case None => assert s == [s[0]] + s[1..];
        case Some(i) => assert s[..i + 1] == [s[0]] + s[1..][..i];
      }
    }
  }

  lemma FindCharAfter(a: string, c: char, b: string)
    requires c !in a
    ensures FindChar(a + [c] + b, c) == Some(|a|)
  {
    var s := a + [c] + b;
    FindCharFirst(s, c);
    assert s[|a|] == c && forall k :: 0 <= k < |a| ==> s[k] == a[k];
    assert forall i :: |a| < i <= |s| ==> s[..i][|a|] == c;
  }

  /** Where character `i` starts among the bytes. */
  function ByteOffset(s: string, i: nat): nat
    requires i <= |s|
  {
    |Utf8(s[..i])|
  }

  lemma ByteOffsetNext(s: string, i: nat)
    requires i < |s|
    ensures ByteOffset(s, i + 1) == ByteOffset(s, i) + |Utf8Char(s[i])|
    ensures ByteOffset(s, i + 1) <= |Utf8(s)|
    ensures Utf8(s)[ByteOffset(s, i)..ByteOffset(s, i + 1)] == Utf8Char(s[i])
  {
    var a, b := s[..i], s[i + 1..];
    assert s[..i + 1] == a + [s[i]] && s == a + [s[i]] + b;
    assert [s[i]][1..] == "" && Utf8([s[i]]) == Utf8Char(s[i]) + Utf8("") == Utf8Char(s[i]);
    Utf8Concat(a, [s[i]]);
    Utf8Concat(a + [s[i]], b);
  }

  /** The character whose bytes start at the given offset. */
  function CharAt(s: string, offset: nat): (i: nat)
    ensures i <= |s|
  {
    if s == "" || offset == 0 then 0
    else if offset < |Utf8Char(s[0])| then 0
    else 1 + CharAt(s[1..], offset - |Utf8Char(s[0])|)
  }

  lemma {:induction false} CharAtOffset(s: string, i: nat)
    requires i <= |s|
    ensures CharAt(s, ByteOffset(s, i)) == i
  {
    if i > 0 {
      assert s[..i] == [s[0]] + s[1..][..i - 1] && s[..i][1..] == s[1..][..i - 1];
      CharAtOffset(s[1..], i - 1);
    }
  }
}
