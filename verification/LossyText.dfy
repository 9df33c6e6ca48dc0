/** `String::from_utf8_lossy`: decoding bytes that may not be UTF-8. */
module LossyText {
  import opened Primitives

  const REPLACEMENT: char := '\U{FFFD}'

  predicate Continuation(b: Byte) { 0x80 <= b < 0xC0 }

  /** The second byte a three-byte sequence may have. */
  predicate SecondOfThree(b: Byte, c: Byte) {
    if b == 0xE0 then 0xA0 <= c < 0xC0 else if b == 0xED then 0x80 <= c < 0xA0 else Continuation(c)
  }

  predicate SecondOfFour(b: Byte, c: Byte) {
    if b == 0xF0 then 0x90 <= c < 0xC0 else if b == 0xF4 then 0x80 <= c < 0x90 else Continuation(c)
  }

  datatype Decoded = Decoded(c: char, used: nat)

  /** One character, or a replacement for the longest start of a sequence that went wrong. */
  function NextChar(b: Bytes): (r: Decoded)
    requires b != []
    ensures 1 <= r.used <= |b|
    ensures b[0] < 0x80 ==> r == Decoded(b[0] as char, 1)
  {
    var x: int := b[0];
    if x < 0x80 then Decoded(x as char, 1)
    else if 0xC2 <= x <= 0xDF then
      if |b| < 2 || !Continuation(b[1]) then Decoded(REPLACEMENT, 1)
      else Decoded(((x - 0xC0) * 0x40 + (b[1] - 0x80)) as char, 2)
    else if 0xE0 <= x <= 0xEF then
      if |b| < 2 || !SecondOfThree(x, b[1]) then Decoded(REPLACEMENT, 1)
      else if |b| < 3 || !Continuation(b[2]) then Decoded(REPLACEMENT, 2)
      else Decoded(((x - 0xE0) * 0x1000 + (b[1] - 0x80) as int * 0x40 + (b[2] - 0x80)) as char, 3)
    else if 0xF0 <= x <= 0xF4 then
      if |b| < 2 || !SecondOfFour(x, b[1]) then Decoded(REPLACEMENT, 1)
      else if |b| < 3 || !Continuation(b[2]) then Decoded(REPLACEMENT, 2)
      else if |b| < 4 || !Continuation(b[3]) then Decoded(REPLACEMENT, 3)
      else
        var low := (b[2] - 0x80) as int * 0x40 + (b[3] - 0x80);
        Decoded(((x - 0xF0) * 0x4_0000 + (b[1] - 0x80) as int * 0x1000 + low) as char, 4)
    else Decoded(REPLACEMENT, 1)
  }

  function Lossy(b: Bytes): string {
    if b == [] then "" else var d := NextChar(b); [d.c] + Lossy(b[d.used..])
  }

  predicate IsAscii(b: Bytes) {
    forall i :: 0 <= i < |b| ==> b[i] < 0x80
  }

  function AsciiText(b: Bytes): (s: string)
    requires IsAscii(b)
    ensures |s| == |b|
  {
    seq(|b|, i requires 0 <= i < |b| => b[i] as char)
  }

  /** ASCII at the front decodes to itself, whatever follows. */
  lemma {:induction false} LossyAscii(a: Bytes, r: Bytes)
    requires IsAscii(a)
    ensures Lossy(a + r) == AsciiText(a) + Lossy(r)
  {
    if a == [] {
      assert a + r == r && AsciiText(a) == "";
      assert "" + Lossy(r) == Lossy(r);
    } else {
      assert (a + r)[1..] == a[1..] + r;
      LossyAscii(a[1..], r);
      assert AsciiText(a) == [a[0] as char] + AsciiText(a[1..]);
      assert [a[0] as char] + (AsciiText(a[1..]) + Lossy(r)) == AsciiText(a) + Lossy(r);
    }
  }

  lemma TwoBytes(c: char, b: Bytes)
    requires 0x80 <= c as int < 0x800 && |b| >= 2
    requires b[0] == 0xC0 + c as int / 0x40 && b[1] == 0x80 + c as int % 0x40
    ensures NextChar(b) == Decoded(c, 2)
  {}

  lemma ThreeBytes(c: char, b: Bytes)
    requires 0x800 <= c as int < 0x1_0000 && |b| >= 3
    requires b[0] == 0xE0 + c as int / 0x1000 && b[1] == 0x80 + c as int / 0x40 % 0x40 && b[2] == 0x80 + c as int % 0x40
    ensures NextChar(b) == Decoded(c, 3)
  {}

  lemma FourBytes(c: char, b: Bytes)
    requires 0x1_0000 <= c as int && |b| >= 4
    requires b[0] == 0xF0 + c as int / 0x4_0000 && b[1] == 0x80 + c as int / 0x1000 % 0x40
    requires b[2] == 0x80 + c as int / 0x40 % 0x40 && b[3] == 0x80 + c as int % 0x40
    ensures NextChar(b) == Decoded(c, 4)
  {
    var n := c as int;
    assert n / 0x1000 == 0x40 * (n / 0x4_0000) + n / 0x1000 % 0x40 by { assert n / 0x4_0000 == n / 0x1000 / 0x40; }
    assert n / 0x40 == 0x40 * (n / 0x1000) + n / 0x40 % 0x40 by { assert n / 0x1000 == n / 0x40 / 0x40; }
    assert n == 0x40 * (n / 0x40) + n % 0x40;
  }

  /** The bytes of one character decode to that character. */
  lemma NextCharOfUtf8(c: char, rest: Bytes)
    ensures NextChar(Utf8Char(c) + rest) == Decoded(c, |Utf8Char(c)|)
  {
    var b := Utf8Char(c) + rest;
    if 0x80 <= c as int < 0x800 {
      TwoBytes(c, b);
    } else if 0x800 <= c as int < 0x1_0000 {
      ThreeBytes(c, b);
    } else if c as int >= 0x1_0000 {
      FourBytes(c, b);
    }
  }

  /** Decoding loses nothing of a text that was encoded properly. */
  lemma {:induction false} LossyUtf8(s: string)
    ensures Lossy(Utf8(s)) == s
  {
    if s != "" {
      var c, rest := Utf8Char(s[0]), Utf8(s[1..]);
      NextCharOfUtf8(s[0], rest);
      assert (c + rest)[|c|..] == rest;
      LossyUtf8(s[1..]);
      assert [s[0]] + s[1..] == s;
    }
  }

  lemma TwoEncoded(b: Bytes)
    requires |b| >= 2 && 0xC2 <= b[0] <= 0xDF && Continuation(b[1])
    ensures Utf8Char(NextChar(b).c) == b[..2]
  {}

  lemma ThreeEncoded(b: Bytes)
    requires |b| >= 3 && 0xE0 <= b[0] <= 0xEF && SecondOfThree(b[0], b[1]) && Continuation(b[2])
    ensures Utf8Char(NextChar(b).c) == b[..3]
  {}

  lemma FourEncoded(b: Bytes)
    requires |b| >= 4 && 0xF0 <= b[0] <= 0xF4 && SecondOfFour(b[0], b[1]) && Continuation(b[2]) && Continuation(b[3])
    ensures Utf8Char(NextChar(b).c) == b[..4]
  {
    var n := NextChar(b).c as int;
    assert n / 0x40 == (b[0] - 0xF0) as int * 0x1000 + (b[1] - 0x80) as int * 0x40 + (b[2] - 0x80) as int;
    assert n / 0x1000 == (b[0] - 0xF0) as int * 0x40 + (b[1] - 0x80) as int;
  }

  /** Anything but a replacement is read from the bytes that encode it: nothing overlong and no surrogate. */
  lemma DecodedIsEncoded(b: Bytes)
    requires b != [] && NextChar(b).c != REPLACEMENT
    ensures b[..NextChar(b).used] == Utf8Char(NextChar(b).c)
  {
    var x := b[0];
    if 0xC2 <= x <= 0xDF {
      TwoEncoded(b);
    } else if 0xE0 <= x <= 0xEF {
      ThreeEncoded(b);
    } else if x >= 0xF0 {
      FourEncoded(b);
    }
  }

  /** A character that is cut short before an ASCII byte or the end is one replacement, however much of it came. */
  lemma CutCharacter(c: char, k: nat, b: Bytes)
    requires 0 < k < |Utf8Char(c)| && (b == [] || b[0] < 0x80)
    ensures NextChar(Utf8Char(c)[..k] + b) == Decoded(REPLACEMENT, k)
  {
    var s := Utf8Char(c)[..k] + b;
    assert forall i :: 0 <= i < k ==> s[i] == Utf8Char(c)[i];
    assert b != [] ==> s[k] == b[0];
    var n := c as int;
    if n >= 0x1_0000 {
      assert n / 0x1000 == 0x40 * (n / 0x4_0000) + n / 0x1000 % 0x40 by { assert n / 0x4_0000 == n / 0x1000 / 0x40; }
    } else if n >= 0x800 {
      assert n / 0x40 == 0x40 * (n / 0x1000) + n / 0x40 % 0x40 by { assert n / 0x1000 == n / 0x40 / 0x40; }
    }
  }

  /** What starts with an ASCII byte does not change how the bytes before it are read. */
  lemma NextCharBefore(a: Bytes, b: Bytes)
    requires a != [] && (b == [] || b[0] < 0x80)
    ensures NextChar(a + b) == NextChar(a)
  {
    var s := a + b;
    assert s[0] == a[0];
    if b == [] {
      assert s == a;
    } else if |a| == 1 {
      assert s[1] == b[0];
    } else if |a| == 2 {
      assert s[1] == a[1] && s[2] == b[0];
    } else if |a| == 3 {
      assert s[1] == a[1] && s[2] == a[2] && s[3] == b[0];
    } else {
      assert s[1] == a[1] && s[2] == a[2] && s[3] == a[3];
    }
  }

  /** Any bytes decode by themselves when ASCII follows. */
  lemma {:induction false} LossyBefore(a: Bytes, b: Bytes)
    requires b == [] || b[0] < 0x80
    ensures Lossy(a + b) == Lossy(a) + Lossy(b)
  {
    if a == [] {
      assert a + b == b && "" + Lossy(b) == Lossy(b);
    } else {
      NextCharBefore(a, b);
      var d := NextChar(a);
      LossyBefore(a[d.used..], b);
      LossyStep(a, d);
      LossyStep(a + b, d);
      Regroup(a, b, d, Lossy(a[d.used..]), Lossy(b));
    }
  }

  lemma LossyStep(b: Bytes, d: Decoded)
    requires b != [] && NextChar(b) == d
    ensures Lossy(b) == [d.c] + Lossy(b[d.used..])
  {}

  lemma Regroup(a: Bytes, b: Bytes, d: Decoded, s: string, t: string)
    requires d.used <= |a|
    ensures (a + b)[d.used..] == a[d.used..] + b && [d.c] + (s + t) == [d.c] + s + t
  {}

  /** An ASCII character comes from its own byte. */
  lemma NextCharAscii(b: Bytes)
    requires b != [] && NextChar(b).c as int < 0x80
    ensures b[0] == NextChar(b).c as int && NextChar(b).used == 1
  {}

  /** A decoded character is at least as long as the bytes it stands for, a replacement included. */
  lemma NextCharWidth(b: Bytes)
    requires b != []
    ensures NextChar(b).used <= |Utf8Char(NextChar(b).c)|
  {}

  lemma {:induction false} LossyWidth(b: Bytes)
    ensures |b| <= |Utf8(Lossy(b))|
  {
    if b != [] {
      NextCharWidth(b);
      var d := NextChar(b);
      LossyWidth(b[d.used..]);
      assert Lossy(b)[1..] == Lossy(b[d.used..]);
    }
  }

  /** How many bytes longer the decoded text is than the bytes. */
  function Drift(b: Bytes): nat {
    LossyWidth(b);
    |Utf8(Lossy(b))| - |b|
  }

  /** Properly encoded text has none. */
  lemma Utf8NoDrift(s: string)
    ensures Drift(Utf8(s)) == 0
  {
    LossyUtf8(s);
  }

  lemma {:induction false} AsciiBytes(s: string)
    requires forall i :: 0 <= i < |s| ==> s[i] as int < 0x80
    ensures |Utf8(s)| == |s| && forall i :: 0 <= i < |s| ==> Utf8(s)[i] == s[i] as int
  {
    if s != "" {
      AsciiBytes(s[1..]);
      assert Utf8(s) == [s[0] as int] + Utf8(s[1..]);
    }
  }

  lemma AsciiWidth(b: Bytes)
    requires IsAscii(b)
    ensures |Utf8(AsciiText(b))| == |b| && Lossy(b) == AsciiText(b)
  {
    AsciiBytes(AsciiText(b));
    LossyAscii(b, []);
    assert b + [] == b && AsciiText(b) + Lossy([]) == AsciiText(b);
  }

  /** One byte that is not ASCII, in ASCII, makes the text two bytes longer. */
  lemma OneBadByte(a: Bytes, x: Byte, b: Bytes)
    requires IsAscii(a) && IsAscii(b) && x >= 0x80
    ensures Drift(a + [x] + b) == 2
  {
    var s := [x] + b;
    assert a + [x] + b == a + s && s[1..] == b;
    LossyAscii(a, s);
    AsciiWidth(a);
    AsciiWidth(b);
    assert NextChar(s) == Decoded(REPLACEMENT, 1);
    var rest := [REPLACEMENT] + AsciiText(b);
    assert Lossy(s) == rest && rest[1..] == AsciiText(b);
    assert |Utf8(rest)| == 3 + |b|;
    Utf8Concat(AsciiText(a), rest);
  }
}
