/**
 The MessagePack format on the values of the model: a concrete encoder that has every property the binding
 results ask of one.
 */
module MessagePack {
  import opened Primitives
  import opened BigEndians
  import opened LossyText
  import opened Encoding

  /** What the first bytes of an encoding say: the kind, and a number or a length. */
  datatype Head = HNil | HInt(n: int) | HFloat(bits: nat) | HStr(length: nat) | HArr(length: nat) | HDict(length: nat)

  /** A head in one byte, or a tag byte with a number of fixed width, or nothing when the number is too large. */
  datatype Form = Short(byte: Byte) | Wide(tag: Byte, value: nat, width: nat) | TooLarge

  function Unsigned(n: nat): Form {
    if n < 0x80 then Short(n)
    else if n < 0x100 then Wide(0xCC, n, 1)
    else if n < 0x1_0000 then Wide(0xCD, n, 2)
    else if n < 0x1_0000_0000 then Wide(0xCE, n, 4)
    else if n < 0x1_0000_0000_0000_0000 then Wide(0xCF, n, 8)
    else TooLarge
  }

  /** Negative numbers in two's complement, in the shortest form. */
  function Signed(n: int): Form
    requires n < 0
  {
    if -0x20 <= n then Short(0x100 + n)
    else if -0x80 <= n then Wide(0xD0, 0x100 + n, 1)
    else if -0x8000 <= n then Wide(0xD1, 0x1_0000 + n, 2)
    else if -0x8000_0000 <= n then Wide(0xD2, 0x1_0000_0000 + n, 4)
    else if -0x8000_0000_0000_0000 <= n then Wide(0xD3, 0x1_0000_0000_0000_0000 + n, 8)
    else TooLarge
  }

  function FormOf(h: Head): Form {
    match h
    case HNil => Short(0xC0)
    case HInt(n) => if n >= 0 then Unsigned(n) else Signed(n)
    case HFloat(bits) => if bits < 0x1_0000_0000 then Wide(0xCA, bits, 4) else TooLarge
    case HStr(n) =>
      if n < 0x20 then Short(0xA0 + n)
      else if n < 0x100 then Wide(0xD9, n, 1)
      else if n < 0x1_0000 then Wide(0xDA, n, 2)
      else if n < 0x1_0000_0000 then Wide(0xDB, n, 4)
      else TooLarge
    case HArr(n) =>
      if n < 0x10 then Short(0x90 + n)
      else if n < 0x1_0000 then Wide(0xDC, n, 2)
      else if n < 0x1_0000_0000 then Wide(0xDD, n, 4)
      else TooLarge
    case HDict(n) =>
      if n < 0x10 then Short(0x80 + n)
      else if n < 0x1_0000 then Wide(0xDE, n, 2)
      else if n < 0x1_0000_0000 then Wide(0xDF, n, 4)
      else TooLarge
  }

  function FormBytes(f: Form): Option<Bytes> {
    match f
    case Short(x) => Some([x])
    case Wide(tag, n, k) => Some([tag] + BigEndian(n, k))
    case TooLarge => None
  }

  function EncodeHead(h: Head): Option<Bytes> { FormBytes(FormOf(h)) }

  // ----- reading a head back -----

  predicate WideTag(tag: Byte) { 0xC0 < tag < 0xE0 }

  /** How many bytes follow the tag of a wide head. */
  function Width(tag: Byte): nat {
    if tag == 0xCC || tag == 0xD0 || tag == 0xD9 then 1
    else if tag == 0xCD || tag == 0xD1 || tag == 0xDA || tag == 0xDC || tag == 0xDE then 2
    else if tag == 0xCF || tag == 0xD3 then 8
    else 4
  }

  function WideHead(tag: Byte, n: nat): Head {
    if tag == 0xCA then HFloat(n)
    else if 0xCC <= tag <= 0xCF then HInt(n)
    else if tag == 0xD0 then HInt(n - 0x100)
    else if tag == 0xD1 then HInt(n - 0x1_0000)
    else if tag == 0xD2 then HInt(n - 0x1_0000_0000)
    else if tag == 0xD3 then HInt(n - 0x1_0000_0000_0000_0000)
    else if 0xD9 <= tag <= 0xDB then HStr(n)
    else if 0xDC <= tag <= 0xDD then HArr(n)
    else HDict(n)
  }

  function ShortHead(x: int): Head
    requires 0 <= x <= 0xC0 || x >= 0xE0
  {
    if x < 0x80 then HInt(x)
    else if x < 0x90 then HDict(x - 0x80)
    else if x < 0xA0 then HArr(x - 0x90)
    else if x < 0xC0 then HStr(x - 0xA0)
    else if x == 0xC0 then HNil
    else HInt(x - 0x100)
  }

  /** The head at the front of some bytes, and how long it is. */
  function DecodeHead(b: Bytes): Option<(Head, nat)> {
    if b == [] then None
    else if !WideTag(b[0]) then Some((ShortHead(b[0]), 1))
    else if |b| < 1 + Width(b[0]) then None
    else Some((WideHead(b[0], FromBigEndian(b[1..1 + Width(b[0])])), 1 + Width(b[0])))
  }

  lemma RangeValues()
    ensures Range(1) == 0x100 && Range(2) == 0x1_0000
    ensures Range(4) == 0x1_0000_0000 && Range(8) == 0x1_0000_0000_0000_0000
  {
    assert Range(1) == 256 * Range(0);
    assert Range(2) == 256 * Range(1) && Range(3) == 256 * Range(2) && Range(4) == 256 * Range(3);
    assert Range(5) == 256 * Range(4) && Range(6) == 256 * Range(5);
    assert Range(7) == 256 * Range(6) && Range(8) == 256 * Range(7);
  }

  /** The form of a head says which head it is. */
  lemma FormReads(h: Head)
    ensures
      match FormOf(h)
      case Short(x) => !WideTag(x) && ShortHead(x) == h
      case Wide(tag, n, k) => WideTag(tag) && k == Width(tag) && n < Range(k) && WideHead(tag, n) == h
      case TooLarge => true
  {
    RangeValues();
  }

  lemma FormDecodes(f: Form, h: Head, rest: Bytes)
    requires
      match f
      case Short(x) => !WideTag(x) && ShortHead(x) == h
      case Wide(tag, n, k) => WideTag(tag) && k == Width(tag) && n < Range(k) && WideHead(tag, n) == h
      case TooLarge => false
    ensures DecodeHead(FormBytes(f).value + rest) == Some((h, |FormBytes(f).value|))
  {
    if f.Wide? {
      var b := FormBytes(f).value + rest;
      assert b[1..1 + f.width] == BigEndian(f.value, f.width);
      BigEndianRoundTrip(f.value, f.width);
    }
  }

  /** A head is read back from the front of any bytes. */
  lemma HeadRoundTrip(h: Head, rest: Bytes)
    requires EncodeHead(h).Some?
    ensures DecodeHead(EncodeHead(h).value + rest) == Some((h, |EncodeHead(h).value|))
  {
    FormReads(h);
    FormDecodes(FormOf(h), h, rest);
  }

  // ----- values -----

  function Join(a: Option<Bytes>, b: Option<Bytes>): Option<Bytes> {
    if a.Some? && b.Some? then Some(a.value + b.value) else None
  }

  function ValueHead(v: Value): Head {
    match v
    case Nil => HNil
    case Int(n) => HInt(n)
    case Float(bits) => HFloat(bits)
    case Str(text) => HStr(|Utf8(text)|)
    case Arr(items) => HArr(|items|)
    case Dict(entries) => HDict(|entries|)
  }

  function Encode(v: Value): Option<Bytes>
    decreases v, 1
  {
    Join(EncodeHead(ValueHead(v)), EncodeBody(v))
  }

  /** What follows the head. */
  function EncodeBody(v: Value): Option<Bytes>
    decreases v, 0
  {
    match v
    case Str(text) => Some(Utf8(text))
    case Arr(items) => EncodeItems(items)
    case Dict(entries) => EncodeEntries(entries)
    case _ => Some([])
  }

  function EncodeItems(items: seq<Value>): Option<Bytes> {
    if items == [] then Some([]) else Join(Encode(items[0]), EncodeItems(items[1..]))
  }

  function EncodeEntries(entries: seq<(Value, Value)>): Option<Bytes> {
    if entries == [] then Some([]) else Join(EncodeEntry(entries[0]), EncodeEntries(entries[1..]))
  }

  function EncodeEntry(entry: (Value, Value)): Option<Bytes> {
    Join(Encode(entry.0), Encode(entry.1))
  }

  lemma Regroup(x: Bytes, a: Bytes, s: Bytes, y: Bytes, b: Bytes, t: Bytes)
    requires x + a + s == y + b + t
    ensures x + (a + s) == y + (b + t)
  {
    assert x + (a + s) == x + a + s && y + (b + t) == y + b + t;
  }

  /** Equal bytes with anything behind them start with the same head. */
  lemma HeadDelimits(h: Head, g: Head, s: Bytes, t: Bytes)
    requires EncodeHead(h).Some? && EncodeHead(g).Some? && EncodeHead(h).value + s == EncodeHead(g).value + t
    ensures h == g && s == t
  {
    HeadRoundTrip(h, s);
    HeadRoundTrip(g, t);
    EqualLengthPrefix(EncodeHead(h).value, s, EncodeHead(g).value, t);
  }

  lemma Utf8Delimits(a: string, b: string, s: Bytes, t: Bytes)
    requires |Utf8(a)| == |Utf8(b)| && Utf8(a) + s == Utf8(b) + t
    ensures a == b && s == t
  {
    EqualLengthPrefix(Utf8(a), s, Utf8(b), t);
    LossyUtf8(a);
    LossyUtf8(b);
  }

  lemma {:induction false} Delimits(v: Value, w: Value, s: Bytes, t: Bytes)
    requires Encode(v).Some? && Encode(w).Some? && Encode(v).value + s == Encode(w).value + t
    ensures v == w && s == t
    decreases v, 1
  {
    var a, b := EncodeBody(v).value, EncodeBody(w).value;
    Regroup(EncodeHead(ValueHead(v)).value, a, s, EncodeHead(ValueHead(w)).value, b, t);
    HeadDelimits(ValueHead(v), ValueHead(w), a + s, b + t);
    BodyDelimits(v, w, s, t);
  }

  lemma {:induction false} BodyDelimits(v: Value, w: Value, s: Bytes, t: Bytes)
    requires ValueHead(v) == ValueHead(w) && EncodeBody(v).Some? && EncodeBody(w).Some?
    requires EncodeBody(v).value + s == EncodeBody(w).value + t
    ensures v == w && s == t
    decreases v, 0
  {
    if v.Str? {
      Utf8Delimits(v.text, w.text, s, t);
    } else if v.Arr? {
      ItemsDelimit(v.items, w.items, s, t);
    } else if v.Dict? {
      EntriesDelimit(v.entries, w.entries, s, t);
    } else {
      EqualLengthPrefix(EncodeBody(v).value, s, EncodeBody(w).value, t);
    }
  }

  lemma {:induction false} ItemsDelimit(xs: seq<Value>, ys: seq<Value>, s: Bytes, t: Bytes)
    requires |xs| == |ys| && EncodeItems(xs).Some? && EncodeItems(ys).Some?
    requires EncodeItems(xs).value + s == EncodeItems(ys).value + t
    ensures xs == ys && s == t
  {
    if xs == [] {
      EqualLengthPrefix(EncodeItems(xs).value, s, EncodeItems(ys).value, t);
    } else {
      var a, b := EncodeItems(xs[1..]).value, EncodeItems(ys[1..]).value;
      Regroup(Encode(xs[0]).value, a, s, Encode(ys[0]).value, b, t);
      Delimits(xs[0], ys[0], a + s, b + t);
      ItemsDelimit(xs[1..], ys[1..], s, t);
      assert xs == [xs[0]] + xs[1..] && ys == [ys[0]] + ys[1..];
    }
  }

  lemma {:induction false} EntriesDelimit(xs: seq<(Value, Value)>, ys: seq<(Value, Value)>, s: Bytes, t: Bytes)
    requires |xs| == |ys| && EncodeEntries(xs).Some? && EncodeEntries(ys).Some?
    requires EncodeEntries(xs).value + s == EncodeEntries(ys).value + t
    ensures xs == ys && s == t
  {
    if xs == [] {
      EqualLengthPrefix(EncodeEntries(xs).value, s, EncodeEntries(ys).value, t);
    } else {
      var a, b := EncodeEntries(xs[1..]).value, EncodeEntries(ys[1..]).value;
      Regroup(EncodeEntry(xs[0]).value, a, s, EncodeEntry(ys[0]).value, b, t);
      EntryDelimits(xs[0], ys[0], a + s, b + t);
      EntriesDelimit(xs[1..], ys[1..], s, t);
      assert xs == [xs[0]] + xs[1..] && ys == [ys[0]] + ys[1..];
    }
  }

  lemma {:induction false} EntryDelimits(e: (Value, Value), f: (Value, Value), s: Bytes, t: Bytes)
    requires EncodeEntry(e).Some? && EncodeEntry(f).Some? && EncodeEntry(e).value + s == EncodeEntry(f).value + t
    ensures e == f && s == t
  {
    var a, b := Encode(e.1).value, Encode(f.1).value;
    Regroup(Encode(e.0).value, a, s, Encode(f.0).value, b, t);
    Delimits(e.0, f.0, a + s, b + t);
    Delimits(e.1, f.1, s, t);
  }

  /** The format is self-delimiting, and so injective. */
  lemma FormatSelfDelimiting()
    ensures SelfDelimiting(Encode) && Injective(Encode)
  {
    forall v | Encode(v).Some? ensures |Encode(v).value| > 0 { HeadRoundTrip(ValueHead(v), []); }
    forall v, w, s, t | Encode(v).Some? && Encode(w).Some? && Encode(v).value + s == Encode(w).value + t
      ensures v == w && s == t
    {
      Delimits(v, w, s, t);
    }
    forall v, w | Encode(v).Some? && Encode(v) == Encode(w) ensures v == w { Delimits(v, w, [], []); }
  }

  // ----- the bytes themselves -----

  lemma OneByte(tag: Byte, n: nat)
    requires n < 0x100
    ensures FormBytes(Wide(tag, n, 1)) == Some([tag, n])
  {
    assert BigEndian(n, 1) == BigEndian(n / 256, 0) + [n % 256] == [n];
    assert [tag] + [n] == [tag, n];
  }

  lemma TwoBytes(tag: Byte, n: nat)
    requires n < 0x1_0000
    ensures FormBytes(Wide(tag, n, 2)) == Some([tag, n / 256, n % 256])
  {
    OneByte(tag, n / 256);
    assert BigEndian(n, 2) == BigEndian(n / 256, 1) + [n % 256];
    assert [tag] + BigEndian(n, 2) == [tag, n / 256] + [n % 256] == [tag, n / 256, n % 256];
  }

  /** Integers of up to 16 bits, byte for byte as the MessagePack specification lists them. */
  lemma NumberHeads(n: int)
    ensures 0 <= n < 0x80 ==> EncodeHead(HInt(n)) == Some([n])
    ensures 0x80 <= n < 0x100 ==> EncodeHead(HInt(n)) == Some([0xCC, n])
    ensures 0x100 <= n < 0x1_0000 ==> EncodeHead(HInt(n)) == Some([0xCD, n / 256, n % 256])
    ensures -0x20 <= n < 0 ==> EncodeHead(HInt(n)) == Some([n + 0x100])
    ensures -0x80 <= n < -0x20 ==> EncodeHead(HInt(n)) == Some([0xD0, n + 0x100])
    ensures -0x8000 <= n < -0x80 ==> EncodeHead(HInt(n)) == Some([0xD1, (n + 0x1_0000) / 256, n % 256])
  {
    if 0x80 <= n < 0x100 {
      OneByte(0xCC, n);
    } else if 0x100 <= n < 0x1_0000 {
      TwoBytes(0xCD, n);
    } else if -0x80 <= n < -0x20 {
      OneByte(0xD0, n + 0x100);
    } else if -0x8000 <= n < -0x80 {
      TwoBytes(0xD1, n + 0x1_0000);
    }
  }

  /** Likewise the heads of texts, arrays and maps, and of nothing. */
  lemma LengthHeads(n: nat)
    ensures EncodeHead(HNil) == Some([0xC0])
    ensures n < 0x20 ==> EncodeHead(HStr(n)) == Some([0xA0 + n])
    ensures 0x20 <= n < 0x100 ==> EncodeHead(HStr(n)) == Some([0xD9, n])
    ensures 0x100 <= n < 0x1_0000 ==> EncodeHead(HStr(n)) == Some([0xDA, n / 256, n % 256])
    ensures n < 0x10 ==> EncodeHead(HArr(n)) == Some([0x90 + n]) && EncodeHead(HDict(n)) == Some([0x80 + n])
    ensures 0x10 <= n < 0x1_0000 ==> EncodeHead(HArr(n)) == Some([0xDC, n / 256, n % 256])
    ensures 0x10 <= n < 0x1_0000 ==> EncodeHead(HDict(n)) == Some([0xDE, n / 256, n % 256])
  {
    if 0x20 <= n < 0x100 { OneByte(0xD9, n); }
    if 0x10 <= n < 0x1_0000 {
      TwoBytes(0xDA, n);
      TwoBytes(0xDC, n);
      TwoBytes(0xDE, n);
    }
  }

  /** A byte vector is an array of its bytes in order, each of one byte below 0x80 and of two from there. */
  function ByteItems(b: Bytes): Bytes {
    if b == [] then [] else (if b[0] < 0x80 then [b[0]] else [0xCC, b[0]]) + ByteItems(b[1..])
  }

  lemma {:induction false} BytesEncoded(b: Bytes)
    ensures EncodeItems(BytesValue(b).items) == Some(ByteItems(b))
    ensures Encode(BytesValue(b)) == Join(EncodeHead(HArr(|b|)), Some(ByteItems(b)))
  {
    if b != [] {
      assert BytesValue(b).items[1..] == BytesValue(b[1..]).items;
      BytesEncoded(b[1..]);
      ByteEncoded(b[0]);
    }
  }

  lemma ByteEncoded(x: Byte)
    ensures Encode(Int(x)) == Some(if x < 0x80 then [x] else [0xCC, x])
  {
    NumberHeads(x);
    var head := EncodeHead(HInt(x)).value;
    assert head + [] == head;
  }
}
