/**
 The MsgPack value model and what the source relies on from its encoder: every value has at most one
 encoding, and an encoding says where it ends.
 */
module Encoding {
  import opened Primitives

  /** A MsgPack value. Byte vectors are arrays of small integers and structs are maps keyed by field name. */
  datatype Value =
    | Nil
    | Int(n: int)
    | Float(bits: nat)
    | Str(text: string)
    | Arr(items: seq<Value>)
    | Dict(entries: seq<(Value, Value)>)

  /** `serialize_to_bytes_rmp`: the bytes of a value, or a serialization failure. */
  type Encoder = Value -> Option<Bytes>

  /** Different values have different encodings. */
  ghost predicate Injective(enc: Encoder) {
    forall v, w :: enc(v).Some? && enc(v) == enc(w) ==> v == w
  }

  /** No encoding is empty, and none is a proper prefix of the encoding of another value. */
  ghost predicate SelfDelimiting(enc: Encoder) {
    && (forall v :: enc(v).Some? ==> |enc(v).value| > 0)
    && (forall v, w, s, t ::
          enc(v).Some? && enc(w).Some? && enc(v).value + s == enc(w).value + t ==> v == w && s == t)
  }

  /** Consecutive encodings, as the hash inputs concatenate them. */
  function EncodeAll(enc: Encoder, vs: seq<Value>): Option<Bytes> {
    if vs == [] then Some([])
    else
      match (enc(vs[0]), EncodeAll(enc, vs[1..])) {
        case (Some(a), Some(b)) => Some(a + b)
        case _ => None
      }
  }

  lemma {:induction false} EncodeAllConcat(enc: Encoder, a: seq<Value>, b: seq<Value>)
    ensures EncodeAll(enc, a + b).Some? <==> EncodeAll(enc, a).Some? && EncodeAll(enc, b).Some?
    ensures EncodeAll(enc, a + b).Some? ==>
              EncodeAll(enc, a + b).value == EncodeAll(enc, a).value + EncodeAll(enc, b).value
  {
    if a == [] {
      assert a + b == b;
    } else {
      assert (a + b)[1..] == a[1..] + b;
      EncodeAllConcat(enc, a[1..], b);
    }
  }

  /** A concatenation of encodings is decoded in one way only, even the number of values is determined. */
  lemma {:induction false} EncodeAllInjective(enc: Encoder, vs: seq<Value>, ws: seq<Value>)
    requires SelfDelimiting(enc)
    requires EncodeAll(enc, vs).Some? && EncodeAll(enc, vs) == EncodeAll(enc, ws)
    ensures vs == ws
  {
    if vs != [] && ws != [] {
      var s, t := EncodeAll(enc, vs[1..]).value, EncodeAll(enc, ws[1..]).value;
      assert enc(vs[0]).value + s == enc(ws[0]).value + t;
      EncodeAllInjective(enc, vs[1..], ws[1..]);
      assert vs == [vs[0]] + vs[1..] == [ws[0]] + ws[1..] == ws;
    }
  }

  // ----- building blocks of the struct views -----

  function BytesValue(b: Bytes): (v: Value) {
    Arr(seq(|b|, i requires 0 <= i < |b| => Int(b[i])))
  }

  lemma BytesValueInjective(a: Bytes, b: Bytes)
    requires BytesValue(a) == BytesValue(b)
    ensures a == b
  {
    assert |BytesValue(a).items| == |a| && |BytesValue(b).items| == |b|;
    forall i | 0 <= i < |a| ensures a[i] == b[i] {
      assert BytesValue(a).items[i] == Int(a[i]);
      assert BytesValue(b).items[i] == Int(b[i]);
    }
  }

  function BytesListValue(bs: seq<Bytes>): Value {
    Arr(seq(|bs|, i requires 0 <= i < |bs| => BytesValue(bs[i])))
  }

  lemma BytesListValueInjective(a: seq<Bytes>, b: seq<Bytes>)
    requires BytesListValue(a) == BytesListValue(b)
    ensures a == b
  {
    assert |BytesListValue(a).items| == |a| && |BytesListValue(b).items| == |b|;
    forall i | 0 <= i < |a| ensures a[i] == b[i] {
      assert BytesListValue(a).items[i] == BytesValue(a[i]);
      assert BytesListValue(b).items[i] == BytesValue(b[i]);
      BytesValueInjective(a[i], b[i]);
    }
  }

  function OptionIntValue(o: Option<int>): Value {
    match o case None => Nil case Some(n) => Int(n)
  }

  /** A struct: its fields by name, in declaration order. */
  function Record(names: seq<string>, values: seq<Value>): Value
    requires |names| == |values|
  {
    Dict(seq(|names|, i requires 0 <= i < |names| => (Str(names[i]), values[i])))
  }

  lemma RecordInjective(names: seq<string>, values: seq<Value>, names': seq<string>, values': seq<Value>)
    requires |names| == |values| && |names'| == |values'|
    requires Record(names, values) == Record(names', values')
    ensures names == names' && values == values'
  {
    var es, es' := Record(names, values).entries, Record(names', values').entries;
    assert |es| == |names| && |es'| == |names'|;
    forall i | 0 <= i < |names| ensures names[i] == names'[i] && values[i] == values'[i] {
      assert es[i] == (Str(names[i]), values[i]);
      assert es'[i] == (Str(names'[i]), values'[i]);
    }
  }
}
