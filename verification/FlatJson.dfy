/** The client's parser on every flat object it is meant for, with any white space, and on what it must refuse. */
module FlatJson {
  import opened Primitives
  import opened Text
  import opened ReceiptJson
  import opened ReceiptParser

  /** A field as it may be written: white space around key and value. */
  datatype Written = Written(a: string, key: string, b: string, c: string, value: Json, d: string)

  predicate Fine(w: Written) {
    AllWhite(w.a) && AllWhite(w.b) && AllWhite(w.c) && AllWhite(w.d) && ':' !in Escape(w.key)
  }

  function ValueText(v: Json): (s: string)
    ensures s != "" && !IsWhite(s[0])
  {
    match v case JBool(true) => "true" case JBool(false) => "false" case JString(t) => Quoted(Escape(t))
  }

  function FieldText(w: Written): string {
    w.a + Quoted(Escape(w.key)) + w.b + [':'] + w.c + ValueText(w.value) + w.d
  }

  function FieldsText(ws: seq<Written>): string
    requires ws != []
  {
    if |ws| == 1 then FieldText(ws[0]) else FieldText(ws[0]) + [','] + FieldsText(ws[1..])
  }

  function FieldsOf(ws: seq<Written>): Fields {
    seq(|ws|, i requires 0 <= i < |ws| => (ws[i].key, ws[i].value))
  }

  // ----- one field -----

  /** In front of anything, the scan stops at the closing quote of an escaped string. */
  lemma EndOfQuotedThen(id: string, rest: string)
    ensures EndOfString(Quoted(Escape(id)) + rest) == Some(|Escape(id)| + 1)
  {
    var s, e := Quoted(Escape(id)) + rest, Escape(id);
    QuotedShape(e);
    SkipsEscape(id);
    assert s[1..1 + |e|] == Quoted(e)[1..1 + |e|] == e;
    assert At(s, 1, e) && s[1 + |e|] == '"';
    assert ScanChars(s, 1 + |e|) == Some(1 + |e|);
  }

  lemma StringRead(t: string, rest: string)
    ensures ParseValue(Quoted(Escape(t)) + rest) == Success((JString(t), rest))
  {
    var q := Quoted(Escape(t));
    var s := q + rest;
    QuotedShape(Escape(t));
    NoLiteral(s);
    EndOfQuotedThen(t, rest);
    assert s[..|q|] == q && s[|q|..] == rest;
    UnquoteQuoted(Escape(t));
    DecodeEscape(t);
  }

  lemma LiteralRead(b: bool, word: string, rest: string)
    requires word == if b then "true" else "false"
    ensures ParseValue(word + rest) == Success((JBool(b), rest))
  {
    var s := word + rest;
    assert s[..|word|] == word && s[|word|..] == rest;
    FirstOf(s, "true");
  }

  lemma ValueRead(v: Json, rest: string)
    ensures ParseValue(ValueText(v) + rest) == Success((v, rest))
  {
    match v {
      case JBool(b) => LiteralRead(b, ValueText(v), rest);
      case JString(t) => StringRead(t, rest);
    }
  }

  lemma QuotedKeyRead(q: string, key: string, b: string, c: string, rest: string)
    requires q != "" && !IsWhite(q[0]) && !IsWhite(q[|q| - 1]) && ':' !in q && Unquote(q) == Some(key)
    requires AllWhite(b) && AllWhite(c) && rest != "" && !IsWhite(rest[0])
    ensures ParseKey(q + b + [':'] + (c + rest)) == Success((key, rest))
  {
    var s := q + b + [':'] + (c + rest);
    assert ':' !in q + b;
    FindCharAfter(q + b, ':', c + rest);
    assert s[..|q + b|] == q + b && s[|q + b| + 1..] == c + rest;
    assert "" + q + b == q + b;
    TrimWhite("", q, b);
    TrimStartWhite(c, rest);
  }

  lemma KeyRead(a: string, key: string, b: string, c: string, rest: string)
    requires AllWhite(a) && AllWhite(b) && AllWhite(c) && ':' !in Escape(key) && rest != "" && !IsWhite(rest[0])
    ensures ParseKey(TrimStart(a + (Quoted(Escape(key)) + b + [':'] + (c + rest)))) == Success((key, rest))
  {
    var q := Quoted(Escape(key));
    UnquoteQuoted(Escape(key));
    DecodeEscape(key);
    QuotedKeyRead(q, key, b, c, rest);
    TrimStartWhite(a, q + b + [':'] + (c + rest));
  }

  /** A field and what is behind it: nothing, a comma with more, or garbage. */
  lemma FieldRead(w: Written, more: string, fields: Fields)
    requires Fine(w) && (more == "" || !IsWhite(more[0]))
    ensures ParseFields(FieldText(w) + more, fields)
         == if more == "" then Success(fields + [(w.key, w.value)])
            else if more[0] == ',' then ParseFields(more[1..], fields + [(w.key, w.value)])
            else Failure(TrailingGarbage(more))
  {
    var v := ValueText(w.value);
    var s := FieldText(w) + more;
    assert s == w.a + (Quoted(Escape(w.key)) + w.b + [':'] + (w.c + (v + (w.d + more))));
    KeyRead(w.a, w.key, w.b, w.c, v + (w.d + more));
    ValueRead(w.value, w.d + more);
    TrimStartWhite(w.d, more);
  }

  // ----- whole objects -----

  predicate AllFine(ws: seq<Written>) {
    forall i :: 0 <= i < |ws| ==> Fine(ws[i])
  }

  lemma LastRead(w: Written, fields: Fields, last: string)
    requires Fine(w) && last == FieldText(w)
    ensures ParseFields(last, fields) == Success(fields + [(w.key, w.value)])
  {
    FieldRead(w, "", fields);
    assert last + "" == last;
  }

  lemma MoreRead(w: Written, fields: Fields, rest: string, all: string)
    requires Fine(w) && all == FieldText(w) + [','] + rest
    ensures ParseFields(all, fields) == ParseFields(rest, fields + [(w.key, w.value)])
  {
    var more := [','] + rest;
    assert all == FieldText(w) + more && more[1..] == rest;
    FieldRead(w, more, fields);
  }

  lemma OneField(w: Written)
    ensures FieldsOf([w]) == [(w.key, w.value)]
  {
  }

  lemma FieldsSplit(ws: seq<Written>, fields: Fields)
    requires ws != []
    ensures fields + [(ws[0].key, ws[0].value)] + FieldsOf(ws[1..]) == fields + FieldsOf(ws)
  {
  }

  lemma {:induction false} FieldsRead(ws: seq<Written>, fields: Fields)
    requires ws != [] && AllFine(ws)
    ensures ParseFields(FieldsText(ws), fields) == Success(fields + FieldsOf(ws))
  {
    if |ws| == 1 {
      LastRead(ws[0], fields, FieldsText(ws));
      OneField(ws[0]);
      assert ws == [ws[0]];
    } else {
      MoreRead(ws[0], fields, FieldsText(ws[1..]), FieldsText(ws));
      FieldsRead(ws[1..], fields + [(ws[0].key, ws[0].value)]);
      FieldsSplit(ws, fields);
    }
  }

  /** No white space at the outer ends, where the braces' own white space is. */
  predicate Tidy(ws: seq<Written>) {
    ws != [] && ws[0].a == "" && ws[|ws| - 1].d == ""
  }

  lemma {:induction false} FieldsEnds(ws: seq<Written>)
    requires ws != [] && ws[|ws| - 1].d == ""
    ensures FieldsText(ws) != "" && !IsWhite(FieldsText(ws)[|FieldsText(ws)| - 1])
    ensures ws[0].a == "" ==> FieldsText(ws)[0] == '"'
  {
    var v := ValueText(ws[0].value);
    if |ws| == 1 {
      assert FieldText(ws[0]) == ws[0].a + Quoted(Escape(ws[0].key)) + ws[0].b + [':'] + ws[0].c + v;
      ValueEnds(ws[0].value);
    } else {
      FieldsEnds(ws[1..]);
    }
    assert ws[0].a == "" ==> FieldText(ws[0])[0] == Quoted(Escape(ws[0].key))[0];
  }

  lemma ValueEnds(v: Json)
    ensures !IsWhite(ValueText(v)[|ValueText(v)| - 1])
  {
  }

  /** Every flat object of strings and booleans, however it is spaced, is read back field by field. */
  lemma ObjectRoundTrip(ws: seq<Written>, outer: string, left: string, right: string, end: string)
    requires AllFine(ws) && Tidy(ws) && AllWhite(outer) && AllWhite(left) && AllWhite(right) && AllWhite(end)
    ensures ParseObject(outer + (['{'] + (left + FieldsText(ws) + right) + ['}']) + end) == Success(FieldsOf(ws))
  {
    var inner := left + FieldsText(ws) + right;
    var t := ['{'] + inner + ['}'];
    TrimWhite(outer, t, end);
    assert t[1..|t| - 1] == inner;
    FieldsEnds(ws);
    TrimWhite(left, FieldsText(ws), right);
    FieldsRead(ws, []);
    assert [] + FieldsOf(ws) == FieldsOf(ws);
  }

  /** Whatever follows a field that is neither white space, a comma nor the end refuses the object. */
  lemma GarbageRefused(w: Written, garbage: string, fields: Fields)
    requires Fine(w) && garbage != "" && !IsWhite(garbage[0]) && garbage[0] != ','
    ensures ParseFields(FieldText(w) + garbage, fields) == Failure(TrailingGarbage(garbage))
  {
    FieldRead(w, garbage, fields);
  }

  /** Text that is not in braces is no object, and empty braces are the empty one. */
  lemma BracesRequired(outer: string, t: string, end: string)
    requires AllWhite(outer) && AllWhite(end) && t != "" && !IsWhite(t[0]) && !IsWhite(t[|t| - 1])
    ensures |t| < 2 || t[0] != '{' || t[|t| - 1] != '}' <==> ParseObject(outer + t + end) == Failure(NotAnObject)
    ensures t == ['{', '}'] ==> ParseObject(outer + t + end) == Success([])
  {
    TrimWhite(outer, t, end);
    if |t| >= 2 && t[0] == '{' && t[|t| - 1] == '}' {
      var inner := Trim(t[1..|t| - 1]);
      if inner != "" { FieldsAreObjects(inner, []); }
    }
  }

  lemma {:induction false} FieldsAreObjects(s: string, fields: Fields)
    ensures ParseFields(s, fields) != Failure(NotAnObject)
    decreases |s|
  {
    var key := ParseKey(TrimStart(s));
    if key.Success? {
      var value := ParseValue(key.value.1);
      if value.Success? {
        var rest := TrimStart(value.value.1);
        if rest != "" && rest[0] == ',' { FieldsAreObjects(rest[1..], fields + [(key.value.0, value.value.0)]); }
      }
    }
  }

  // ----- the receipt check -----

  /** The first field with the key. */
  lemma {:induction false} LookupFirst(fields: Fields, key: string)
    ensures
      match Lookup(fields, key)
      case None => forall i :: 0 <= i < |fields| ==> fields[i].0 != key
      case Some(v) =>
        exists i :: 0 <= i < |fields| && fields[i] == (key, v) && forall j :: 0 <= j < i ==> fields[j].0 != key
  {
    if fields != [] {
      if fields[0].0 == key {
        assert fields[0] == (key, fields[0].1);
      } else {
        LookupFirst(fields[1..], key);
        if Lookup(fields, key).Some? {
          var v := Lookup(fields, key).value;
          var rest := fields[1..];
          var i :| 0 <= i < |rest| && rest[i] == (key, v) && forall j :: 0 <= j < i ==> rest[j].0 != key;
          assert fields[i + 1] == (key, v);
          forall j | 0 <= j < i + 1 ensures fields[j].0 != key { if j > 0 { assert fields[1..][j - 1].0 != key; } }
        } else {
          forall i | 0 <= i < |fields| ensures fields[i].0 != key { if i > 0 { assert fields[1..][i - 1].0 != key; } }
        }
      }
    }
  }

  /** A receipt is believed if and only if it is an object that says accepted and names the transaction. */
  lemma BelievedExactly(body: string, txId: string)
    ensures
      var r := CheckReceipt(body, txId);
      match ParseObject(body)
      case Failure(e) => r == Failure(Unparsable(e))
      case Success(fields) =>
        var accepted, id := Lookup(fields, "accepted") == Some(JBool(true)), Lookup(fields, "tx_id");
        && (r.Success? <==> accepted && id == Some(JString(txId))) && (r.Success? ==> r.value == txId)
        && (r == Failure(NotAccepted) <==> !accepted)
        && (r == Failure(MissingId) <==> accepted && (id == None || id.value.JBool?))
        && forall echoed :: r == Failure(OtherId(echoed)) <==> accepted && id == Some(JString(echoed)) && echoed != txId
  {
  }
}
