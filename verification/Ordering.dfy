/**
 Key orders and the `HashMap` to `BTreeMap` step. A hash map hands out its keys in an arbitrary order;
 collecting them into a tree map sorts them, and the sorted list depends on the key set alone.
 */
module Ordering {
  import opened Primitives

  ghost predicate StrictTotalOrder<K(!new)>(less: (K, K) -> bool) {
    && (forall a :: !less(a, a))
    && (forall a, b, c :: less(a, b) && less(b, c) ==> less(a, c))
    && (forall a, b :: a == b || less(a, b) || less(b, a))
  }

  ghost predicate StrictlySorted<K(!new)>(less: (K, K) -> bool, s: seq<K>) {
    forall i, j :: 0 <= i < j < |s| ==> less(s[i], s[j])
  }

  ghost function Elements<K>(s: seq<K>): set<K> {
    set x | x in s
  }

  ghost predicate Distinct<K>(s: seq<K>) {
    forall i, j :: 0 <= i < j < |s| ==> s[i] != s[j]
  }

  /** An iteration order of a hash map with the given keys: each key once, in any order. */
  ghost predicate Enumerates<K>(order: seq<K>, keys: set<K>) {
    Distinct(order) && Elements(order) == keys
  }

  // ----- one tree-map insertion, and a whole collection -----

  function SortedInsert<K(==)>(less: (K, K) -> bool, s: seq<K>, k: K): seq<K> {
    if s == [] then [k]
    else if k == s[0] then s
    else if less(k, s[0]) then [k] + s
    else [s[0]] + SortedInsert(less, s[1..], k)
  }

  function SortKeys<K(==)>(less: (K, K) -> bool, order: seq<K>): seq<K> {
    if order == [] then []
    else SortedInsert(less, SortKeys(less, order[..|order| - 1]), order[|order| - 1])
  }

  lemma {:induction false} SortedInsertElements<K>(less: (K, K) -> bool, s: seq<K>, k: K)
    ensures Elements(SortedInsert(less, s, k)) == Elements(s) + {k}
  {
    if s == [] || k == s[0] || less(k, s[0]) {
    } else {
      SortedInsertElements(less, s[1..], k);
      assert s == [s[0]] + s[1..];
      assert Elements(s) == {s[0]} + Elements(s[1..]);
      var tail := SortedInsert(less, s[1..], k);
      assert Elements([s[0]] + tail) == {s[0]} + Elements(tail);
    }
  }

  lemma {:induction false} SortedInsertSorts<K(!new)>(less: (K, K) -> bool, s: seq<K>, k: K)
    requires StrictTotalOrder(less) && StrictlySorted(less, s)
    ensures StrictlySorted(less, SortedInsert(less, s, k))
  {
    if s == [] || k == s[0] {
    } else if less(k, s[0]) {
      SortedCons(less, k, s);
    } else {
      SortedInsertSorts(less, s[1..], k);
      SortedInsertElements(less, s[1..], k);
      var tail := SortedInsert(less, s[1..], k);
      assert tail[0] in Elements(tail);
      assert less(s[0], tail[0]);
      SortedCons(less, s[0], tail);
    }
  }

  lemma SortedCons<K(!new)>(less: (K, K) -> bool, k: K, s: seq<K>)
    requires StrictTotalOrder(less) && StrictlySorted(less, s)
    requires s != [] ==> less(k, s[0])
    ensures StrictlySorted(less, [k] + s)
  {
    var r := [k] + s;
    forall i, j | 0 <= i < j < |r| ensures less(r[i], r[j]) {
      if i == 0 && j > 1 {
        assert less(s[0], s[j - 1]);
      }
    }
  }

  lemma {:induction false} SortKeysSorts<K(!new)>(less: (K, K) -> bool, order: seq<K>)
    requires StrictTotalOrder(less)
    ensures StrictlySorted(less, SortKeys(less, order))
    ensures Elements(SortKeys(less, order)) == Elements(order)
  {
    if order != [] {
      var front := order[..|order| - 1];
      SortKeysSorts(less, front);
      SortedInsertSorts(less, SortKeys(less, front), order[|order| - 1]);
      SortedInsertElements(less, SortKeys(less, front), order[|order| - 1]);
      assert order == front + [order[|order| - 1]];
    }
  }

  /** A strictly sorted list is determined by its elements. */
  lemma {:induction false} SortedUnique<K(!new)>(less: (K, K) -> bool, s: seq<K>, t: seq<K>)
    requires StrictTotalOrder(less)
    requires StrictlySorted(less, s) && StrictlySorted(less, t)
    requires Elements(s) == Elements(t)
    ensures s == t
  {
    ElementsEmpty(s);
    ElementsEmpty(t);
    if s != [] {
      assert s[0] in Elements(t);
      assert t[0] in Elements(s);
      assert s[0] == t[0];
      forall x ensures x in Elements(s[1..]) <==> x in Elements(t[1..]) {
        TailElements(less, s, x);
        TailElements(less, t, x);
      }
      SortedUnique(less, s[1..], t[1..]);
      assert s == [s[0]] + s[1..] == [t[0]] + t[1..] == t;
    }
  }

  lemma ElementsEmpty<K>(s: seq<K>)
    ensures Elements(s) == {} <==> s == []
  {
    if s != [] { assert s[0] in Elements(s); }
  }

  lemma TailElements<K(!new)>(less: (K, K) -> bool, s: seq<K>, x: K)
    requires StrictTotalOrder(less) && StrictlySorted(less, s) && s != []
    ensures x in Elements(s[1..]) <==> x in Elements(s) && x != s[0]
  {
    if x in s && x != s[0] {
      var i :| 0 <= i < |s| && s[i] == x;
      assert s[1..][i - 1] == x;
    }
  }

  /** Two iteration orders of one key set collect into the same tree map. */
  lemma SortKeysIgnoresOrder<K(!new)>(less: (K, K) -> bool, a: seq<K>, b: seq<K>)
    requires StrictTotalOrder(less)
    requires Elements(a) == Elements(b)
    ensures SortKeys(less, a) == SortKeys(less, b)
  {
    SortKeysSorts(less, a);
    SortKeysSorts(less, b);
    SortedUnique(less, SortKeys(less, a), SortKeys(less, b));
  }

  lemma {:induction false} EnumerationExists<K(!new)>(keys: set<K>)
    ensures exists order :: Enumerates(order, keys)
  {
    if keys == {} {
      assert Enumerates([], keys);
    } else {
      var k :| k in keys;
      EnumerationExists(keys - {k});
      var rest :| Enumerates(rest, keys - {k});
      var order := rest + [k];
      forall i | 0 <= i < |rest| ensures rest[i] != k {
        assert rest[i] in Elements(rest);
      }
      assert Elements(order) == Elements(rest) + {k};
      assert Enumerates(order, keys);
    }
  }

  /** The tree map's key list for a key set, whatever order the hash map iterates in. */
  ghost function CanonicalKeys<K(!new)>(less: (K, K) -> bool, keys: set<K>): (r: seq<K>)
    requires StrictTotalOrder(less)
    ensures StrictlySorted(less, r) && Elements(r) == keys
    ensures forall order :: Elements(order) == keys ==> SortKeys(less, order) == r
  {
    EnumerationExists(keys);
    var order :| Enumerates(order, keys);
    SortKeysSorts(less, order);
    assert forall o :: Elements(o) == keys ==> SortKeys(less, o) == SortKeys(less, order) by {
      forall o: seq<K> | Elements(o) == keys ensures SortKeys(less, o) == SortKeys(less, order) {
        SortKeysIgnoresOrder(less, o, order);
      }
    }
    SortKeys(less, order)
  }

  /** Iterate a hash map: some order of its keys, chosen without the caller's control. */
  method HashMapOrder<K(!new, ==)>(keys: set<K>) returns (order: seq<K>)
    ensures Enumerates(order, keys)
  {
    order := [];
    var left := keys;
    while left != {}
      invariant left <= keys && left !! Elements(order)
      invariant Elements(order) + left == keys && Distinct(order)
      decreases |left|
    {
      var k :| k in left;
      forall i | 0 <= i < |order| ensures order[i] != k {
        assert order[i] in Elements(order);
      }
      assert Elements(order + [k]) == Elements(order) + {k};
      order, left := order + [k], left - {k};
    }
  }

  // ----- the two key orders of the source -----

  predicate LexLess<T(==)>(lt: (T, T) -> bool, a: seq<T>, b: seq<T>) {
    b != [] && (a == [] || lt(a[0], b[0]) || (a[0] == b[0] && LexLess(lt, a[1..], b[1..])))
  }

  lemma {:induction false} LexTrichotomy<T(!new)>(lt: (T, T) -> bool, a: seq<T>, b: seq<T>)
    requires StrictTotalOrder(lt)
    ensures !LexLess(lt, a, a)
    ensures a == b || LexLess(lt, a, b) || LexLess(lt, b, a)
  {
    if a != [] {
      LexTrichotomy(lt, a[1..], a[1..]);
      if b != [] {
        LexTrichotomy(lt, a[1..], b[1..]);
        if a[0] == b[0] && a[1..] == b[1..] {
          assert a == [a[0]] + a[1..] == [b[0]] + b[1..] == b;
        }
      }
    }
  }

  /** The first place where two sequences differ decides, and a proper prefix comes first. */
  lemma {:induction false} LexFirstDifference<T(!new)>(lt: (T, T) -> bool, a: seq<T>, b: seq<T>, n: nat)
    requires StrictTotalOrder(lt) && n <= |a| && n <= |b| && a[..n] == b[..n]
    requires n < |a| && n < |b| ==> a[n] != b[n]
    ensures LexLess(lt, a, b) <==> n < |b| && (n == |a| || lt(a[n], b[n]))
  {
    if n > 0 {
      assert a[0] == a[..n][0] == b[..n][0] == b[0];
      assert a[1..][..n - 1] == a[..n][1..] == b[..n][1..] == b[1..][..n - 1];
      LexFirstDifference(lt, a[1..], b[1..], n - 1);
    }
  }

  lemma {:induction false} LexTransitive<T(!new)>(lt: (T, T) -> bool, a: seq<T>, b: seq<T>, c: seq<T>)
    requires StrictTotalOrder(lt)
    requires LexLess(lt, a, b) && LexLess(lt, b, c)
    ensures LexLess(lt, a, c)
  {
    if a != [] && a[0] == b[0] && b[0] == c[0] && !lt(a[0], b[0]) && !lt(b[0], c[0]) {
      LexTransitive(lt, a[1..], b[1..], c[1..]);
    }
  }

  predicate ByteLess(a: Byte, b: Byte) { a < b }

  predicate CharLess(a: char, b: char) { a < b }

  /** `Vec<u8>` keys compare byte by byte. */
  predicate BytesLess(a: Bytes, b: Bytes) { LexLess(ByteLess, a, b) }

  /** `String` keys compare by code point, which is also the order of their UTF-8 bytes. */
  predicate TextLess(a: string, b: string) { LexLess(CharLess, a, b) }

  lemma BytesLessTotal()
    ensures StrictTotalOrder(BytesLess)
  {
    forall a, b ensures !BytesLess(a, a) && (a == b || BytesLess(a, b) || BytesLess(b, a)) {
      LexTrichotomy(ByteLess, a, b);
    }
    forall a, b, c | BytesLess(a, b) && BytesLess(b, c) ensures BytesLess(a, c) {
      LexTransitive(ByteLess, a, b, c);
    }
  }

  lemma TextLessTotal()
    ensures StrictTotalOrder(TextLess)
  {
    forall a, b ensures !TextLess(a, a) && (a == b || TextLess(a, b) || TextLess(b, a)) {
      LexTrichotomy(CharLess, a, b);
    }
    forall a, b, c | TextLess(a, b) && TextLess(b, c) ensures TextLess(a, c) {
      LexTransitive(CharLess, a, b, c);
    }
  }

  ghost function SortedBytes(keys: set<Bytes>): (r: seq<Bytes>)
    ensures Elements(r) == keys
    ensures forall order :: Elements(order) == keys ==> SortKeys(BytesLess, order) == r
  {
    BytesLessTotal();
    CanonicalKeys(BytesLess, keys)
  }

  ghost function SortedText(keys: set<string>): (r: seq<string>)
    ensures Elements(r) == keys
    ensures forall order :: Elements(order) == keys ==> SortKeys(TextLess, order) == r
  {
    TextLessTotal();
    CanonicalKeys(TextLess, keys)
  }
}
