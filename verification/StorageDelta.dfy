/** Contract storage write-sets: applying them, composing them, and the size they lead to. */
module StorageDelta {
  import opened Primitives
  import opened Ordering

  type Storage = map<Bytes, Bytes>

  /** `Some` sets a key, `None` deletes it. */
  type Delta = map<Bytes, Option<Bytes>>

  function Writes(d: Delta): Storage {
    map k | k in d && d[k].Some? :: d[k].value
  }

  /** What a delta leaves of a base state, and what it puts there. */
  function Apply(base: Storage, d: Delta): Storage {
    (base - d.Keys) + Writes(d)
  }

  function Get(m: Storage, k: Bytes): Option<Bytes> {
    if k in m then Some(m[k]) else None
  }

  /** After a delta, a key it mentions has what it says, and any other key what the base had. */
  lemma ApplyGet(base: Storage, d: Delta, k: Bytes)
    ensures Get(Apply(base, d), k) == if k in d then d[k] else Get(base, k)
  {
  }

  lemma SameGets(m: Storage, n: Storage)
    requires forall k :: Get(m, k) == Get(n, k)
    ensures m == n
  {
    forall k ensures k in m <==> k in n { assert Get(m, k) == Get(n, k); }
    forall k | k in m ensures m[k] == n[k] { assert Get(m, k) == Get(n, k); }
  }

  /** `apply_delta_to`: edit a copy entry by entry, in key order. */
  method ApplyDeltaTo(base: Storage, d: Delta) returns (out: Storage)
    ensures out == Apply(base, d)
  {
    var order := HashMapOrder(d.Keys);
    var keys := SortKeys(BytesLess, order);
    KeysOf(order, d.Keys);
    out := base;
    for i := 0 to |keys|
      invariant forall k :: Get(out, k) == if k in keys[..i] then d[k] else Get(base, k)
    {
      assert keys[..i + 1] == keys[..i] + [keys[i]];
      match d[keys[i]] {
        case Some(v) => out := out[keys[i] := v];
        case None => out := out - {keys[i]};
      }
    }
    forall k ensures Get(out, k) == Get(Apply(base, d), k) {
      assert keys[..|keys|] == keys;
      ApplyGet(base, d, k);
    }
    SameGets(out, Apply(base, d));
  }

  lemma KeysOf(order: seq<Bytes>, keys: set<Bytes>)
    requires Enumerates(order, keys)
    ensures forall k :: k in SortKeys(BytesLess, order) <==> k in keys
  {
    BytesLessTotal();
    SortKeysSorts(BytesLess, order);
    forall k ensures k in SortKeys(BytesLess, order) <==> k in keys {
      assert k in Elements(SortKeys(BytesLess, order)) <==> k in Elements(order);
    }
  }

  // ----- algebra -----

  /** Applying a delta a second time changes nothing. */
  lemma ApplyIdempotent(base: Storage, d: Delta)
    ensures Apply(Apply(base, d), d) == Apply(base, d)
  {
  }

  /** Two deltas in sequence are one merged delta in which the later entry wins. */
  lemma ApplyMerge(base: Storage, d: Delta, e: Delta)
    ensures Apply(Apply(base, d), e) == Apply(base, d + e)
  {
    forall k ensures Get(Apply(Apply(base, d), e), k) == Get(Apply(base, d + e), k) {
      ApplyGet(base, d, k);
      ApplyGet(Apply(base, d), e, k);
      ApplyGet(base, d + e, k);
    }
    SameGets(Apply(Apply(base, d), e), Apply(base, d + e));
  }

  predicate SameAt(d: Delta, e: Delta, k: Bytes) {
    (k in d <==> k in e) && (k in d && k in e ==> d[k] == e[k])
  }

  lemma DeltaDiffersAt(d: Delta, e: Delta)
    ensures d == e || exists k :: !SameAt(d, e, k)
  {
    if forall k :: SameAt(d, e, k) {
      forall k ensures k in d <==> k in e { assert SameAt(d, e, k); }
      forall k | k in d ensures d[k] == e[k] { assert SameAt(d, e, k); }
    }
  }

  /** A base on which two deltas that differ at `k` have different effects. */
  lemma DeltaEffectDiffers(d: Delta, e: Delta, k: Bytes)
    requires !SameAt(d, e, k)
    ensures exists base :: Apply(base, d) != Apply(base, e)
  {
    var told := if k in d then d[k] else e[k];
    var other: Bytes := match told case None => [] case Some(v) => v + [0];
    var base: Storage := map[k := other];
    ApplyGet(base, d, k);
    ApplyGet(base, e, k);
    assert Get(base, k) == Some(other) != told;
    assert Get(Apply(base, d), k) != Get(Apply(base, e), k);
  }

  ghost predicate SameEffect(d: Delta, e: Delta) {
    forall base :: Apply(base, d) == Apply(base, e)
  }

  ghost predicate Commute(d: Delta, e: Delta) {
    forall base :: Apply(Apply(base, d), e) == Apply(Apply(base, e), d)
  }

  /** A delta is determined by what it does: equal effect on every base means equal delta. */
  lemma DeltaExtensional(d: Delta, e: Delta)
    ensures SameEffect(d, e) <==> d == e
  {
    if d != e {
      DeltaDiffersAt(d, e);
      var k :| !SameAt(d, e, k);
      DeltaEffectDiffers(d, e, k);
    }
  }

  /** Two deltas commute on every base exactly when they agree on the keys they share. */
  lemma DeltasCommute(d: Delta, e: Delta)
    ensures Commute(d, e) <==> forall k :: k in d && k in e ==> d[k] == e[k]
  {
    CommuteMerged(d, e);
    DeltaExtensional(d + e, e + d);
    MergeSymmetric(d, e);
  }

  lemma CommuteMerged(d: Delta, e: Delta)
    ensures Commute(d, e) <==> SameEffect(d + e, e + d)
  {
    if Commute(d, e) {
      forall base ensures Apply(base, d + e) == Apply(base, e + d) {
        ApplyMerge(base, d, e);
        ApplyMerge(base, e, d);
        assert Apply(Apply(base, d), e) == Apply(Apply(base, e), d);
      }
    }
    if SameEffect(d + e, e + d) {
      forall base ensures Apply(Apply(base, d), e) == Apply(Apply(base, e), d) {
        ApplyMerge(base, d, e);
        ApplyMerge(base, e, d);
        assert Apply(base, d + e) == Apply(base, e + d);
      }
    }
  }

  lemma MergeSymmetric(d: Delta, e: Delta)
    ensures d + e == e + d <==> forall k :: k in d && k in e ==> d[k] == e[k]
  {
    if d + e == e + d {
      forall k | k in d && k in e ensures d[k] == e[k] {
        assert (d + e)[k] == e[k] && (e + d)[k] == d[k];
      }
    }
  }

  // ----- size -----

  function EntrySize(k: Bytes, v: Bytes): nat { |k| + |v| }

  /** Keys and values of a state, in bytes. */
  ghost function Size(m: Storage): nat
    decreases |m|
  {
    if m == map[] then 0
    else
      var k :| k in m;
      assert m.Keys - {k} == (m - {k}).Keys;
      assert |(m - {k}).Keys| == |m.Keys| - 1;
      EntrySize(k, m[k]) + Size(m - {k})
  }

  /** The size is counted entry by entry in any order. */
  lemma {:induction false} SizeRemove(m: Storage, k: Bytes)
    requires k in m
    ensures Size(m) == EntrySize(k, m[k]) + Size(m - {k})
    decreases |m|
  {
    var p :| p in m && Size(m) == EntrySize(p, m[p]) + Size(m - {p});
    if p != k {
      assert (m - {p}).Keys == m.Keys - {p} && |m.Keys - {p}| == |m.Keys| - 1;
      assert (m - {k}).Keys == m.Keys - {k} && |m.Keys - {k}| == |m.Keys| - 1;
      SizeRemove(m - {p}, k);
      SizeRemove(m - {k}, p);
      assert m - {p} - {k} == m - {k} - {p};
    }
  }

  lemma UnionWithout(m: Storage, n: Storage, k: Bytes)
    requires k !in m
    ensures (m + n) - {k} == m + (n - {k})
  {
    forall x ensures Get((m + n) - {k}, x) == Get(m + (n - {k}), x) {
    }
    SameGets((m + n) - {k}, m + (n - {k}));
  }

  lemma {:induction false} SizeUnion(m: Storage, n: Storage)
    requires m.Keys !! n.Keys
    ensures Size(m + n) == Size(m) + Size(n)
    decreases |n|
  {
    if n == map[] {
      assert m + n == m;
    } else {
      var k :| k in n;
      assert (n - {k}).Keys == n.Keys - {k} && |n.Keys - {k}| == |n.Keys| - 1;
      SizeUnion(m, n - {k});
      SizeRemove(n, k);
      SizeRemove(m + n, k);
      UnionWithout(m, n, k);
    }
  }

  /** The entries of a base that a delta overwrites or deletes. */
  function Touched(base: Storage, d: Delta): Storage {
    map k | k in base && k in d :: base[k]
  }

  /** The size after a delta: the base's, less the touched entries, plus the written ones. */
  lemma PostApplySizeFormula(base: Storage, d: Delta)
    ensures Size(Apply(base, d)) == Size(base) - Size(Touched(base, d)) + Size(Writes(d))
  {
    SizeUnion(base - d.Keys, Writes(d));
    SizeUnion(base - d.Keys, Touched(base, d));
    assert (base - d.Keys) + Touched(base, d) == base;
  }

  /** Keys and values count by their bytes. */
  lemma SizeOfOne(k: Bytes, v: Bytes)
    ensures Size(map[k := v]) == |k| + |v| && Size(map[]) == 0
  {
    SizeRemove(map[k := v], k);
    assert map[k := v] - {k} == map[];
  }

  lemma TouchedByOne(base: Storage, k: Bytes, v: Option<Bytes>)
    ensures Size(Touched(base, map[k := v])) == if k in base then |k| + |base[k]| else 0
  {
    if k in base {
      SizeOfOne(k, base[k]);
      SameGets(Touched(base, map[k := v]), map[k := base[k]]);
    } else {
      SizeOfOne(k, []);
      SameGets(Touched(base, map[k := v]), map[]);
    }
  }

  lemma WrittenByOne(k: Bytes, v: Option<Bytes>)
    ensures Size(Writes(map[k := v])) == if v.Some? then |k| + |v.value| else 0
  {
    if v.Some? {
      SizeOfOne(k, v.value);
      SameGets(Writes(map[k := v]), map[k := v.value]);
    } else {
      SizeOfOne(k, []);
      SameGets(Writes(map[k := v]), map[]);
    }
  }

  /** What a delta of one key does to the size. */
  lemma OneKeySize(base: Storage, k: Bytes, v: Option<Bytes>)
    ensures
      var before := if k in base then |k| + |base[k]| else 0;
      var after := if v.Some? then |k| + |v.value| else 0;
      Size(Apply(base, map[k := v])) == Size(base) - before + after
  {
    PostApplySizeFormula(base, map[k := v]);
    TouchedByOne(base, k, v);
    WrittenByOne(k, v);
  }

  /** `post_apply_size`: apply, then sum over the entries. */
  method PostApplySize(base: Storage, d: Delta) returns (size: nat)
    ensures size == Size(base) - Size(Touched(base, d)) + Size(Writes(d))
  {
    var state := ApplyDeltaTo(base, d);
    PostApplySizeFormula(base, d);
    size := 0;
    var left := state;
    while left != map[]
      invariant size + Size(left) == Size(state)
      decreases |left|
    {
      var k :| k in left;
      SizeRemove(left, k);
      assert (left - {k}).Keys == left.Keys - {k} && |left.Keys - {k}| == |left.Keys| - 1;
      size := size + EntrySize(k, left[k]);
      left := left - {k};
    }
  }
}
