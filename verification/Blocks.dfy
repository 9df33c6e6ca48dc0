/** Blocks, their hash, and the hash-linked chain of one token. */
module Blocks {
  import opened Primitives
  import opened Ordering
  import opened Encoding
  import opened Transactions

  datatype FinalityStatus = Optimistic | Confirmed

  datatype Block = Block(
    signedTrans: SignedTransaction,
    tokenMetadata: map<string, string>,
    previousHash: Bytes,
    currentHash: Bytes,
    timestamp: int,
    finalityStatus: FinalityStatus,
    proposerKey: Bytes,
    epochNumber: nat)

  /** The hash and the encoder a node computes block hashes with. */
  datatype Hashing = Hashing(sha: HashFn, enc: Encoder)

  // ----- BlockFactory::create_hash -----

  function MetadataEntries(m: map<string, string>, keys: seq<string>): Value
    requires forall k :: k in keys ==> k in m
  {
    Dict(seq(|keys|, i requires 0 <= i < |keys| => (Str(keys[i]), Str(m[keys[i]]))))
  }

  lemma SortedTextIn(keys: set<string>, k: string)
    ensures k in SortedText(keys) <==> k in keys
  {
    assert k in Elements(SortedText(keys)) <==> k in SortedText(keys);
  }

  /** `canonical_map_bytes` sees the metadata in key order. */
  ghost function MetadataValue(m: map<string, string>): Value {
    assert forall k :: k in SortedText(m.Keys) ==> k in m by {
      forall k | k in SortedText(m.Keys) ensures k in m { SortedTextIn(m.Keys, k); }
    }
    MetadataEntries(m, SortedText(m.Keys))
  }

  lemma MetadataValueInjective(a: map<string, string>, b: map<string, string>)
    requires MetadataValue(a) == MetadataValue(b)
    ensures a == b
  {
    var ka, kb := SortedText(a.Keys), SortedText(b.Keys);
    var ea, eb := MetadataValue(a).entries, MetadataValue(b).entries;
    assert |ea| == |ka| && |eb| == |kb|;
    forall i | 0 <= i < |ka| ensures ka[i] == kb[i] && ka[i] in a && kb[i] in b && a[ka[i]] == b[kb[i]] {
      SortedTextIn(a.Keys, ka[i]);
      SortedTextIn(b.Keys, kb[i]);
      assert ea[i] == (Str(ka[i]), Str(a[ka[i]])) && eb[i] == (Str(kb[i]), Str(b[kb[i]]));
    }
    assert ka == kb;
    assert a.Keys == Elements(ka) == Elements(kb) == b.Keys;
    forall k | k in a ensures a[k] == b[k] {
      assert k in Elements(ka);
    }
  }

  /** The values hashed after `previous_hash`, in order. */
  ghost function HashedValues(b: Block): seq<Value> {
    [Int(b.timestamp)] + CanonicalSignedValues(b.signedTrans)
    + [MetadataValue(b.tokenMetadata), BytesValue(b.proposerKey), Int(b.epochNumber)]
  }

  /** The whole hash input; `previous_hash` is prepended raw. */
  ghost function HashInput(hs: Hashing, b: Block): Option<Bytes> {
    match EncodeAll(hs.enc, HashedValues(b))
    case None => None
    case Some(bytes) => Some(b.previousHash + bytes)
  }

  ghost function BlockHash(hs: Hashing, b: Block): Option<Bytes> {
    match HashInput(hs, b) case None => None case Some(x) => Some(hs.sha(x))
  }

  method CanonicalMapBytes(enc: Encoder, m: map<string, string>) returns (r: Option<Bytes>)
    ensures r == enc(MetadataValue(m))
  {
    var order := HashMapOrder(m.Keys);
    var keys := SortKeys(TextLess, order);
    forall k | k in keys ensures k in m { SortedTextIn(m.Keys, k); }
    r := enc(MetadataEntries(m, keys));
  }

  function JoinParts(t: Option<Bytes>, x: Option<Bytes>, m: Option<Bytes>, p: Option<Bytes>, e: Option<Bytes>)
    : Option<Bytes>
  {
    if t.Some? && x.Some? && m.Some? && p.Some? && e.Some?
    then Some(t.value + x.value + m.value + p.value + e.value) else None
  }

  /** Five field encodings in a row, of which the second may itself be several. */
  lemma EncodeFields(enc: Encoder, t: Value, xs: seq<Value>, m: Value, p: Value, e: Value)
    ensures EncodeAll(enc, [t] + xs + [m, p, e]) == JoinParts(enc(t), EncodeAll(enc, xs), enc(m), enc(p), enc(e))
  {
    EncodeOne(enc, t);
    EncodeOne(enc, m);
    EncodeOne(enc, p);
    EncodeOne(enc, e);
    EncodeAllConcat(enc, [t], xs);
    EncodeAllConcat(enc, [t] + xs, [m]);
    EncodeAllConcat(enc, [t] + xs + [m], [p]);
    EncodeAllConcat(enc, [t] + xs + [m] + [p], [e]);
    assert [t] + xs + [m, p, e] == [t] + xs + [m] + [p] + [e];
  }

  lemma Reassociate(h: Bytes, t: Bytes, x: Bytes, m: Bytes, p: Bytes, e: Bytes)
    ensures h + t + x + m + p + e == h + (t + x + m + p + e)
  {
  }

  /** `create_hash`: append field after field into one buffer and hash it, giving up on the first failure. */
  method CreateHash(hs: Hashing, b: Block) returns (r: Option<Bytes>)
    ensures r == BlockHash(hs, b)
  {
    EncodeFields(hs.enc, Int(b.timestamp), CanonicalSignedValues(b.signedTrans), MetadataValue(b.tokenMetadata),
                 BytesValue(b.proposerKey), Int(b.epochNumber));
    var input := b.previousHash;
    var time := hs.enc(Int(b.timestamp));
    if time.None? { return None; }
    input := input + time.value;
    var trans := CanonicalSignedTransBytes(hs.enc, b.signedTrans);
    if trans.None? { return None; }
    input := input + trans.value;
    var metadata := CanonicalMapBytes(hs.enc, b.tokenMetadata);
    if metadata.None? { return None; }
    input := input + metadata.value;
    var proposer := hs.enc(BytesValue(b.proposerKey));
    if proposer.None? { return None; }
    input := input + proposer.value;
    var epoch := hs.enc(Int(b.epochNumber));
    if epoch.None? { return None; }
    input := input + epoch.value;
    Reassociate(b.previousHash, time.value, trans.value, metadata.value, proposer.value, epoch.value);
    r := Some(hs.sha(input));
  }

  /**
   The hash is taken over the parent's hash as it is, then the encodings of timestamp, signed transaction, metadata,
   proposer and epoch, in this order, and fails exactly where one of them does not encode.
   */
  lemma HashLayout(hs: Hashing, b: Block)
    ensures
      var t, x := hs.enc(Int(b.timestamp)), EncodeAll(hs.enc, CanonicalSignedValues(b.signedTrans));
      var m, p := hs.enc(MetadataValue(b.tokenMetadata)), hs.enc(BytesValue(b.proposerKey));
      var e := hs.enc(Int(b.epochNumber));
      if t.Some? && x.Some? && m.Some? && p.Some? && e.Some?
      then BlockHash(hs, b) == Some(hs.sha(b.previousHash + t.value + x.value + m.value + p.value + e.value))
      else BlockHash(hs, b) == None
  {
    var t, x := Int(b.timestamp), CanonicalSignedValues(b.signedTrans);
    var m, p, e := MetadataValue(b.tokenMetadata), BytesValue(b.proposerKey), Int(b.epochNumber);
    EncodeFields(hs.enc, t, x, m, p, e);
    if HashInput(hs, b).Some? {
      Reassociate(b.previousHash, hs.enc(t).value, EncodeAll(hs.enc, x).value, hs.enc(m).value, hs.enc(p).value,
                  hs.enc(e).value);
    }
  }

  // ----- what the hash binds -----

  /** The hashed values fix every hashed field, and whether a shielded payload is present. */
  lemma HashedValuesInjective(a: Block, b: Block)
    requires HashedValues(a) == HashedValues(b)
    ensures a == b.(previousHash := a.previousHash, currentHash := a.currentHash, finalityStatus := a.finalityStatus)
  {
    var va, vb := HashedValues(a), HashedValues(b);
    var xa, xb := CanonicalSignedValues(a.signedTrans), CanonicalSignedValues(b.signedTrans);
    assert |va| == |xa| + 4 && |vb| == |xb| + 4;
    assert Int(a.timestamp) == va[0] == vb[0] == Int(b.timestamp);
    assert xa == va[1..|xa| + 1] == vb[1..|xb| + 1] == xb;
    CanonicalSignedValuesInjective(a.signedTrans, b.signedTrans);
    assert MetadataValue(a.tokenMetadata) == va[|xa| + 1] == vb[|xb| + 1] == MetadataValue(b.tokenMetadata);
    MetadataValueInjective(a.tokenMetadata, b.tokenMetadata);
    assert BytesValue(a.proposerKey) == va[|xa| + 2] == vb[|xb| + 2] == BytesValue(b.proposerKey);
    BytesValueInjective(a.proposerKey, b.proposerKey);
    assert Int(a.epochNumber) == va[|xa| + 3] == vb[|xb| + 3] == Int(b.epochNumber);
  }

  /** The two blocks differ at most in the fields that are not hashed. */
  predicate SameHashed(a: Block, b: Block) {
    a == b.(currentHash := a.currentHash, finalityStatus := a.finalityStatus)
  }

  ghost predicate IsHasher(h: Block -> Option<Bytes>) {
    && (forall b :: h(b).Some? ==> |h(b).value| == DIGEST_LEN)
    && (forall a, b {:trigger SameHashed(a, b)} :: SameHashed(a, b) ==> h(a) == h(b))
  }

  /**
   Block hashing as its users see it: 32 bytes or a failure, the same for blocks with the same hashed fields.
   `HasherOf` is the one `CreateHash` computes.
   */
  type Hasher = h: Block -> Option<Bytes> | IsHasher(h) witness (b: Block) => None

  /** `current_hash` and the finality status are not hashed. */
  lemma HashIgnoresRest(hs: Hashing, a: Block, b: Block)
    requires SameHashed(a, b)
    ensures BlockHash(hs, a) == BlockHash(hs, b)
  {
    assert HashedValues(a) == HashedValues(b);
  }

  lemma HashLength(hs: Hashing, b: Block)
    ensures BlockHash(hs, b).Some? ==> |BlockHash(hs, b).value| == DIGEST_LEN
  {
  }

  ghost predicate Computes(hs: Hashing, f: Block -> Option<Bytes>) {
    forall b :: f(b) == BlockHash(hs, b)
  }

  lemma ComputesIsHasher(hs: Hashing, f: Block -> Option<Bytes>)
    requires Computes(hs, f)
    ensures IsHasher(f)
  {
    forall b | f(b).Some? ensures |f(b).value| == DIGEST_LEN { HashLength(hs, b); }
    forall a, b | SameHashed(a, b) ensures f(a) == f(b) { HashIgnoresRest(hs, a, b); }
  }

  ghost function HasherOf(hs: Hashing): (h: Hasher)
    ensures Computes(hs, h)
  {
    var f := (b: Block) => BlockHash(hs, b);
    ComputesIsHasher(hs, f);
    f
  }

  /** The two blocks agree on everything except the finality status. */
  predicate SameContent(a: Block, b: Block) {
    a == b.(finalityStatus := a.finalityStatus)
  }

  /** The claimed hash of a block is its recomputed hash. */
  predicate WellHashed(h: Hasher, b: Block) {
    h(b) == Some(b.currentHash)
  }

  ghost predicate NoBlockCollision(hs: Hashing, a: Block, b: Block) {
    match (HashInput(hs, a), HashInput(hs, b))
    case (Some(x), Some(y)) => NoCollision(hs.sha, x, y)
    case _ => true
  }

  /** Equal block hashes mean equal content, once the raw `previous_hash` fields have the same length. */
  lemma BlockHashBinds(hs: Hashing, a: Block, b: Block)
    requires SelfDelimiting(hs.enc)
    requires BlockHash(hs, a).Some? && BlockHash(hs, a) == BlockHash(hs, b) && a.currentHash == b.currentHash
    requires NoBlockCollision(hs, a, b)
    requires |a.previousHash| == |b.previousHash|
    ensures SameContent(a, b)
  {
    EqualLengthPrefix(a.previousHash, EncodeAll(hs.enc, HashedValues(a)).value,
                      b.previousHash, EncodeAll(hs.enc, HashedValues(b)).value);
    EncodeAllInjective(hs.enc, HashedValues(a), HashedValues(b));
    HashedValuesInjective(a, b);
  }
}
