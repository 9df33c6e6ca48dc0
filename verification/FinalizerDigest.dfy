/** The digest a Finalizer signs, and the check every verifier makes against the payload it received. */
module FinalizerDigest {
  import opened Primitives
  import opened Ordering
  import opened Encoding
  import opened Transactions

  /** `finalizer_placeholder_sig`: what stands in the signature slot while the digest is taken. */
  function PlaceholderSig(t: Transaction): TransactionSignature {
    TransactionSignature(Utf8(t.id), t.tokenId, [], [], 0)
  }

  const CARRIER_FIELDS: seq<string> := SIGNED_FIELDS + ["shielded"]

  function OptionShieldedValue(s: Option<ShieldedTransaction>): Value {
    match s case None => Nil case Some(t) => ShieldedValue(t)
  }

  /** `CanonicalFinalizerCarrier`, given the view of the executor map. */
  function CarrierOf(s: SignedTransaction, sigs: Value): Value {
    Record(CARRIER_FIELDS,
           SignedFields(s, PlaceholderSig(s.transaction), sigs) + [OptionShieldedValue(s.shielded)])
  }

  ghost function CarrierValue(s: SignedTransaction): Value {
    CarrierOf(s, SignatureMapValue(s.executorSigs))
  }

  /** The executors' signature bytes, one after the other, in the given voter order. */
  function SignatureBytes(m: map<Bytes, TransactionSignature>, keys: seq<Bytes>): Bytes
    requires forall k :: k in keys ==> k in m
  {
    if keys == [] then []
    else SignatureBytes(m, keys[..|keys| - 1]) + m[keys[|keys| - 1]].signature
  }

  ghost function SignatureInput(m: map<Bytes, TransactionSignature>): Bytes {
    assert forall k :: k in SortedBytes(m.Keys) ==> k in m by {
      forall k | k in SortedBytes(m.Keys) ensures k in m { SortedBytesIn(m.Keys, k); }
    }
    SignatureBytes(m, SortedBytes(m.Keys))
  }

  /** H( H(carrier) followed by H(executor signatures) ). */
  function DigestOf(sha: HashFn, enc: Encoder, carrier: Value, sigInput: Bytes): Option<Bytes> {
    match enc(carrier)
    case None => None
    case Some(bytes) => Some(sha(sha(bytes) + sha(sigInput)))
  }

  /** The digest of a payload: its carrier with the placeholder, its signatures in voter order. */
  ghost function Digest(sha: HashFn, enc: Encoder, s: SignedTransaction): Option<Bytes> {
    DigestOf(sha, enc, CarrierValue(s), SignatureInput(s.executorSigs))
  }

  method ConcatSignatures(m: map<Bytes, TransactionSignature>, keys: seq<Bytes>) returns (r: Bytes)
    requires forall k :: k in keys ==> k in m
    ensures r == SignatureBytes(m, keys)
  {
    r := [];
    for i := 0 to |keys|
      invariant r == SignatureBytes(m, keys[..i])
    {
      assert keys[..i + 1][..i] == keys[..i];
      r := r + m[keys[i]].signature;
    }
    assert keys[..|keys|] == keys;
  }

  /** `finalizer_digest`: the same digest whatever order the executor map iterates in. */
  method ComputeDigest(sha: HashFn, enc: Encoder, s: SignedTransaction) returns (r: Option<Bytes>)
    ensures r == Digest(sha, enc, s)
  {
    var keys, sigs := CollectSignatures(s.executorSigs);
    forall k | k in keys ensures k in s.executorSigs { SortedBytesIn(s.executorSigs.Keys, k); }
    var sigInput := ConcatSignatures(s.executorSigs, keys);
    match enc(CarrierOf(s, sigs)) {
      case None => r := None;
      case Some(bytes) =>
        var combined := sha(bytes);
        combined := combined + sha(sigInput);
        r := Some(sha(combined));
    }
  }

  /** The signatures at the given keys, in the order of the keys. */
  function SignaturesAt(m: map<Bytes, TransactionSignature>, keys: seq<Bytes>): seq<Bytes>
    requires forall k :: k in keys ==> k in m
  {
    seq(|keys|, i requires 0 <= i < |keys| => m[keys[i]].signature)
  }

  lemma {:induction false} SignatureBytesAre(m: map<Bytes, TransactionSignature>, keys: seq<Bytes>)
    requires forall k :: k in keys ==> k in m
    ensures SignatureBytes(m, keys) == Concat(SignaturesAt(m, keys))
  {
    if keys != [] {
      var front, last := keys[..|keys| - 1], keys[|keys| - 1];
      SignatureBytesAre(m, front);
      assert SignaturesAt(m, keys) == SignaturesAt(m, front) + [m[last].signature];
      ConcatAppend(SignaturesAt(m, front), [m[last].signature]);
      assert [m[last].signature][1..] == [];
    }
  }

  /**
   The digest is the hash of two hashes: that of the carrier's bytes, and that of all executor signatures end to end, by
   strictly increasing voter key. It fails only where the carrier does not encode.
   */
  lemma DigestLayout(sha: HashFn, enc: Encoder, s: SignedTransaction, keys: seq<Bytes>)
    requires StrictlySorted(BytesLess, keys) && forall k :: k in keys <==> k in s.executorSigs
    ensures
      match enc(CarrierValue(s))
      case None => Digest(sha, enc, s) == None
      case Some(carrier) =>
        Digest(sha, enc, s) == Some(sha(sha(carrier) + sha(Concat(SignaturesAt(s.executorSigs, keys)))))
  {
    SortedKeysAre(s.executorSigs.Keys, keys);
    SignatureBytesAre(s.executorSigs, keys);
  }

  lemma SortedKeysAre(all: set<Bytes>, keys: seq<Bytes>)
    requires StrictlySorted(BytesLess, keys) && forall k :: k in keys <==> k in all
    ensures keys == SortedBytes(all)
  {
    BytesLessTotal();
    assert Elements(keys) == all;
    SortKeysSorts(BytesLess, keys);
    SortedUnique(BytesLess, keys, SortKeys(BytesLess, keys));
  }

  datatype SignatureFailure =
    | Missing
    | PayloadMismatch(claimed: Bytes, derived: Bytes)
    | InvalidUnderKey

  /** `check_signature(signature, key, message)`, with `None` for a crypto provider that failed to answer. */
  type SignatureCheck = (Bytes, Bytes, Bytes) -> Option<bool>

  /** `verify_finalizer_signature`. */
  method VerifyFinalizerSignature(sha: HashFn, enc: Encoder, check: SignatureCheck,
                                  s: SignedTransaction, key: Bytes)
    returns (r: Result<(), SignatureFailure>)
    ensures r.Success? <==> Verifies(sha, enc, check, s, key)
    ensures r == Failure(Missing) <==> s.finalizerSig.signature == []
    ensures r.Failure? && r.error.PayloadMismatch? <==>
            s.finalizerSig.signature != [] && Digest(sha, enc, s).Some?
            && Digest(sha, enc, s).value != s.finalizerSig.transactionHash
    ensures r.Failure? && r.error.PayloadMismatch? ==>
              r.error == PayloadMismatch(s.finalizerSig.transactionHash, Digest(sha, enc, s).value)
  {
    if s.finalizerSig.signature == [] { return Failure(Missing); }
    var derived := ComputeDigest(sha, enc, s);
    if derived.None? { return Failure(InvalidUnderKey); }
    if derived.value != s.finalizerSig.transactionHash {
      return Failure(PayloadMismatch(s.finalizerSig.transactionHash, derived.value));
    }
    match check(s.finalizerSig.signature, key, derived.value) {
      case Some(true) => return Success(());
      case _ => return Failure(InvalidUnderKey);
    }
  }

  /** A payload verifies when its own digest is the claimed hash and the signature covers that digest. */
  ghost predicate Verifies(sha: HashFn, enc: Encoder, check: SignatureCheck, s: SignedTransaction, key: Bytes) {
    && s.finalizerSig.signature != []
    && Digest(sha, enc, s) == Some(s.finalizerSig.transactionHash)
    && check(s.finalizerSig.signature, key, s.finalizerSig.transactionHash) == Some(true)
  }

  /** The signature slot is not part of what is signed. */
  lemma DigestIgnoresSignatureSlot(sha: HashFn, enc: Encoder, s: SignedTransaction, sig: TransactionSignature)
    ensures Digest(sha, enc, s.(finalizerSig := sig)) == Digest(sha, enc, s)
  {
    assert CarrierValue(s.(finalizerSig := sig)) == CarrierValue(s);
  }

  /** `sign_finalizer_block`: the signature record a Finalizer attaches, for a signer `sign` of its key. */
  ghost function SignBlock(sha: HashFn, enc: Encoder, sign: Bytes -> Bytes, stake: nat, s: SignedTransaction)
    : Option<TransactionSignature>
  {
    match Digest(sha, enc, s)
    case None => None
    case Some(d) => Some(TransactionSignature(Utf8(s.transaction.id), s.transaction.tokenId, d, sign(d), stake))
  }

  /** What is attached names the transaction and its token, claims the digest and signs it. */
  lemma SignatureClaimsDigest(sha: HashFn, enc: Encoder, sign: Bytes -> Bytes, stake: nat, s: SignedTransaction)
    ensures SignBlock(sha, enc, sign, stake, s).Some? <==> Digest(sha, enc, s).Some?
    ensures
      match SignBlock(sha, enc, sign, stake, s)
      case None => true
      case Some(sig) =>
        && Digest(sha, enc, s) == Some(sig.transactionHash) && sig.signature == sign(sig.transactionHash)
        && sig.transactionId == Utf8(s.transaction.id) && sig.envId == s.transaction.tokenId
        && sig.currentStake == stake
  {
  }

  /** A payload with the placeholder still in its slot never verifies. */
  lemma PlaceholderRefused(sha: HashFn, enc: Encoder, check: SignatureCheck, s: SignedTransaction, key: Bytes)
    ensures !Verifies(sha, enc, check, s.(finalizerSig := PlaceholderSig(s.transaction)), key)
  {
  }

  /** Attaching the Finalizer's own signature always yields a block that verifies under its key. */
  lemma SignThenVerify(sha: HashFn, enc: Encoder, check: SignatureCheck, sign: Bytes -> Bytes, key: Bytes,
                       stake: nat, s: SignedTransaction)
    requires forall m :: sign(m) != [] && check(sign(m), key, m) == Some(true)
    requires SignBlock(sha, enc, sign, stake, s).Some?
    ensures Verifies(sha, enc, check, s.(finalizerSig := SignBlock(sha, enc, sign, stake, s).value), key)
  {
    var sig := SignBlock(sha, enc, sign, stake, s).value;
    DigestIgnoresSignatureSlot(sha, enc, s, sig);
  }

  lemma CarrierValueInjective(a: SignedTransaction, b: SignedTransaction)
    requires CarrierValue(a) == CarrierValue(b)
    ensures a == b.(finalizerSig := a.finalizerSig)
  {
    var fa := SignedValues(a, PlaceholderSig(a.transaction));
    var fb := SignedValues(b, PlaceholderSig(b.transaction));
    var ta, tb := [OptionShieldedValue(a.shielded)], [OptionShieldedValue(b.shielded)];
    RecordInjective(CARRIER_FIELDS, fa + ta, CARRIER_FIELDS, fb + tb);
    assert fa == (fa + ta)[..11] == (fb + tb)[..11] == fb;
    SignedValuesInjective(a, PlaceholderSig(a.transaction), b, PlaceholderSig(b.transaction));
    assert OptionShieldedValue(a.shielded) == (fa + ta)[11] == (fb + tb)[11] == OptionShieldedValue(b.shielded);
    if a.shielded.Some? && b.shielded.Some? {
      ShieldedValueInjective(a.shielded.value, b.shielded.value);
    }
  }

  /** Neither the outer nor the carrier hash of the two digest computations is a collision. */
  predicate NoDigestCollision(sha: HashFn, enc: Encoder, v: Value, i: Bytes, v': Value, i': Bytes) {
    match (enc(v), enc(v'))
    case (Some(x), Some(x')) =>
      NoCollision(sha, x, x') && NoCollision(sha, sha(x) + sha(i), sha(x') + sha(i'))
    case _ => true
  }

  ghost predicate NoPayloadCollision(sha: HashFn, enc: Encoder, a: SignedTransaction, b: SignedTransaction) {
    NoDigestCollision(sha, enc, CarrierValue(a), SignatureInput(a.executorSigs),
                      CarrierValue(b), SignatureInput(b.executorSigs))
  }

  /** Equal digests mean equal carriers, the two 32-byte halves being fixed in place. */
  lemma DigestOfBinds(sha: HashFn, enc: Encoder, v: Value, i: Bytes, v': Value, i': Bytes)
    requires Injective(enc)
    requires NoDigestCollision(sha, enc, v, i, v', i')
    requires DigestOf(sha, enc, v, i).Some? && DigestOf(sha, enc, v, i) == DigestOf(sha, enc, v', i')
    ensures v == v'
  {
    EqualLengthPrefix(sha(enc(v).value), sha(i), sha(enc(v').value), sha(i'));
  }

  /** Equal digests mean equal payloads, up to the signature slot. */
  lemma DigestBinds(sha: HashFn, enc: Encoder, a: SignedTransaction, b: SignedTransaction)
    requires Injective(enc)
    requires NoPayloadCollision(sha, enc, a, b)
    requires Digest(sha, enc, a).Some? && Digest(sha, enc, a) == Digest(sha, enc, b)
    ensures a == b.(finalizerSig := a.finalizerSig)
  {
    DigestOfBinds(sha, enc, CarrierValue(a), SignatureInput(a.executorSigs),
                  CarrierValue(b), SignatureInput(b.executorSigs));
    CarrierValueInjective(a, b);
  }

  /**
   Two blocks that verify, under any keys, while claiming the same hash carry the same payload: every field
   other than `finalizer_sig` agrees, the execution result and each executor signature included.
   */
  lemma SameClaimSamePayload(sha: HashFn, enc: Encoder, check: SignatureCheck,
                             a: SignedTransaction, keyA: Bytes, b: SignedTransaction, keyB: Bytes)
    requires Injective(enc)
    requires Verifies(sha, enc, check, a, keyA) && Verifies(sha, enc, check, b, keyB)
    requires a.finalizerSig.transactionHash == b.finalizerSig.transactionHash
    requires NoPayloadCollision(sha, enc, a, b)
    ensures a == b.(finalizerSig := a.finalizerSig)
  {
    DigestBinds(sha, enc, a, b);
  }
}
