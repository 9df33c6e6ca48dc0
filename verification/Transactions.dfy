/** The transaction records, their MsgPack views, and the proof that each view determines its record. */
module Transactions {
  import opened Primitives
  import opened Ordering
  import opened Encoding

  /** The percentage is an `f32`, carried by its bit pattern. */
  datatype Bid = Bid(bidExpiry: int, bidPercentage: nat)

  datatype SelectionRecord = SelectionRecord(
    finalizerPublicKey: Bytes,
    epochNumber: nat,
    salt: Bytes,
    sentinelPublicKey: Bytes,
    attestation: Bytes)

  datatype Transaction = Transaction(
    id: string,
    action: string,
    tokenId: Bytes,
    bid: Option<Bid>,
    sequenceNumber: nat,
    sender: Bytes,
    receiver: Bytes,
    amount: Option<nat>,
    timestamp: int,
    resultHash: Bytes,
    senderSignature: Bytes,
    payload: Bytes,
    gasLimit: nat,
    resultData: Bytes,
    selection: Option<SelectionRecord>)

  datatype TransactionSignature = TransactionSignature(
    transactionId: Bytes,
    envId: Bytes,
    transactionHash: Bytes,
    signature: Bytes,
    currentStake: nat)

  datatype ShieldedTransaction = ShieldedTransaction(
    id: string,
    action: string,
    tokenId: Bytes,
    spentCommitments: seq<Bytes>,
    nullifiers: seq<Bytes>,
    commitments: seq<Bytes>,
    merkleRoot: Bytes,
    proof: Bytes,
    noteCiphertexts: seq<Bytes>,
    fee: nat)

  datatype SignedTransaction = SignedTransaction(
    transactionId: string,
    transaction: Transaction,
    totalStake: nat,
    totalVoters: nat,
    leaderAddress: Bytes,
    leaderStake: nat,
    leaderHash: Bytes,
    finalizerAddr: Bytes,
    finalizerSig: TransactionSignature,
    executorSigs: map<Bytes, TransactionSignature>,
    proposerKey: Bytes,
    shielded: Option<ShieldedTransaction>)

  // ----- views of the small records -----

  function BidValue(b: Option<Bid>): Value {
    match b
    case None => Nil
    case Some(b) => Record(["bid_expiry", "bid_percentage"], [Int(b.bidExpiry), Float(b.bidPercentage)])
  }

  lemma BidValueInjective(a: Option<Bid>, b: Option<Bid>)
    requires BidValue(a) == BidValue(b)
    ensures a == b
  {
    if a.Some? && b.Some? {
      var va, vb := [Int(a.value.bidExpiry), Float(a.value.bidPercentage)],
                    [Int(b.value.bidExpiry), Float(b.value.bidPercentage)];
      RecordInjective(["bid_expiry", "bid_percentage"], va, ["bid_expiry", "bid_percentage"], vb);
      assert va[0] == vb[0] && va[1] == vb[1];
    }
  }

  const SELECTION_FIELDS: seq<string> :=
    ["finalizer_public_key", "epoch_number", "salt", "sentinel_public_key", "attestation"]

  function SelectionValues(s: SelectionRecord): (r: seq<Value>)
    ensures |r| == 5
  {
    [BytesValue(s.finalizerPublicKey), Int(s.epochNumber), BytesValue(s.salt),
     BytesValue(s.sentinelPublicKey), BytesValue(s.attestation)]
  }

  function SelectionValue(s: SelectionRecord): Value {
    Record(SELECTION_FIELDS, SelectionValues(s))
  }

  lemma SelectionValueInjective(a: SelectionRecord, b: SelectionRecord)
    requires SelectionValue(a) == SelectionValue(b)
    ensures a == b
  {
    var va, vb := SelectionValues(a), SelectionValues(b);
    RecordInjective(SELECTION_FIELDS, va, SELECTION_FIELDS, vb);
    assert va[0] == vb[0] && va[1] == vb[1] && va[2] == vb[2] && va[3] == vb[3] && va[4] == vb[4];
    BytesValueInjective(a.finalizerPublicKey, b.finalizerPublicKey);
    BytesValueInjective(a.salt, b.salt);
    BytesValueInjective(a.sentinelPublicKey, b.sentinelPublicKey);
    BytesValueInjective(a.attestation, b.attestation);
  }

  const SIGNATURE_FIELDS: seq<string> :=
    ["transaction_id", "env_id", "transaction_hash", "signature", "current_stake"]

  function SignatureValues(s: TransactionSignature): (r: seq<Value>)
    ensures |r| == 5
  {
    [BytesValue(s.transactionId), BytesValue(s.envId), BytesValue(s.transactionHash),
     BytesValue(s.signature), Int(s.currentStake)]
  }

  function SignatureValue(s: TransactionSignature): Value {
    Record(SIGNATURE_FIELDS, SignatureValues(s))
  }

  lemma SignatureValueInjective(a: TransactionSignature, b: TransactionSignature)
    requires SignatureValue(a) == SignatureValue(b)
    ensures a == b
  {
    var va, vb := SignatureValues(a), SignatureValues(b);
    RecordInjective(SIGNATURE_FIELDS, va, SIGNATURE_FIELDS, vb);
    assert va[0] == vb[0] && va[1] == vb[1] && va[2] == vb[2] && va[3] == vb[3] && va[4] == vb[4];
    BytesValueInjective(a.transactionId, b.transactionId);
    BytesValueInjective(a.envId, b.envId);
    BytesValueInjective(a.transactionHash, b.transactionHash);
    BytesValueInjective(a.signature, b.signature);
  }

  const SHIELDED_FIELDS: seq<string> :=
    ["id", "action", "token_id", "spent_commitments", "nullifiers", "commitments", "merkle_root", "proof",
     "note_ciphertexts", "fee"]

  function ShieldedValues(s: ShieldedTransaction): (r: seq<Value>)
    ensures |r| == 10
  {
    [Str(s.id), Str(s.action), BytesValue(s.tokenId), BytesListValue(s.spentCommitments),
     BytesListValue(s.nullifiers), BytesListValue(s.commitments), BytesValue(s.merkleRoot),
     BytesValue(s.proof), BytesListValue(s.noteCiphertexts), Int(s.fee)]
  }

  function ShieldedValue(s: ShieldedTransaction): Value {
    Record(SHIELDED_FIELDS, ShieldedValues(s))
  }

  lemma ShieldedValueInjective(a: ShieldedTransaction, b: ShieldedTransaction)
    requires ShieldedValue(a) == ShieldedValue(b)
    ensures a == b
  {
    var va, vb := ShieldedValues(a), ShieldedValues(b);
    RecordInjective(SHIELDED_FIELDS, va, SHIELDED_FIELDS, vb);
    assert va[0] == vb[0] && va[1] == vb[1] && va[2] == vb[2] && va[3] == vb[3] && va[4] == vb[4];
    assert va[5] == vb[5] && va[6] == vb[6] && va[7] == vb[7] && va[8] == vb[8] && va[9] == vb[9];
    BytesValueInjective(a.tokenId, b.tokenId);
    BytesListValueInjective(a.spentCommitments, b.spentCommitments);
    BytesListValueInjective(a.nullifiers, b.nullifiers);
    BytesListValueInjective(a.commitments, b.commitments);
    BytesValueInjective(a.merkleRoot, b.merkleRoot);
    BytesValueInjective(a.proof, b.proof);
    BytesListValueInjective(a.noteCiphertexts, b.noteCiphertexts);
  }

  // ----- Transaction: eleven fields always present, four skipped when empty -----

  const TX_FIELDS: seq<string> :=
    ["id", "action", "token_id", "bid", "sequence_number", "sender", "receiver", "amount", "timestamp",
     "result_hash", "sender_signature"]

  function TxBase(t: Transaction): (r: seq<Value>)
    ensures |r| == 11
  {
    [Str(t.id), Str(t.action), BytesValue(t.tokenId), BidValue(t.bid), Int(t.sequenceNumber),
     BytesValue(t.sender), BytesValue(t.receiver), OptionIntValue(t.amount), Int(t.timestamp),
     BytesValue(t.resultHash), BytesValue(t.senderSignature)]
  }

  lemma TxBaseInjective(a: Transaction, b: Transaction)
    requires TxBase(a) == TxBase(b)
    ensures a == b.(payload := a.payload, gasLimit := a.gasLimit, resultData := a.resultData,
                    selection := a.selection)
  {
    var va, vb := TxBase(a), TxBase(b);
    assert va[0] == vb[0] && va[1] == vb[1] && va[2] == vb[2] && va[3] == vb[3] && va[4] == vb[4];
    assert va[5] == vb[5] && va[6] == vb[6] && va[7] == vb[7] && va[8] == vb[8];
    assert va[9] == vb[9] && va[10] == vb[10];
    BytesValueInjective(a.tokenId, b.tokenId);
    BidValueInjective(a.bid, b.bid);
    BytesValueInjective(a.sender, b.sender);
    BytesValueInjective(a.receiver, b.receiver);
    BytesValueInjective(a.resultHash, b.resultHash);
    BytesValueInjective(a.senderSignature, b.senderSignature);
  }

  /** A field under `skip_serializing_if`: present or absent. */
  function Skipped<T>(present: bool, x: T): seq<T> {
    if present then [x] else []
  }

  function OptionalNames(p: bool, g: bool, r: bool, s: bool): seq<string> {
    Skipped(p, "payload") + (Skipped(g, "gas_limit") + (Skipped(r, "result_data") + Skipped(s, "selection")))
  }

  /** The names that were written tell which optional fields are there. */
  lemma OptionalNamesInjective(p: bool, g: bool, r: bool, s: bool, p': bool, g': bool, r': bool, s': bool)
    requires OptionalNames(p, g, r, s) == OptionalNames(p', g', r', s')
    ensures p == p' && g == g' && r == r' && s == s'
  {
    assert "gas_limit"[0] == 'g' && "selection"[0] == 's';
    assert forall p, g, r, s :: "payload" in OptionalNames(p, g, r, s) <==> p;
    assert forall p, g, r, s :: "gas_limit" in OptionalNames(p, g, r, s) <==> g;
    assert forall p, g, r, s :: "result_data" in OptionalNames(p, g, r, s) <==> r;
    assert forall p, g, r, s :: "selection" in OptionalNames(p, g, r, s) <==> s;
  }

  function TxOptional(t: Transaction): seq<Value> {
    Skipped(t.payload != [], BytesValue(t.payload))
    + (Skipped(t.gasLimit != 0, Int(t.gasLimit))
       + (Skipped(t.resultData != [], BytesValue(t.resultData))
          + Skipped(t.selection.Some?, if t.selection.Some? then SelectionValue(t.selection.value) else Nil)))
  }

  function TxOptionalNames(t: Transaction): (r: seq<string>)
    ensures |r| == |TxOptional(t)|
  {
    OptionalNames(t.payload != [], t.gasLimit != 0, t.resultData != [], t.selection.Some?)
  }

  function TransactionValue(t: Transaction): Value {
    Record(TX_FIELDS + TxOptionalNames(t), TxBase(t) + TxOptional(t))
  }

  /** Skipping empty fields loses nothing: the MsgPack form determines the transaction. */
  lemma TransactionValueInjective(a: Transaction, b: Transaction)
    requires TransactionValue(a) == TransactionValue(b)
    ensures a == b
  {
    RecordInjective(TX_FIELDS + TxOptionalNames(a), TxBase(a) + TxOptional(a),
                    TX_FIELDS + TxOptionalNames(b), TxBase(b) + TxOptional(b));
    assert TxOptionalNames(a) == (TX_FIELDS + TxOptionalNames(a))[11..];
    assert TxOptionalNames(b) == (TX_FIELDS + TxOptionalNames(b))[11..];
    OptionalNamesInjective(a.payload != [], a.gasLimit != 0, a.resultData != [], a.selection.Some?,
                           b.payload != [], b.gasLimit != 0, b.resultData != [], b.selection.Some?);
    assert TxBase(a) == (TxBase(a) + TxOptional(a))[..11] == (TxBase(b) + TxOptional(b))[..11] == TxBase(b);
    assert TxOptional(a) == (TxBase(a) + TxOptional(a))[11..] == (TxBase(b) + TxOptional(b))[11..] == TxOptional(b);
    TxBaseInjective(a, b);
    TxOptionalInjective(a, b);
  }

  lemma SplitSkipped<T>(present: bool, x: T, y: T, s: seq<T>, t: seq<T>)
    requires Skipped(present, x) + s == Skipped(present, y) + t
    ensures s == t && (present ==> x == y)
  {
    var l, r := Skipped(present, x) + s, Skipped(present, y) + t;
    var k := if present then 1 else 0;
    assert s == l[k..] == r[k..] == t;
    assert present ==> x == l[0] == r[0] == y;
  }

  lemma TxOptionalInjective(a: Transaction, b: Transaction)
    requires TxOptional(a) == TxOptional(b)
    requires (a.payload != []) == (b.payload != []) && (a.gasLimit != 0) == (b.gasLimit != 0)
    requires (a.resultData != []) == (b.resultData != []) && a.selection.Some? == b.selection.Some?
    ensures a.payload == b.payload && a.gasLimit == b.gasLimit
    ensures a.resultData == b.resultData && a.selection == b.selection
  {
    var sa := if a.selection.Some? then SelectionValue(a.selection.value) else Nil;
    var sb := if b.selection.Some? then SelectionValue(b.selection.value) else Nil;
    var ra := Skipped(a.resultData != [], BytesValue(a.resultData)) + Skipped(a.selection.Some?, sa);
    var rb := Skipped(b.resultData != [], BytesValue(b.resultData)) + Skipped(b.selection.Some?, sb);
    var ga, gb := Skipped(a.gasLimit != 0, Int(a.gasLimit)) + ra, Skipped(b.gasLimit != 0, Int(b.gasLimit)) + rb;
    SplitSkipped(a.payload != [], BytesValue(a.payload), BytesValue(b.payload), ga, gb);
    SplitSkipped(a.gasLimit != 0, Int(a.gasLimit), Int(b.gasLimit), ra, rb);
    SplitSkipped(a.resultData != [], BytesValue(a.resultData), BytesValue(b.resultData),
                 Skipped(a.selection.Some?, sa), Skipped(b.selection.Some?, sb));
    if a.payload != [] { BytesValueInjective(a.payload, b.payload); }
    if a.resultData != [] { BytesValueInjective(a.resultData, b.resultData); }
    if a.selection.Some? {
      assert sa == Skipped(true, sa)[0] == Skipped(true, sb)[0] == sb;
      SelectionValueInjective(a.selection.value, b.selection.value);
    }
  }

  // ----- executor signatures: a hash map, serialized through a tree map -----

  /** The map's entries in the given key order. */
  function SignatureEntries(m: map<Bytes, TransactionSignature>, keys: seq<Bytes>): Value
    requires forall k :: k in keys ==> k in m
  {
    Dict(seq(|keys|, i requires 0 <= i < |keys| => (BytesValue(keys[i]), SignatureValue(m[keys[i]]))))
  }

  lemma SortedBytesIn(keys: set<Bytes>, k: Bytes)
    ensures k in SortedBytes(keys) <==> k in keys
  {
    assert k in Elements(SortedBytes(keys)) <==> k in SortedBytes(keys);
  }

  ghost function SignatureMapValue(m: map<Bytes, TransactionSignature>): Value {
    assert forall k :: k in SortedBytes(m.Keys) ==> k in m by {
      forall k | k in SortedBytes(m.Keys) ensures k in m { SortedBytesIn(m.Keys, k); }
    }
    SignatureEntries(m, SortedBytes(m.Keys))
  }

  /** Collect the hash map into a tree map and view it: the result does not depend on the iteration order. */
  method CollectSignatures(m: map<Bytes, TransactionSignature>) returns (keys: seq<Bytes>, v: Value)
    ensures keys == SortedBytes(m.Keys)
    ensures v == SignatureMapValue(m)
  {
    var order := HashMapOrder(m.Keys);
    keys := SortKeys(BytesLess, order);
    forall k | k in keys ensures k in m { SortedBytesIn(m.Keys, k); }
    v := SignatureEntries(m, keys);
  }

  lemma SignatureMapValueInjective(a: map<Bytes, TransactionSignature>, b: map<Bytes, TransactionSignature>)
    requires SignatureMapValue(a) == SignatureMapValue(b)
    ensures a == b
  {
    var ka, kb := SortedBytes(a.Keys), SortedBytes(b.Keys);
    var ea, eb := SignatureMapValue(a).entries, SignatureMapValue(b).entries;
    assert |ea| == |ka| && |eb| == |kb|;
    forall i | 0 <= i < |ka| ensures ka[i] == kb[i] && ka[i] in a && kb[i] in b && a[ka[i]] == b[kb[i]] {
      assert ka[i] in Elements(ka) && kb[i] in Elements(kb);
      assert ea[i] == (BytesValue(ka[i]), SignatureValue(a[ka[i]]));
      assert eb[i] == (BytesValue(kb[i]), SignatureValue(b[kb[i]]));
      BytesValueInjective(ka[i], kb[i]);
      SignatureValueInjective(a[ka[i]], b[kb[i]]);
    }
    assert ka == kb;
    assert a.Keys == Elements(ka) == Elements(kb) == b.Keys;
    forall k | k in a ensures a[k] == b[k] {
      assert k in Elements(ka);
    }
  }

  // ----- canonical_signed_trans_bytes -----

  const SIGNED_FIELDS: seq<string> :=
    ["transaction_id", "transaction", "total_stake", "total_voters", "leader_address", "leader_stake",
     "leader_hash", "finalizer_addr", "finalizer_sig", "executor_sigs", "proposer_key"]

  /** The eleven fields of the canonical view, with `sig` in the finalizer's slot and `sigs` for the executor map. */
  function SignedFields(s: SignedTransaction, sig: TransactionSignature, sigs: Value): (r: seq<Value>)
    ensures |r| == 11
  {
    [Str(s.transactionId), TransactionValue(s.transaction), Int(s.totalStake), Int(s.totalVoters),
     BytesValue(s.leaderAddress), Int(s.leaderStake), BytesValue(s.leaderHash), BytesValue(s.finalizerAddr),
     SignatureValue(sig), sigs, BytesValue(s.proposerKey)]
  }

  ghost function SignedValues(s: SignedTransaction, sig: TransactionSignature): (r: seq<Value>)
    ensures |r| == 11
  {
    SignedFields(s, sig, SignatureMapValue(s.executorSigs))
  }

  /** The view fixes every field but `shielded` and, when the slot is overwritten, `finalizer_sig`. */
  lemma SignedValuesInjective(a: SignedTransaction, x: TransactionSignature, b: SignedTransaction,
                              y: TransactionSignature)
    requires SignedValues(a, x) == SignedValues(b, y)
    ensures x == y
    ensures a == b.(finalizerSig := a.finalizerSig, shielded := a.shielded)
  {
    var va, vb := SignedValues(a, x), SignedValues(b, y);
    assert va[0] == vb[0] && va[1] == vb[1] && va[2] == vb[2] && va[3] == vb[3] && va[4] == vb[4];
    assert va[5] == vb[5] && va[6] == vb[6] && va[7] == vb[7] && va[8] == vb[8];
    assert va[9] == vb[9] && va[10] == vb[10];
    TransactionValueInjective(a.transaction, b.transaction);
    BytesValueInjective(a.leaderAddress, b.leaderAddress);
    BytesValueInjective(a.leaderHash, b.leaderHash);
    BytesValueInjective(a.finalizerAddr, b.finalizerAddr);
    SignatureValueInjective(x, y);
    SignatureMapValueInjective(a.executorSigs, b.executorSigs);
    BytesValueInjective(a.proposerKey, b.proposerKey);
  }

  /** The values whose encodings `canonical_signed_trans_bytes` concatenates: one, or two when shielded. */
  ghost function CanonicalSignedValues(s: SignedTransaction): seq<Value> {
    [Record(SIGNED_FIELDS, SignedValues(s, s.finalizerSig))]
    + (match s.shielded case None => [] case Some(t) => [ShieldedValue(t)])
  }

  /** `canonical_signed_trans_bytes`. */
  method CanonicalSignedTransBytes(enc: Encoder, s: SignedTransaction) returns (r: Option<Bytes>)
    ensures r == EncodeAll(enc, CanonicalSignedValues(s))
  {
    var _, sigs := CollectSignatures(s.executorSigs);
    var core := Record(SIGNED_FIELDS, SignedFields(s, s.finalizerSig, sigs));
    var bytes := enc(core);
    EncodeOne(enc, core);
    if bytes.None? {
      EncodeAllConcat(enc, [core], CanonicalSignedValues(s)[1..]);
      assert CanonicalSignedValues(s) == [core] + CanonicalSignedValues(s)[1..];
      return None;
    }
    if s.shielded.Some? {
      var tail := enc(ShieldedValue(s.shielded.value));
      EncodeOne(enc, ShieldedValue(s.shielded.value));
      EncodeAllConcat(enc, [core], [ShieldedValue(s.shielded.value)]);
      if tail.None? { return None; }
      return Some(bytes.value + tail.value);
    }
    assert CanonicalSignedValues(s) == [core];
    return bytes;
  }

  lemma EncodeOne(enc: Encoder, v: Value)
    ensures EncodeAll(enc, [v]) == enc(v)
  {
    assert [v][1..] == [];
    if enc(v).Some? { assert enc(v).value + [] == enc(v).value; }
  }

  lemma CanonicalSignedValuesInjective(a: SignedTransaction, b: SignedTransaction)
    requires CanonicalSignedValues(a) == CanonicalSignedValues(b)
    ensures a == b
  {
    var va, vb := CanonicalSignedValues(a), CanonicalSignedValues(b);
    assert va[0] == vb[0];
    RecordInjective(SIGNED_FIELDS, SignedValues(a, a.finalizerSig), SIGNED_FIELDS, SignedValues(b, b.finalizerSig));
    SignedValuesInjective(a, a.finalizerSig, b, b.finalizerSig);
    if a.shielded.Some? {
      assert va[1] == vb[1];
      ShieldedValueInjective(a.shielded.value, b.shielded.value);
    }
  }

  /**
   `identity_bytes` answers "is this the transaction I validated?": two transactions have the same identity
   bytes exactly when they agree on every field other than the two execution outputs.
   */
  function IdentityBytes(enc: Encoder, t: Transaction): Option<Bytes> {
    enc(TransactionValue(t.(resultHash := [], resultData := [])))
  }

  lemma IdentityBytesBind(enc: Encoder, a: Transaction, b: Transaction)
    requires Injective(enc)
    requires IdentityBytes(enc, a).Some? && IdentityBytes(enc, b).Some?
    ensures IdentityBytes(enc, a) == IdentityBytes(enc, b)
        <==> a == b.(resultHash := a.resultHash, resultData := a.resultData)
  {
    var na, nb := a.(resultHash := [], resultData := []), b.(resultHash := [], resultData := []);
    if IdentityBytes(enc, a) == IdentityBytes(enc, b) {
      assert TransactionValue(na) == TransactionValue(nb);
      TransactionValueInjective(na, nb);
    }
    assert a == b.(resultHash := a.resultHash, resultData := a.resultData) ==> na == nb;
  }
}
