/** What the encoded records say, read by field name as a deserializer reads them. */
module Layouts {
  import opened Primitives
  import opened Encoding
  import opened Transactions
  import opened FinalizerDigest

  /** The value of the first entry with the name. */
  function Find(entries: seq<(Value, Value)>, name: string): Option<Value> {
    if entries == [] then None
    else if entries[0].0 == Str(name) then Some(entries[0].1)
    else Find(entries[1..], name)
  }

  function At(v: Value, name: string): Option<Value> {
    if v.Dict? then Find(v.entries, name) else None
  }

  lemma {:induction false} FindFirst(entries: seq<(Value, Value)>, name: string, i: nat)
    requires i < |entries| && entries[i].0 == Str(name)
    requires forall j :: 0 <= j < i ==> entries[j].0 != Str(name)
    ensures Find(entries, name) == Some(entries[i].1)
  {
    if i > 0 {
      assert forall j :: 0 <= j < i - 1 ==> entries[1..][j] == entries[j + 1];
      FindFirst(entries[1..], name, i - 1);
    }
  }

  lemma {:induction false} FindNone(entries: seq<(Value, Value)>, name: string)
    requires forall j :: 0 <= j < |entries| ==> entries[j].0 != Str(name)
    ensures Find(entries, name) == None
  {
    if entries != [] { FindNone(entries[1..], name); }
  }

  predicate AllDifferent(names: seq<string>) {
    forall i, j :: 0 <= i < j < |names| ==> names[i] != names[j]
  }

  /** A record with different names is read back by name. */
  lemma RecordAt(names: seq<string>, values: seq<Value>, i: nat, name: string)
    requires |names| == |values| && i < |names| && names[i] == name && AllDifferent(names)
    ensures At(Record(names, values), name) == Some(values[i])
  {
    FindFirst(Record(names, values).entries, name, i);
  }

  lemma RecordLacks(names: seq<string>, values: seq<Value>, name: string)
    requires |names| == |values| && name !in names
    ensures At(Record(names, values), name) == None
  {
    FindNone(Record(names, values).entries, name);
  }

  lemma NamesDiffer()
    ensures AllDifferent(SIGNATURE_FIELDS) && AllDifferent(SELECTION_FIELDS)
  {}

  lemma ShieldedNamesDiffer()
    ensures AllDifferent(SHIELDED_FIELDS)
  {}

  lemma TransactionNamesDiffer()
    ensures AllDifferent(TX_FIELDS)
  {}

  lemma SignedNamesDiffer()
    ensures AllDifferent(SIGNED_FIELDS)
  {}

  /** A signature by its five names. */
  lemma SignatureLayout(s: TransactionSignature)
    ensures
      var v := SignatureValue(s);
      && At(v, "transaction_id") == Some(BytesValue(s.transactionId)) && At(v, "env_id") == Some(BytesValue(s.envId))
      && At(v, "transaction_hash") == Some(BytesValue(s.transactionHash))
      && At(v, "signature") == Some(BytesValue(s.signature)) && At(v, "current_stake") == Some(Int(s.currentStake))
  {
    NamesDiffer();
    var names, values := SIGNATURE_FIELDS, SignatureValues(s);
    RecordAt(names, values, 0, "transaction_id");
    RecordAt(names, values, 1, "env_id");
    RecordAt(names, values, 2, "transaction_hash");
    RecordAt(names, values, 3, "signature");
    RecordAt(names, values, 4, "current_stake");
  }

  lemma {:induction false} FindConcat(a: seq<(Value, Value)>, b: seq<(Value, Value)>, name: string)
    ensures Find(a + b, name) == if Find(a, name).Some? then Find(a, name) else Find(b, name)
  {
    if a == [] {
      assert a + b == b;
    } else {
      assert (a + b)[1..] == a[1..] + b;
      FindConcat(a[1..], b, name);
    }
  }

  lemma RecordConcat(names: seq<string>, values: seq<Value>, more: seq<string>, others: seq<Value>)
    requires |names| == |values| && |more| == |others|
    ensures Record(names + more, values + others).entries
         == Record(names, values).entries + Record(more, others).entries
  {}

  lemma ConcatAt(names: seq<string>, values: seq<Value>, more: seq<string>, others: seq<Value>, name: string)
    requires |names| == |values| && |more| == |others|
    ensures At(Record(names + more, values + others), name)
         == var v := At(Record(names, values), name); if v.Some? then v else At(Record(more, others), name)
  {
    RecordConcat(names, values, more, others);
    FindConcat(Record(names, values).entries, Record(more, others).entries, name);
  }

  /** Optional fields behind others: the first is found if it is there, any other as if the first were not. */
  lemma OptionalAt(here: bool, name: string, x: Value, names: seq<string>, values: seq<Value>, sought: string)
    requires |names| == |values|
    ensures At(Record(Skipped(here, name) + names, Skipped(here, x) + values), sought)
         == if here && name == sought then Some(x) else At(Record(names, values), sought)
  {
    var one := Record(Skipped(here, name), Skipped(here, x)).entries;
    RecordConcat(Skipped(here, name), Skipped(here, x), names, values);
    FindConcat(one, Record(names, values).entries, sought);
    assert here ==> one == [(Str(name), x)];
    assert !here ==> one == [];
    if here && name == sought { FindFirst(one, sought, 0); } else { FindNone(one, sought); }
  }

  lemma OptionalLayout(t: Transaction, sought: string)
    ensures At(Record(TxOptionalNames(t), TxOptional(t)), sought)
         == match sought
            case "payload" => if t.payload == [] then None else Some(BytesValue(t.payload))
            case "gas_limit" => if t.gasLimit == 0 then None else Some(Int(t.gasLimit))
            case "result_data" => if t.resultData == [] then None else Some(BytesValue(t.resultData))
            case "selection" => if t.selection.None? then None else Some(SelectionValue(t.selection.value))
            case _ => None
  {
    var p, g, r, s := t.payload != [], t.gasLimit != 0, t.resultData != [], t.selection.Some?;
    var x := if s then SelectionValue(t.selection.value) else Nil;
    var none: seq<Value> := [];
    assert Skipped(s, "selection") == Skipped(s, "selection") + [] && Skipped(s, x) == Skipped(s, x) + none;
    OptionalAt(s, "selection", x, [], none, sought);
    RecordLacks([], none, sought);
    OptionalAt(r, "result_data", BytesValue(t.resultData), Skipped(s, "selection"), Skipped(s, x), sought);
    OptionalAt(g, "gas_limit", Int(t.gasLimit), Skipped(r, "result_data") + Skipped(s, "selection"),
               Skipped(r, BytesValue(t.resultData)) + Skipped(s, x), sought);
    OptionalAt(p, "payload", BytesValue(t.payload),
               Skipped(g, "gas_limit") + (Skipped(r, "result_data") + Skipped(s, "selection")),
               Skipped(g, Int(t.gasLimit)) + (Skipped(r, BytesValue(t.resultData)) + Skipped(s, x)), sought);
  }

  lemma FirstFields(t: Transaction)
    ensures
      var v := Record(TX_FIELDS, TxBase(t));
      && At(v, "id") == Some(Str(t.id)) && At(v, "action") == Some(Str(t.action))
      && At(v, "token_id") == Some(BytesValue(t.tokenId)) && At(v, "bid") == Some(BidValue(t.bid))
  {
    TransactionNamesDiffer();
    var names, values := TX_FIELDS, TxBase(t);
    RecordAt(names, values, 0, "id");
    RecordAt(names, values, 1, "action");
    RecordAt(names, values, 2, "token_id");
    RecordAt(names, values, 3, "bid");
  }

  lemma MiddleFields(t: Transaction)
    ensures
      var v := Record(TX_FIELDS, TxBase(t));
      && At(v, "sequence_number") == Some(Int(t.sequenceNumber)) && At(v, "sender") == Some(BytesValue(t.sender))
      && At(v, "receiver") == Some(BytesValue(t.receiver)) && At(v, "amount") == Some(OptionIntValue(t.amount))
  {
    TransactionNamesDiffer();
    var names, values := TX_FIELDS, TxBase(t);
    RecordAt(names, values, 4, "sequence_number");
    RecordAt(names, values, 5, "sender");
    RecordAt(names, values, 6, "receiver");
    RecordAt(names, values, 7, "amount");
  }

  lemma LastFields(t: Transaction)
    ensures
      var v := Record(TX_FIELDS, TxBase(t));
      && At(v, "timestamp") == Some(Int(t.timestamp)) && At(v, "result_hash") == Some(BytesValue(t.resultHash))
      && At(v, "sender_signature") == Some(BytesValue(t.senderSignature))
  {
    TransactionNamesDiffer();
    var names, values := TX_FIELDS, TxBase(t);
    RecordAt(names, values, 8, "timestamp");
    RecordAt(names, values, 9, "result_hash");
    RecordAt(names, values, 10, "sender_signature");
  }

  /** The eleven fields that are always there are found before the others. */
  lemma BaseFirst(t: Transaction, name: string)
    requires At(Record(TX_FIELDS, TxBase(t)), name).Some?
    ensures At(TransactionValue(t), name) == At(Record(TX_FIELDS, TxBase(t)), name)
  {
    ConcatAt(TX_FIELDS, TxBase(t), TxOptionalNames(t), TxOptional(t), name);
  }

  /** A transaction by its names: these fields are always there. */
  lemma TransactionLayout(t: Transaction)
    ensures
      var v := TransactionValue(t);
      && At(v, "id") == Some(Str(t.id)) && At(v, "action") == Some(Str(t.action))
      && At(v, "token_id") == Some(BytesValue(t.tokenId)) && At(v, "bid") == Some(BidValue(t.bid))
      && At(v, "sequence_number") == Some(Int(t.sequenceNumber)) && At(v, "sender") == Some(BytesValue(t.sender))
      && At(v, "receiver") == Some(BytesValue(t.receiver)) && At(v, "amount") == Some(OptionIntValue(t.amount))
      && At(v, "timestamp") == Some(Int(t.timestamp)) && At(v, "result_hash") == Some(BytesValue(t.resultHash))
      && At(v, "sender_signature") == Some(BytesValue(t.senderSignature))
  {
    FirstFields(t);
    MiddleFields(t);
    LastFields(t);
    BaseFirst(t, "id");
    BaseFirst(t, "action");
    BaseFirst(t, "token_id");
    BaseFirst(t, "bid");
    BaseFirst(t, "sequence_number");
    BaseFirst(t, "sender");
    BaseFirst(t, "receiver");
    BaseFirst(t, "amount");
    BaseFirst(t, "timestamp");
    BaseFirst(t, "result_hash");
    BaseFirst(t, "sender_signature");
  }

  /**
   The other four are there only when they are not at their default, so that a reader which takes the default for a
   missing field gets the transaction back. No other name occurs.
   */
  lemma SkippedLayout(t: Transaction, name: string)
    requires name !in TX_FIELDS
    ensures At(TransactionValue(t), name)
         == match name
            case "payload" => if t.payload == [] then None else Some(BytesValue(t.payload))
            case "gas_limit" => if t.gasLimit == 0 then None else Some(Int(t.gasLimit))
            case "result_data" => if t.resultData == [] then None else Some(BytesValue(t.resultData))
            case "selection" => if t.selection.None? then None else Some(SelectionValue(t.selection.value))
            case _ => None
  {
    ConcatAt(TX_FIELDS, TxBase(t), TxOptionalNames(t), TxOptional(t), name);
    RecordLacks(TX_FIELDS, TxBase(t), name);
    OptionalLayout(t, name);
  }

  lemma ShieldedLayout(s: ShieldedTransaction)
    ensures
      var v := ShieldedValue(s);
      && At(v, "id") == Some(Str(s.id)) && At(v, "action") == Some(Str(s.action))
      && At(v, "token_id") == Some(BytesValue(s.tokenId)) && At(v, "fee") == Some(Int(s.fee))
      && At(v, "spent_commitments") == Some(BytesListValue(s.spentCommitments))
      && At(v, "nullifiers") == Some(BytesListValue(s.nullifiers))
      && At(v, "commitments") == Some(BytesListValue(s.commitments))
      && At(v, "merkle_root") == Some(BytesValue(s.merkleRoot)) && At(v, "proof") == Some(BytesValue(s.proof))
      && At(v, "note_ciphertexts") == Some(BytesListValue(s.noteCiphertexts))
  {
    ShieldedNamesDiffer();
    var names, values := SHIELDED_FIELDS, ShieldedValues(s);
    RecordAt(names, values, 0, "id");
    RecordAt(names, values, 1, "action");
    RecordAt(names, values, 2, "token_id");
    RecordAt(names, values, 3, "spent_commitments");
    RecordAt(names, values, 4, "nullifiers");
    RecordAt(names, values, 5, "commitments");
    RecordAt(names, values, 6, "merkle_root");
    RecordAt(names, values, 7, "proof");
    RecordAt(names, values, 8, "note_ciphertexts");
    RecordAt(names, values, 9, "fee");
  }

  lemma SelectionLayout(s: SelectionRecord)
    ensures
      var v := SelectionValue(s);
      && At(v, "finalizer_public_key") == Some(BytesValue(s.finalizerPublicKey))
      && At(v, "epoch_number") == Some(Int(s.epochNumber)) && At(v, "salt") == Some(BytesValue(s.salt))
      && At(v, "sentinel_public_key") == Some(BytesValue(s.sentinelPublicKey))
      && At(v, "attestation") == Some(BytesValue(s.attestation))
  {
    NamesDiffer();
    var names, values := SELECTION_FIELDS, SelectionValues(s);
    RecordAt(names, values, 0, "finalizer_public_key");
    RecordAt(names, values, 1, "epoch_number");
    RecordAt(names, values, 2, "salt");
    RecordAt(names, values, 3, "sentinel_public_key");
    RecordAt(names, values, 4, "attestation");
  }

  lemma StakeFields(s: SignedTransaction, sig: TransactionSignature, sigs: Value)
    ensures
      var v := Record(SIGNED_FIELDS, SignedFields(s, sig, sigs));
      && At(v, "transaction_id") == Some(Str(s.transactionId))
      && At(v, "transaction") == Some(TransactionValue(s.transaction))
      && At(v, "total_stake") == Some(Int(s.totalStake)) && At(v, "total_voters") == Some(Int(s.totalVoters))
  {
    SignedNamesDiffer();
    var names, values := SIGNED_FIELDS, SignedFields(s, sig, sigs);
    RecordAt(names, values, 0, "transaction_id");
    RecordAt(names, values, 1, "transaction");
    RecordAt(names, values, 2, "total_stake");
    RecordAt(names, values, 3, "total_voters");
  }

  lemma LeaderFields(s: SignedTransaction, sig: TransactionSignature, sigs: Value)
    ensures
      var v := Record(SIGNED_FIELDS, SignedFields(s, sig, sigs));
      && At(v, "leader_address") == Some(BytesValue(s.leaderAddress))
      && At(v, "leader_stake") == Some(Int(s.leaderStake)) && At(v, "leader_hash") == Some(BytesValue(s.leaderHash))
      && At(v, "finalizer_addr") == Some(BytesValue(s.finalizerAddr))
  {
    SignedNamesDiffer();
    var names, values := SIGNED_FIELDS, SignedFields(s, sig, sigs);
    RecordAt(names, values, 4, "leader_address");
    RecordAt(names, values, 5, "leader_stake");
    RecordAt(names, values, 6, "leader_hash");
    RecordAt(names, values, 7, "finalizer_addr");
  }

  lemma SignatureFields(s: SignedTransaction, sig: TransactionSignature, sigs: Value)
    ensures
      var v := Record(SIGNED_FIELDS, SignedFields(s, sig, sigs));
      && At(v, "finalizer_sig") == Some(SignatureValue(sig)) && At(v, "executor_sigs") == Some(sigs)
      && At(v, "proposer_key") == Some(BytesValue(s.proposerKey))
  {
    SignedNamesDiffer();
    var names, values := SIGNED_FIELDS, SignedFields(s, sig, sigs);
    RecordAt(names, values, 8, "finalizer_sig");
    RecordAt(names, values, 9, "executor_sigs");
    RecordAt(names, values, 10, "proposer_key");
  }

  /** The eleven fields of a signed transaction, with the signature in the slot and the map that are given. */
  lemma SignedLayout(s: SignedTransaction, sig: TransactionSignature, sigs: Value)
    ensures
      var v := Record(SIGNED_FIELDS, SignedFields(s, sig, sigs));
      && At(v, "transaction_id") == Some(Str(s.transactionId))
      && At(v, "transaction") == Some(TransactionValue(s.transaction))
      && At(v, "total_stake") == Some(Int(s.totalStake)) && At(v, "total_voters") == Some(Int(s.totalVoters))
      && At(v, "leader_address") == Some(BytesValue(s.leaderAddress))
      && At(v, "leader_stake") == Some(Int(s.leaderStake)) && At(v, "leader_hash") == Some(BytesValue(s.leaderHash))
      && At(v, "finalizer_addr") == Some(BytesValue(s.finalizerAddr))
      && At(v, "finalizer_sig") == Some(SignatureValue(sig)) && At(v, "executor_sigs") == Some(sigs)
      && At(v, "proposer_key") == Some(BytesValue(s.proposerKey))
  {
    StakeFields(s, sig, sigs);
    LeaderFields(s, sig, sigs);
    SignatureFields(s, sig, sigs);
  }

  /**
   What is hashed into a block: the signed transaction as one record, then the shielded payload as another, if there is
   one.
   */
  lemma CanonicalLayout(s: SignedTransaction)
    ensures
      var vs := CanonicalSignedValues(s);
      && |vs| == (if s.shielded.Some? then 2 else 1)
      && At(vs[0], "finalizer_sig") == Some(SignatureValue(s.finalizerSig))
      && At(vs[0], "transaction") == Some(TransactionValue(s.transaction)) && At(vs[0], "shielded") == None
      && (s.shielded.Some? ==> vs[1] == ShieldedValue(s.shielded.value))
  {
    var values := SignedValues(s, s.finalizerSig);
    SignedLayout(s, s.finalizerSig, SignatureMapValue(s.executorSigs));
    RecordLacks(SIGNED_FIELDS, values, "shielded");
  }

  /** What the finalizer signs: the same fields with a blank signature in the slot, and the shielded payload inside. */
  lemma CarrierLayout(s: SignedTransaction, name: string)
    ensures
      var sigs := SignatureMapValue(s.executorSigs);
      var signed := Record(SIGNED_FIELDS, SignedFields(s, PlaceholderSig(s.transaction), sigs));
      At(CarrierValue(s), name)
      == if name in SIGNED_FIELDS then At(signed, name)
         else if name != "shielded" then None
         else if s.shielded.None? then Some(Nil) else Some(ShieldedValue(s.shielded.value))
    ensures
      var blank := SignatureValue(PlaceholderSig(s.transaction));
      && At(CarrierValue(s), "finalizer_sig") == Some(blank) && At(blank, "signature") == Some(BytesValue([]))
      && At(blank, "transaction_hash") == Some(BytesValue([]))
  {
    var sigs, last := SignatureMapValue(s.executorSigs), [OptionShieldedValue(s.shielded)];
    var fields := SignedFields(s, PlaceholderSig(s.transaction), sigs);
    ConcatAt(SIGNED_FIELDS, fields, ["shielded"], last, name);
    ConcatAt(SIGNED_FIELDS, fields, ["shielded"], last, "finalizer_sig");
    SignedLayout(s, PlaceholderSig(s.transaction), sigs);
    SignatureLayout(PlaceholderSig(s.transaction));
    if name in SIGNED_FIELDS {
      NamedIn(SIGNED_FIELDS, fields, name);
    } else {
      RecordLacks(SIGNED_FIELDS, fields, name);
      if name == "shielded" { RecordAt(["shielded"], last, 0, name); } else { RecordLacks(["shielded"], last, name); }
    }
  }

  lemma {:induction false} NamedIn(names: seq<string>, values: seq<Value>, name: string)
    requires |names| == |values| && name in names
    ensures At(Record(names, values), name).Some?
  {
    var one := [values[0]];
    assert names == [names[0]] + names[1..] && values == one + values[1..];
    ConcatAt([names[0]], one, names[1..], values[1..], name);
    if names[0] == name { RecordAt([name], one, 0, name); } else { NamedIn(names[1..], values[1..], name); }
  }
}
