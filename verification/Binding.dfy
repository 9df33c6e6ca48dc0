/** The binding results for the MessagePack format itself, with no assumption left about the encoder. */
module Binding {
  import opened Primitives
  import opened MessagePack
  import opened Transactions
  import opened FinalizerDigest
  import opened Blocks
  import opened Chains

  /** Two valid chains of equal length and tip are the same chain. */
  lemma ChainsAgreeInFormat(sha: HashFn, h: Hasher, a: seq<Block>, b: seq<Block>)
    requires ValidChain(h, a) && ValidChain(h, b)
    requires |a| == |b| && CachedTip(a) == CachedTip(b)
    requires a != [] ==> |a[0].previousHash| == |b[0].previousHash|
    requires NoChainCollision(Hashing(sha, Encode), a, b)
    requires Computes(Hashing(sha, Encode), h)
    ensures SameChain(a, b)
  {
    FormatSelfDelimiting();
    ChainsAgree(Hashing(sha, Encode), h, a, b);
  }

  /** Two payloads that verify under one claimed hash are the same payload. */
  lemma PayloadsAgreeInFormat(sha: HashFn, check: SignatureCheck, a: SignedTransaction, keyA: Bytes,
                              b: SignedTransaction, keyB: Bytes)
    requires Verifies(sha, Encode, check, a, keyA) && Verifies(sha, Encode, check, b, keyB)
    requires a.finalizerSig.transactionHash == b.finalizerSig.transactionHash
    requires NoPayloadCollision(sha, Encode, a, b)
    ensures a == b.(finalizerSig := a.finalizerSig)
  {
    FormatSelfDelimiting();
    SameClaimSamePayload(sha, Encode, check, a, keyA, b, keyB);
  }
}
