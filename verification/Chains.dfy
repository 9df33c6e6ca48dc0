/** One token's chain of blocks: the full walk, the O(1) tip, and validated appends. */
module Chains {
  import opened Primitives
  import opened Encoding
  import opened Blocks

  /** Every block hashes to its claimed hash, and each links to the one before it. */
  predicate ValidChain(h: Hasher, c: seq<Block>) {
    && (forall i :: 0 <= i < |c| ==> WellHashed(h, c[i]))
    && (forall i :: 0 < i < |c| ==> c[i].previousHash == c[i - 1].currentHash)
  }

  /** `cached_tip`: the last block's stored hash, or empty for a chain without blocks. */
  function CachedTip(c: seq<Block>): Bytes {
    if c == [] then [] else c[|c| - 1].currentHash
  }

  datatype ChainState = ChainState(isValid: bool, lastHashIn: Bytes)

  datatype AppendOutcome = LinkageMismatch | InvalidHash | Appended

  /** What the walk over a whole chain reports. */
  function WalkState(h: Hasher, c: seq<Block>): ChainState {
    if ValidChain(h, c) then ChainState(true, CachedTip(c)) else ChainState(false, [])
  }

  /** A block the chain's tip admits: it links to the tip and hashes to its claimed hash. */
  predicate Extends(h: Hasher, c: seq<Block>, b: Block) {
    b.previousHash == CachedTip(c) && WellHashed(h, b)
  }

  /** The block passes the test that starts from the full walk's report. */
  predicate WalkAccepts(h: Hasher, c: seq<Block>, b: Block) {
    var state := WalkState(h, c);
    state.isValid && b.previousHash == state.lastHashIn && WellHashed(h, b)
  }

  class Blockchain {
    var chain: seq<Block>

    constructor ()
      ensures chain == []
    {
      chain := [];
    }

    method AddBlock(b: Block)
      modifies this
      ensures chain == old(chain) + [b]
    {
      chain := chain + [b];
    }

    /** `append_validated_block`: one hash, whatever the length of the chain. */
    method AppendValidatedBlock(h: Hasher, b: Block) returns (r: AppendOutcome)
      modifies this
      ensures r == LinkageMismatch <==> b.previousHash != CachedTip(old(chain))
      ensures r == Appended <==> Extends(h, old(chain), b)
      ensures chain == if r == Appended then old(chain) + [b] else old(chain)
    {
      var tip := CachedTip(chain);
      var linkageOk := if tip == [] then b.previousHash == [] else tip == b.previousHash;
      if !linkageOk { return LinkageMismatch; }
      var computed := h(b);
      if computed.None? { return InvalidHash; }
      if computed.value != b.currentHash { return InvalidHash; }
      chain := chain + [b];
      r := Appended;
    }

    /** `remove_block`: pop the tip. */
    method RemoveBlock() returns (r: Option<Block>)
      modifies this
      ensures old(chain) == [] ==> r == None && chain == []
      ensures old(chain) != [] ==> r.Some? && old(chain) == chain + [r.value]
    {
      if chain == [] { return None; }
      r := Some(chain[|chain| - 1]);
      chain := chain[..|chain| - 1];
    }

    /** `remove_oldest`: prune at the genesis side. */
    method RemoveOldest() returns (r: Option<Block>)
      modifies this
      ensures old(chain) == [] ==> r == None && chain == []
      ensures old(chain) != [] ==> r.Some? && old(chain) == [r.value] + chain
    {
      if chain == [] { return None; }
      r := Some(chain[0]);
      chain := chain[1..];
    }

    /** `get_current_chain_state`: re-hash every block and compare every link. */
    method GetCurrentChainState(h: Hasher) returns (r: ChainState)
      ensures r == WalkState(h, chain)
    {
      if chain == [] { return ChainState(true, []); }
      var prevBlock := chain[0];
      var prevHash := h(prevBlock);
      if prevHash.None? {
        assert !WellHashed(h, chain[0]);
        return ChainState(false, []);
      }
      var valid := prevBlock.currentHash == prevHash.value;
      for i := 0 to |chain|
        invariant prevBlock == chain[if i < |chain| then i else |chain| - 1]
        invariant valid <==> ValidChain(h, chain[..if i < |chain| then i + 1 else i])
        invariant i < |chain|
      {
        if !valid {
          PrefixInvalid(h, chain, i + 1);
          return ChainState(false, []);
        } else if |chain| == i + 1 {
          assert chain[..i + 1] == chain;
          return ChainState(true, prevBlock.currentHash);
        }
        var nextHash := h(chain[i + 1]);
        if nextHash.None? {
          assert !WellHashed(h, chain[i + 1]);
          return ChainState(false, []);
        }
        valid := chain[i + 1].previousHash == prevBlock.currentHash && nextHash.value == chain[i + 1].currentHash;
        ExtendPrefix(h, chain, i + 1);
        prevBlock := chain[i + 1];
      }
      r := ChainState(false, []);
    }

    /** `validate_next_block`: the check that pays for the whole walk. */
    method ValidateNextBlock(h: Hasher, b: Block) returns (ok: bool)
      ensures ok <==> WalkAccepts(h, chain, b)
    {
      var state := GetCurrentChainState(h);
      if !state.isValid { return false; }
      var linkageOk := if state.lastHashIn == [] then b.previousHash == [] else state.lastHashIn == b.previousHash;
      var computed := h(b);
      var hashOk := computed.Some? && computed.value == b.currentHash;
      ok := linkageOk && hashOk;
    }

    /** `set_finality_status`: mark the first block with the given hash. */
    method SetFinalityStatus(hash: Bytes, status: FinalityStatus) returns (ok: bool)
      modifies this
      ensures chain == Mark(old(chain), hash, status)
      ensures ok <==> exists i :: 0 <= i < |old(chain)| && old(chain)[i].currentHash == hash
    {
      for i := 0 to |chain|
        invariant chain == old(chain)
        invariant forall j :: 0 <= j < i ==> chain[j].currentHash != hash
      {
        if chain[i].currentHash == hash {
          MarkAt(chain, hash, status, i);
          chain := chain[i := chain[i].(finalityStatus := status)];
          return true;
        }
      }
      MarkNone(chain, hash, status);
      return false;
    }
  }

  /** A chain with the first block of the given hash marked. */
  function Mark(c: seq<Block>, hash: Bytes, status: FinalityStatus): (r: seq<Block>) {
    if c == [] then []
    else if c[0].currentHash == hash then [c[0].(finalityStatus := status)] + c[1..]
    else [c[0]] + Mark(c[1..], hash, status)
  }

  lemma {:induction false} MarkAt(c: seq<Block>, hash: Bytes, status: FinalityStatus, i: nat)
    requires i < |c| && c[i].currentHash == hash
    requires forall j :: 0 <= j < i ==> c[j].currentHash != hash
    ensures Mark(c, hash, status) == c[i := c[i].(finalityStatus := status)]
  {
    if i > 0 { MarkAt(c[1..], hash, status, i - 1); }
  }

  lemma {:induction false} MarkNone(c: seq<Block>, hash: Bytes, status: FinalityStatus)
    requires forall j :: 0 <= j < |c| ==> c[j].currentHash != hash
    ensures Mark(c, hash, status) == c
  {
    if c != [] { MarkNone(c[1..], hash, status); }
  }

  lemma PrefixInvalid(h: Hasher, c: seq<Block>, n: nat)
    requires n <= |c| && !ValidChain(h, c[..n])
    ensures !ValidChain(h, c)
  {
  }

  lemma ExtendPrefix(h: Hasher, c: seq<Block>, n: nat)
    requires 0 < n < |c| && ValidChain(h, c[..n])
    ensures ValidChain(h, c[..n + 1]) <==> c[n].previousHash == c[n - 1].currentHash && WellHashed(h, c[n])
  {
  }

  // ----- what every operation on the chain keeps -----

  lemma AppendKeepsValid(h: Hasher, c: seq<Block>, b: Block)
    requires ValidChain(h, c) && Extends(h, c, b)
    ensures ValidChain(h, c + [b])
  {
  }

  lemma SliceKeepsValid(h: Hasher, c: seq<Block>, lo: nat, hi: nat)
    requires ValidChain(h, c) && lo <= hi <= |c|
    ensures ValidChain(h, c[lo..hi])
  {
    var d := c[lo..hi];
    forall i | 0 < i < |d| ensures d[i].previousHash == d[i - 1].currentHash {
      assert c[lo + i].previousHash == c[lo + i - 1].currentHash;
    }
  }

  lemma {:induction false} MarkKeepsHashes(c: seq<Block>, hash: Bytes, status: FinalityStatus)
    ensures |Mark(c, hash, status)| == |c|
    ensures forall i :: 0 <= i < |c| ==> SameContent(Mark(c, hash, status)[i], c[i])
  {
    if c != [] { MarkKeepsHashes(c[1..], hash, status); }
  }

  lemma MarkKeepsValid(h: Hasher, c: seq<Block>, hash: Bytes, status: FinalityStatus)
    requires ValidChain(h, c)
    ensures ValidChain(h, Mark(c, hash, status))
  {
    var d := Mark(c, hash, status);
    MarkKeepsHashes(c, hash, status);
    forall i | 0 <= i < |d| ensures WellHashed(h, d[i]) {
      assert SameHashed(d[i], c[i]);
    }
  }

  // ----- a tip determines its chain -----

  /** The hash tells the two blocks apart unless they have the same content. */
  predicate Tells(h: Hasher, x: Block, y: Block) {
    WellHashed(h, x) && WellHashed(h, y) && x.currentHash == y.currentHash && |x.previousHash| == |y.previousHash|
    ==> SameContent(x, y)
  }

  lemma {:induction false} ChainsAgreeAt(h: Hasher, a: seq<Block>, b: seq<Block>, i: nat)
    requires ValidChain(h, a) && ValidChain(h, b)
    requires i < |a| == |b| && CachedTip(a) == CachedTip(b)
    requires |a[0].previousHash| == |b[0].previousHash|
    requires forall j :: 0 <= j < |a| ==> Tells(h, a[j], b[j])
    ensures SameContent(a[i], b[i])
    decreases |a| - i
  {
    if i + 1 < |a| {
      ChainsAgreeAt(h, a, b, i + 1);
      assert a[i + 1].previousHash == a[i].currentHash && b[i + 1].previousHash == b[i].currentHash;
    }
    if i > 0 {
      assert WellHashed(h, a[i - 1]) && WellHashed(h, b[i - 1]);
      assert |a[i].previousHash| == DIGEST_LEN == |b[i].previousHash|;
    }
    assert Tells(h, a[i], b[i]);
  }

  ghost predicate NoChainCollision(hs: Hashing, a: seq<Block>, b: seq<Block>) {
    |a| == |b| && forall j :: 0 <= j < |a| ==> NoBlockCollision(hs, a[j], b[j])
  }

  predicate SameChain(a: seq<Block>, b: seq<Block>) {
    |a| == |b| && forall i :: 0 <= i < |a| ==> SameContent(a[i], b[i])
  }

  lemma HashTells(hs: Hashing, h: Hasher, x: Block, y: Block)
    requires SelfDelimiting(hs.enc) && Computes(hs, h) && NoBlockCollision(hs, x, y)
    ensures Tells(h, x, y)
  {
    if WellHashed(h, x) && WellHashed(h, y) && x.currentHash == y.currentHash
       && |x.previousHash| == |y.previousHash| {
      BlockHashBinds(hs, x, y);
    }
  }

  /**
   The tip hash commits to the whole stored chain: two valid chains of equal length and equal tip agree block
   for block on everything but finality marks. Only the oldest `previous_hash` needs its length given.
   */
  lemma ChainsAgree(hs: Hashing, h: Hasher, a: seq<Block>, b: seq<Block>)
    requires ValidChain(h, a) && ValidChain(h, b)
    requires |a| == |b| && CachedTip(a) == CachedTip(b)
    requires a != [] ==> |a[0].previousHash| == |b[0].previousHash|
    requires NoChainCollision(hs, a, b)
    requires SelfDelimiting(hs.enc) && Computes(hs, h)
    ensures SameChain(a, b)
  {
    forall j | 0 <= j < |a| ensures Tells(h, a[j], b[j]) {
      HashTells(hs, h, a[j], b[j]);
    }
    forall i | 0 <= i < |a| ensures SameContent(a[i], b[i]) {
      ChainsAgreeAt(h, a, b, i);
    }
  }
}
