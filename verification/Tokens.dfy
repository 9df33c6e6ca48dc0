/** Tokens: a bounded window of blocks per token, and the commit that advances it. */
module Tokens {
  import opened Primitives
  import opened Blocks
  import opened Chains

  datatype TokenState = TokenState(
    id: Bytes,
    metadata: map<string, string>,
    chain: seq<Block>,
    assetData: Option<Bytes>,
    assetHash: Bytes,
    securityLevel: nat,
    isSelfVerified: bool,
    isNonTransferable: bool,
    blockValidationSpecName: string,
    environmentId: string,
    sequenceNumber: nat)

  /** What a registered validator spec answers, its errors included. */
  datatype SpecAnswer =
    | SpecValid
    | SpecInvalid(reasons: seq<string>)
    | SpecValidationError(errorReasons: seq<string>)
    | SpecOtherError

  /** A validator spec may look at the block and at the whole token; nothing is assumed about its answers. */
  type ValidatorSpec = (Block, TokenState) -> SpecAnswer

  datatype Environment = Environment(environmentId: string, validators: map<string, ValidatorSpec>)

  datatype BlockValidationError =
    | ChainLinkage
    | NoValidatorRegistered
    | InvalidBlock(reasons: seq<string>)

  datatype BlockCommitError = HashError | ValidationError(error: BlockValidationError)

  datatype TokenCommitResult = TokenCommitResult(tokenId: Bytes, newChainLength: nat, sequenceNumber: nat)

  datatype CommitRequest = CommitRequest(block: Block, isArchiver: bool, rollbackTipHash: Option<Bytes>)

  // ----- validate_block -----

  function ValidatorName(t: TokenState): string {
    if t.blockValidationSpecName == "" then
      if "validator_name" in t.metadata then t.metadata["validator_name"] else ""
    else t.blockValidationSpecName
  }

  /** The verdict of the registered spec, failing closed when there is none. */
  function SpecVerdict(env: Environment, t: TokenState, b: Block): Option<BlockValidationError> {
    var name := ValidatorName(t);
    if name !in env.validators then Some(NoValidatorRegistered)
    else
      match env.validators[name](b, t)
      case SpecValid => None
      case SpecInvalid(reasons) => Some(InvalidBlock(reasons))
      case SpecValidationError(reasons) => Some(InvalidBlock(reasons))
      case SpecOtherError => Some(InvalidBlock([]))
  }

  /** `None` when the block may be appended to the token. */
  function Verdict(h: Hasher, env: Environment, t: TokenState, b: Block): Option<BlockValidationError> {
    if ValidChain(h, t.chain) && Extends(h, t.chain, b) then SpecVerdict(env, t, b) else Some(ChainLinkage)
  }

  // ----- commit_block, as a function of the whole token -----

  /** The named loser is the current tip. */
  predicate RollsBack(c: seq<Block>, loser: Option<Bytes>) {
    c != [] && loser == Some(CachedTip(c))
  }

  function WithoutLoser(c: seq<Block>, loser: Option<Bytes>): seq<Block> {
    if RollsBack(c, loser) then c[..|c| - 1] else c
  }

  /** The oldest block goes exactly when the chain is as long as the security level. */
  function Trimmed(c: seq<Block>, securityLevel: nat, isArchiver: bool): seq<Block> {
    if !isArchiver && securityLevel == |c| && c != [] then c[1..] else c
  }

  /** The block as it is stored: with its hash filled in. */
  function Stamped(h: Hasher, b: Block): Block {
    match h(b) case None => b case Some(x) => b.(currentHash := x)
  }

  /** A rejected commit leaves the token alone; an accepted one replaces the loser, trims and appends. */
  function Commit(h: Hasher, env: Environment, t: TokenState, req: CommitRequest)
    : (TokenState, Result<TokenCommitResult, BlockCommitError>)
  {
    if h(req.block).None? then (t, Failure(HashError))
    else
      var b := Stamped(h, req.block);
      var base := WithoutLoser(t.chain, req.rollbackTipHash);
      match Verdict(h, env, t.(chain := base), b)
      case Some(e) => (t, Failure(ValidationError(e)))
      case None =>
        var t' := t.(chain := Trimmed(base, t.securityLevel, req.isArchiver) + [b],
                     sequenceNumber := t.sequenceNumber + 1);
        (t', Success(TokenCommitResult(t.id, |t'.chain|, t'.sequenceNumber)))
  }

  predicate Accepts(h: Hasher, env: Environment, t: TokenState, req: CommitRequest) {
    Commit(h, env, t, req).1.Success?
  }

  class Token {
    var blockchain: Blockchain
    var id: Bytes
    var metadata: map<string, string>
    var assetData: Option<Bytes>
    var assetHash: Bytes
    var securityLevel: nat
    var isSelfVerified: bool
    var isNonTransferable: bool
    var blockValidationSpecName: string
    var environmentId: string
    var sequenceNumber: nat

    /** The token's value, as `clone` copies it. */
    function View(): TokenState
      reads this, blockchain
    {
      TokenState(id, metadata, blockchain.chain, assetData, assetHash, securityLevel, isSelfVerified,
                 isNonTransferable, blockValidationSpecName, environmentId, sequenceNumber)
    }

    /** A token object holding the given value. */
    constructor (t: TokenState)
      ensures View() == t && fresh(blockchain)
    {
      id, metadata, assetData, assetHash := t.id, t.metadata, t.assetData, t.assetHash;
      securityLevel, isSelfVerified, isNonTransferable := t.securityLevel, t.isSelfVerified, t.isNonTransferable;
      blockValidationSpecName, environmentId := t.blockValidationSpecName, t.environmentId;
      sequenceNumber := t.sequenceNumber;
      blockchain := new Blockchain();
      new;
      blockchain.chain := t.chain;
    }

    /** `validate_block`. */
    method ValidateBlock(h: Hasher, env: Environment, b: Block) returns (r: Option<BlockValidationError>)
      ensures r == Verdict(h, env, View(), b)
    {
      var linked := blockchain.ValidateNextBlock(h, b);
      if !linked { return Some(ChainLinkage); }
      r := SpecVerdict(env, View(), b);
    }

    /** Pop the tip when it is the named loser, remembering it for a possible restore. */
    method RollBack(loser: Option<Bytes>) returns (removed: Option<Block>)
      modifies blockchain
      ensures blockchain.chain == WithoutLoser(old(blockchain.chain), loser)
      ensures old(blockchain.chain) == if removed.Some? then blockchain.chain + [removed.value] else blockchain.chain
    {
      removed := None;
      if loser.Some? && CachedTip(blockchain.chain) == loser.value {
        removed := blockchain.RemoveBlock();
      }
    }

    /** Trim at the security level, append, count. */
    method Store(block: Block, isArchiver: bool)
      modifies this`sequenceNumber, blockchain
      ensures blockchain.chain == Trimmed(old(blockchain.chain), securityLevel, isArchiver) + [block]
      ensures sequenceNumber == old(sequenceNumber) + 1
    {
      if !isArchiver && securityLevel == |blockchain.chain| {
        var _ := blockchain.RemoveOldest();
      }
      blockchain.AddBlock(block);
      sequenceNumber := sequenceNumber + 1;
    }

    /**
     `commit_block`: pop a losing tip, validate, put it back on rejection; otherwise trim, append and count.
     The steps in place amount to `Commit`, and a rejection restores the token exactly.
     */
    method CommitBlock(h: Hasher, env: Environment, req: CommitRequest)
      returns (r: Result<TokenCommitResult, BlockCommitError>)
      modifies this`sequenceNumber, blockchain
      ensures (View(), r) == Commit(h, env, old(View()), req)
      ensures r.Failure? ==> View() == old(View())
    {
      var computed := h(req.block);
      if computed.None? { return Failure(HashError); }
      var block := req.block.(currentHash := computed.value);
      var removed := RollBack(req.rollbackTipHash);
      var verdict := ValidateBlock(h, env, block);
      if verdict.Some? {
        if removed.Some? { blockchain.AddBlock(removed.value); }
        return Failure(ValidationError(verdict.value));
      }
      Store(block, req.isArchiver);
      r := Success(TokenCommitResult(id, |blockchain.chain|, sequenceNumber));
    }
  }
}
