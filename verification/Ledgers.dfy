/** What whole runs of commits keep: the window, the unbounded history behind it, and when they agree. */
module Ledgers {
  import opened Primitives
  import opened Blocks
  import opened Chains
  import opened Tokens

  /** A token, every block that still counts since genesis, and the number of commits reported successful. */
  datatype Ledger = Ledger(token: TokenState, history: seq<Block>, commits: nat)

  /** One commit. A replaced loser leaves the history; a rejected block never enters it. */
  function Step(h: Hasher, env: Environment, l: Ledger, req: CommitRequest): Ledger {
    var (t, r) := Commit(h, env, l.token, req);
    if r.Failure? then Ledger(t, l.history, l.commits)
    else
      Ledger(t, WithoutTip(l.history, RollsBack(l.token.chain, req.rollbackTipHash)) + [Stamped(h, req.block)],
             l.commits + 1)
  }

  function Run(h: Hasher, env: Environment, l: Ledger, reqs: seq<CommitRequest>): Ledger {
    if reqs == [] then l
    else Step(h, env, Run(h, env, l, reqs[..|reqs| - 1]), reqs[|reqs| - 1])
  }

  predicate NoArchiver(reqs: seq<CommitRequest>) {
    forall i :: 0 <= i < |reqs| ==> !reqs[i].isArchiver
  }

  /** A token without blocks and without commits. */
  predicate Fresh(l: Ledger) {
    l.token.chain == [] && l.token.sequenceNumber == 0 && l.history == [] && l.commits == 0
  }

  /** How many of `n` blocks a window at level `s` holds. Level 0 is never equal to a length that trims. */
  function WindowSize(n: nat, s: nat): (k: nat)
    ensures k <= n
  {
    if s != 0 && s < n then s else n
  }

  function Window(history: seq<Block>, s: nat): seq<Block> {
    history[|history| - WindowSize(|history|, s)..]
  }

  /** Hash-linked all the way down to a block with an empty `previous_hash`. */
  predicate LinkedFromGenesis(h: Hasher, c: seq<Block>) {
    ValidChain(h, c) && (c != [] ==> c[0].previousHash == [])
  }

  /** The window is the end of the history and the counters agree. */
  predicate Windowed(h: Hasher, l: Ledger) {
    && l.token.chain == Window(l.history, l.token.securityLevel)
    && ValidChain(h, l.token.chain)
    && l.token.sequenceNumber == l.commits
  }

  lemma StampedHashes(h: Hasher, b: Block)
    requires h(b).Some?
    ensures WellHashed(h, Stamped(h, b)) && |Stamped(h, b).currentHash| == DIGEST_LEN
  {
    assert SameHashed(Stamped(h, b), b);
  }

  /** Exactly what an accepted commit does to the stored chain. */
  lemma AcceptedChain(h: Hasher, env: Environment, t: TokenState, req: CommitRequest)
    requires Accepts(h, env, t, req)
    ensures
      var base := WithoutLoser(t.chain, req.rollbackTipHash);
      && ValidChain(h, base) && Extends(h, base, Stamped(h, req.block))
      && Commit(h, env, t, req).0.chain == Trimmed(base, t.securityLevel, req.isArchiver) + [Stamped(h, req.block)]
      && Commit(h, env, t, req).0.securityLevel == t.securityLevel
      && Commit(h, env, t, req).0.sequenceNumber == t.sequenceNumber + 1
  {
  }

  function WithoutTip<T>(s: seq<T>, drop: bool): seq<T> {
    if drop && s != [] then s[..|s| - 1] else s
  }

  /** Dropping the tip, trimming and appending slides the window along the history. */
  lemma WindowSlides(history: seq<Block>, s: nat, rolled: bool, b: Block)
    requires rolled ==> Window(history, s) != []
    ensures Trimmed(WithoutTip(Window(history, s), rolled), s, false) + [b]
         == Window(WithoutTip(history, rolled) + [b], s)
  {
  }

  lemma TrimKeepsValid(h: Hasher, base: seq<Block>, s: nat, isArchiver: bool, b: Block)
    requires ValidChain(h, base) && Extends(h, base, b)
    ensures ValidChain(h, Trimmed(base, s, isArchiver) + [b])
  {
    var trimmed := Trimmed(base, s, isArchiver);
    SliceKeepsValid(h, base, |base| - |trimmed|, |base|);
    assert trimmed == base[|base| - |trimmed|..|base|];
    if trimmed != [] { AppendKeepsValid(h, trimmed, b); }
  }

  /** Non-archiver commits keep the window the end of the history, at every security level. */
  lemma StepKeepsWindow(h: Hasher, env: Environment, l: Ledger, req: CommitRequest)
    requires Windowed(h, l) && !req.isArchiver
    ensures Windowed(h, Step(h, env, l, req))
    ensures Step(h, env, l, req).token.securityLevel == l.token.securityLevel
  {
    if Accepts(h, env, l.token, req) {
      AcceptedChain(h, env, l.token, req);
      var b := Stamped(h, req.block);
      var rolled := RollsBack(l.token.chain, req.rollbackTipHash);
      TrimKeepsValid(h, WithoutLoser(l.token.chain, req.rollbackTipHash), l.token.securityLevel, false, b);
      WindowSlides(l.history, l.token.securityLevel, rolled, b);
    }
  }

  /** The oldest block of the history is a genesis. */
  predicate Rooted(history: seq<Block>) {
    history != [] ==> history[0].previousHash == []
  }

  /** The commit is accepted after it dropped the one block of a window that had more history below it. */
  predicate CutsOff(h: Hasher, env: Environment, l: Ledger, req: CommitRequest) {
    && Accepts(h, env, l.token, req) && l.token.securityLevel == 1
    && RollsBack(l.token.chain, req.rollbackTipHash) && |l.history| > 1
  }

  /** An accepted block continues the history it is put on, unless the window was emptied above that history. */
  lemma AppendLinksExactly(h: Hasher, kept: seq<Block>, base: seq<Block>, b: Block)
    requires Rooted(kept) && Extends(h, base, b) && ValidChain(h, base)
    requires base == [] || (kept != [] && CachedTip(base) == CachedTip(kept))
    ensures LinkedFromGenesis(h, kept + [b]) <==> LinkedFromGenesis(h, kept) && (base == [] ==> kept == [])
  {
    if LinkedFromGenesis(h, kept) && (base == [] ==> kept == []) { AppendKeepsValid(h, kept, b); }
    if LinkedFromGenesis(h, kept + [b]) {
      SliceKeepsValid(h, kept + [b], 0, |kept|);
      assert kept == (kept + [b])[0..|kept|];
      if kept != [] {
        assert (kept + [b])[|kept|].previousHash == (kept + [b])[|kept| - 1].currentHash;
        assert WellHashed(h, (kept + [b])[|kept| - 1]);
      }
    }
  }

  /** Dropping the tip changes nothing about linkage while the link below it is in the window. */
  lemma TipIsLinked(h: Hasher, history: seq<Block>, s: nat)
    requires Rooted(history) && ValidChain(h, Window(history, s)) && history != []
    requires s != 1 || |history| == 1
    ensures LinkedFromGenesis(h, history) <==> LinkedFromGenesis(h, history[..|history| - 1])
  {
    var n, w := |history|, Window(history, s);
    var kept := history[..n - 1];
    if LinkedFromGenesis(h, history) {
      SliceKeepsValid(h, history, 0, n - 1);
      assert kept == history[0..n - 1];
    }
    if LinkedFromGenesis(h, kept) {
      assert w[|w| - 1] == history[n - 1] && WellHashed(h, w[|w| - 1]);
      if n > 1 { assert w[|w| - 2] == history[n - 2] && w[|w| - 1].previousHash == w[|w| - 2].currentHash; }
      assert history == kept + [history[n - 1]];
      AppendKeepsValid(h, kept, history[n - 1]);
    }
  }

  /** The same for a block put on what a window keeps of its history. */
  lemma HistoryLinksExactly(h: Hasher, history: seq<Block>, s: nat, rolled: bool, b: Block)
    requires Rooted(history) && ValidChain(h, Window(history, s)) && (rolled ==> history != [])
    requires Extends(h, WithoutTip(Window(history, s), rolled), b)
    ensures LinkedFromGenesis(h, WithoutTip(history, rolled) + [b])
       <==> LinkedFromGenesis(h, history) && !(s == 1 && rolled && |history| > 1)
    ensures Rooted(WithoutTip(history, rolled) + [b])
  {
    var chain := Window(history, s);
    var base, kept := WithoutTip(chain, rolled), WithoutTip(history, rolled);
    SliceKeepsValid(h, chain, 0, |base|);
    assert base == chain[0..|base|];
    assert base != [] ==> CachedTip(base) == CachedTip(kept);
    AppendLinksExactly(h, kept, base, b);
    if rolled && (s != 1 || |history| == 1) { TipIsLinked(h, history, s); }
  }

  lemma AcceptedLinksExactly(h: Hasher, env: Environment, l: Ledger, req: CommitRequest, rolled: bool, b: Block)
    requires Windowed(h, l) && Rooted(l.history) && !req.isArchiver && Accepts(h, env, l.token, req)
    requires rolled == RollsBack(l.token.chain, req.rollbackTipHash) && b == Stamped(h, req.block)
    ensures LinkedFromGenesis(h, WithoutTip(l.history, rolled) + [b])
       <==> LinkedFromGenesis(h, l.history) && !(l.token.securityLevel == 1 && rolled && |l.history| > 1)
    ensures Rooted(WithoutTip(l.history, rolled) + [b])
  {
    AcceptedChain(h, env, l.token, req);
    HistoryLinksExactly(h, l.history, l.token.securityLevel, rolled, b);
  }

  lemma StepHistory(h: Hasher, env: Environment, l: Ledger, req: CommitRequest, rolled: bool, b: Block)
    requires rolled == RollsBack(l.token.chain, req.rollbackTipHash) && b == Stamped(h, req.block)
    ensures Step(h, env, l, req).history
         == if Accepts(h, env, l.token, req) then WithoutTip(l.history, rolled) + [b] else l.history
  {}

  lemma LinksExactly(h: Hasher, env: Environment, l: Ledger, req: CommitRequest, rolled: bool, b: Block,
                     after: seq<Block>)
    requires Windowed(h, l) && Rooted(l.history) && !req.isArchiver
    requires rolled == RollsBack(l.token.chain, req.rollbackTipHash) && b == Stamped(h, req.block)
    requires after == if Accepts(h, env, l.token, req) then WithoutTip(l.history, rolled) + [b] else l.history
    ensures LinkedFromGenesis(h, after) <==> LinkedFromGenesis(h, l.history) && !CutsOff(h, env, l, req)
    ensures Rooted(after)
  {
    if Accepts(h, env, l.token, req) { AcceptedLinksExactly(h, env, l, req, rolled, b); }
  }

  /** A commit keeps the history linked exactly unless it cuts the window off from it. */
  lemma StepLinksExactly(h: Hasher, env: Environment, l: Ledger, req: CommitRequest)
    requires Windowed(h, l) && Rooted(l.history) && !req.isArchiver
    ensures LinkedFromGenesis(h, Step(h, env, l, req).history)
       <==> LinkedFromGenesis(h, l.history) && !CutsOff(h, env, l, req)
    ensures Rooted(Step(h, env, l, req).history)
  {
    var rolled, b := RollsBack(l.token.chain, req.rollbackTipHash), Stamped(h, req.block);
    StepHistory(h, env, l, req, rolled, b);
    LinksExactly(h, env, l, req, rolled, b, Step(h, env, l, req).history);
  }

  /** No commit of the run cuts the window off from the history below it. */
  predicate NeverCutsOff(h: Hasher, env: Environment, l: Ledger, reqs: seq<CommitRequest>) {
    reqs != [] ==>
      && NeverCutsOff(h, env, l, reqs[..|reqs| - 1])
      && !CutsOff(h, env, Run(h, env, l, reqs[..|reqs| - 1]), reqs[|reqs| - 1])
  }

  /** What a run keeps at a given security level. */
  predicate LedgerHolds(h: Hasher, level: nat, l: Ledger) {
    Windowed(h, l) && l.token.securityLevel == level && Rooted(l.history)
  }

  lemma StepKeepsLedger(h: Hasher, env: Environment, level: nat, l: Ledger, req: CommitRequest)
    requires LedgerHolds(h, level, l) && !req.isArchiver
    ensures LedgerHolds(h, level, Step(h, env, l, req))
    ensures LinkedFromGenesis(h, Step(h, env, l, req).history)
       <==> LinkedFromGenesis(h, l.history) && !CutsOff(h, env, l, req)
    ensures level != 1 ==> !CutsOff(h, env, l, req)
  {
    StepKeepsWindow(h, env, l, req);
    StepLinksExactly(h, env, l, req);
  }

  lemma {:induction false} RunHolds(h: Hasher, env: Environment, level: nat, l: Ledger, reqs: seq<CommitRequest>)
    requires LedgerHolds(h, level, l) && LinkedFromGenesis(h, l.history) && NoArchiver(reqs)
    ensures LedgerHolds(h, level, Run(h, env, l, reqs))
    ensures LinkedFromGenesis(h, Run(h, env, l, reqs).history) <==> NeverCutsOff(h, env, l, reqs)
    ensures level != 1 ==> NeverCutsOff(h, env, l, reqs)
  {
    if reqs != [] {
      var front := reqs[..|reqs| - 1];
      RunHolds(h, env, level, l, front);
      StepKeepsLedger(h, env, level, Run(h, env, l, front), reqs[|reqs| - 1]);
    }
  }

  /**
   For every run of non-archiver commits from an empty token, with any mix of rollbacks and rejections: the
   stored window is the last blocks of the history, the sequence number counts the successful commits, and the
   history is hash-linked from genesis exactly when no commit cut the window off from it, which only happens at
   security level 1.
   */
  lemma RunKeepsLedger(h: Hasher, env: Environment, l: Ledger, reqs: seq<CommitRequest>)
    requires Fresh(l) && NoArchiver(reqs)
    ensures Windowed(h, Run(h, env, l, reqs))
    ensures Run(h, env, l, reqs).token.securityLevel == l.token.securityLevel
    ensures LinkedFromGenesis(h, Run(h, env, l, reqs).history) <==> NeverCutsOff(h, env, l, reqs)
    ensures l.token.securityLevel != 1 ==> LinkedFromGenesis(h, Run(h, env, l, reqs).history)
  {
    RunHolds(h, env, l.token.securityLevel, l, reqs);
  }

  // ----- level 1 is the exception -----

  ghost predicate AcceptsAll(env: Environment, t: TokenState) {
    && t.blockValidationSpecName in env.validators && t.blockValidationSpecName != ""
    && forall b, u :: env.validators[t.blockValidationSpecName](b, u) == SpecValid
  }

  function Plain(b: Block): CommitRequest { CommitRequest(b, false, None) }

  /** A genesis, a child, and a second genesis that replaces the child. */
  function BreakingRun(h: Hasher, b: Block): seq<CommitRequest> {
    var g := b.(previousHash := []);
    var child := b.(previousHash := Stamped(h, g).currentHash);
    [Plain(g), Plain(child), CommitRequest(g, false, Some(Stamped(h, child).currentHash))]
  }

  lemma AcceptedStep(h: Hasher, env: Environment, l: Ledger, req: CommitRequest)
    requires AcceptsAll(env, l.token) && h(req.block).Some?
    requires ValidChain(h, WithoutLoser(l.token.chain, req.rollbackTipHash))
    requires Stamped(h, req.block).previousHash == CachedTip(WithoutLoser(l.token.chain, req.rollbackTipHash))
    ensures Step(h, env, l, req) == Ledger(
              l.token.(chain := Trimmed(WithoutLoser(l.token.chain, req.rollbackTipHash), l.token.securityLevel,
                                        req.isArchiver) + [Stamped(h, req.block)],
                       sequenceNumber := l.token.sequenceNumber + 1),
              WithoutTip(l.history, RollsBack(l.token.chain, req.rollbackTipHash)) + [Stamped(h, req.block)],
              l.commits + 1)
  {
    StampedHashes(h, req.block);
  }

  /** At level 1 the window is the last block alone, whether it was appended or replaced the one before it. */
  lemma LevelOneStep(h: Hasher, env: Environment, l: Ledger, req: CommitRequest, rest: seq<Block>)
    requires AcceptsAll(env, l.token) && l.token.securityLevel == 1 && !req.isArchiver
    requires h(req.block).Some? && ValidChain(h, l.token.chain)
    requires |l.token.chain| <= 1 && l.history == rest + l.token.chain
    requires req.rollbackTipHash.None? || req.rollbackTipHash == Some(CachedTip(l.token.chain))
    requires req.block.previousHash == if req.rollbackTipHash.None? then CachedTip(l.token.chain) else []
    ensures
      var l' := Step(h, env, l, req);
      && l'.token.chain == [Stamped(h, req.block)] && l'.commits == l.commits + 1
      && l'.history == (if req.rollbackTipHash.None? then l.history else rest) + [Stamped(h, req.block)]
      && AcceptsAll(env, l'.token) && l'.token.securityLevel == 1 && ValidChain(h, l'.token.chain)
  {
    StampedHashes(h, req.block);
    AcceptedStep(h, env, l, req);
  }

  ghost predicate AtLevelOne(h: Hasher, env: Environment, l: Ledger, rest: seq<Block>, tip: seq<Block>, commits: nat) {
    && AcceptsAll(env, l.token) && l.token.securityLevel == 1 && l.token.chain == tip && |tip| <= 1
    && ValidChain(h, tip) && l.history == rest + tip && l.commits == commits
  }

  lemma LevelOneRunStep(h: Hasher, env: Environment, l: Ledger, reqs: seq<CommitRequest>, req: CommitRequest,
                        all: seq<CommitRequest>, rest: seq<Block>, tip: seq<Block>, history: seq<Block>)
    requires AtLevelOne(h, env, Run(h, env, l, reqs), rest, tip, |reqs|) && all == reqs + [req]
    requires h(req.block).Some? && !req.isArchiver
    requires req.rollbackTipHash.None? || req.rollbackTipHash == Some(CachedTip(tip))
    requires req.block.previousHash == if req.rollbackTipHash.None? then CachedTip(tip) else []
    requires history == if req.rollbackTipHash.None? then rest + tip else rest
    ensures AtLevelOne(h, env, Run(h, env, l, all), history, [Stamped(h, req.block)], |all|)
  {
    assert all[..|reqs|] == reqs;
    LevelOneStep(h, env, Run(h, env, l, reqs), req, rest);
  }

  lemma OneBlock(h: Hasher, env: Environment, l: Ledger, one: CommitRequest, none: seq<CommitRequest>,
                 empty: seq<Block>, g: Block)
    requires Fresh(l) && l.token.securityLevel == 1 && AcceptsAll(env, l.token) && none == [] && empty == []
    requires one == Plain(one.block) && h(one.block).Some? && one.block.previousHash == [] && g == Stamped(h, one.block)
    ensures AtLevelOne(h, env, Run(h, env, l, none + [one]), empty + empty, [g], 1)
  {
    LevelOneRunStep(h, env, l, none, one, none + [one], empty, empty, empty + empty);
  }

  lemma TwoBlocks(h: Hasher, env: Environment, l: Ledger, one: CommitRequest, two: CommitRequest, g: Block,
                  child: Block)
    requires Fresh(l) && l.token.securityLevel == 1 && AcceptsAll(env, l.token)
    requires one == Plain(one.block) && h(one.block).Some? && one.block.previousHash == [] && g == Stamped(h, one.block)
    requires two == Plain(two.block) && h(two.block).Some? && two.block.previousHash == g.currentHash
    requires child == Stamped(h, two.block)
    ensures AtLevelOne(h, env, Run(h, env, l, [one, two]), [g], [child], 2)
  {
    OneBlock(h, env, l, one, [], [], g);
    assert [] + [one] == [one];
    LevelOneRunStep(h, env, l, [one], two, [one, two], [], [g], [g]);
  }

  /** A block, its child, and the block again in place of the child. */
  lemma TwiceTheSame(h: Hasher, env: Environment, l: Ledger, one: CommitRequest, two: CommitRequest,
                     three: CommitRequest, g: Block, child: Block)
    requires Fresh(l) && l.token.securityLevel == 1 && AcceptsAll(env, l.token)
    requires one == Plain(one.block) && h(one.block).Some? && one.block.previousHash == [] && g == Stamped(h, one.block)
    requires two == Plain(two.block) && h(two.block).Some? && two.block.previousHash == g.currentHash
    requires child == Stamped(h, two.block) && three == CommitRequest(one.block, false, Some(child.currentHash))
    ensures AtLevelOne(h, env, Run(h, env, l, [one, two, three]), [g], [g], 3)
  {
    TwoBlocks(h, env, l, one, two, g, child);
    LevelOneRunStep(h, env, l, [one, two], three, [one, two, three], [g], [child], [g]);
  }

  lemma TwoGenesesUnlinked(h: Hasher, g: Block)
    requires g.previousHash == [] && g.currentHash != []
    ensures !LinkedFromGenesis(h, [g] + [g])
  {
    assert ([g] + [g])[1].previousHash != ([g] + [g])[0].currentHash;
  }

  /** At level 1 the rollback leaves no parent to link to, so a second genesis is accepted after the first. */
  lemma LevelOneBreaksLinkage(h: Hasher, env: Environment, l: Ledger, b: Block)
    requires Fresh(l) && l.token.securityLevel == 1 && AcceptsAll(env, l.token)
    requires h(BreakingRun(h, b)[0].block).Some? && h(BreakingRun(h, b)[1].block).Some?
    ensures NoArchiver(BreakingRun(h, b))
    ensures Run(h, env, l, BreakingRun(h, b)).commits == 3
    ensures !LinkedFromGenesis(h, Run(h, env, l, BreakingRun(h, b)).history)
  {
    var one, two, three := BreakingRun(h, b)[0], BreakingRun(h, b)[1], BreakingRun(h, b)[2];
    var g := Stamped(h, one.block);
    StampedHashes(h, one.block);
    TwiceTheSame(h, env, l, one, two, three, g, Stamped(h, two.block));
    assert BreakingRun(h, b) == [one, two, three];
    TwoGenesesUnlinked(h, g);
  }

  // ----- what a commit is judged by -----

  /** The validator a token names: its spec name, else the one in its metadata, else the empty name. */
  predicate Names(t: TokenState, name: string) {
    if t.blockValidationSpecName != "" then name == t.blockValidationSpecName
    else if "validator_name" in t.metadata then name == t.metadata["validator_name"]
    else name == ""
  }

  /** The chain a commit builds on: without its tip when that is the named loser. */
  predicate BuildsOn(t: TokenState, loser: Option<Bytes>, base: seq<Block>) {
    if t.chain != [] && loser == Some(t.chain[|t.chain| - 1].currentHash) then base < t.chain && |base| == |t.chain| - 1
    else base == t.chain
  }

  /**
   The answer of a commit, case by case: it succeeds if and only if the block hashes, the chain it builds on is valid,
   the block extends that chain, and the named validator is registered and calls the stamped block valid.
   */
  lemma CommitAnswersExactly(h: Hasher, env: Environment, t: TokenState, req: CommitRequest, name: string,
                             base: seq<Block>, b: Block)
    requires Names(t, name) && BuildsOn(t, req.rollbackTipHash, base)
    requires h(req.block).Some? ==> b == req.block.(currentHash := h(req.block).value)
    ensures
      var r := Commit(h, env, t, req).1;
      var linked := h(req.block).Some? && ValidChain(h, base) && Extends(h, base, b);
      var called := linked && name in env.validators;
      && (r == Failure(HashError) <==> h(req.block).None?)
      && (r == Failure(ValidationError(ChainLinkage)) <==> h(req.block).Some? && !linked)
      && (r == Failure(ValidationError(NoValidatorRegistered)) <==> linked && !called)
      && (r.Success? <==> called && env.validators[name](b, t.(chain := base)) == SpecValid)
      && (r.Success? ==> r.value == TokenCommitResult(t.id, |Commit(h, env, t, req).0.chain|, t.sequenceNumber + 1))
      && (called ==>
            match env.validators[name](b, t.(chain := base))
            case SpecValid => true
            case SpecInvalid(why) => r == Failure(ValidationError(InvalidBlock(why)))
            case SpecValidationError(why) => r == Failure(ValidationError(InvalidBlock(why)))
            case SpecOtherError => r == Failure(ValidationError(InvalidBlock([]))))
  {
    BaseIs(t, req.rollbackTipHash, base);
  }

  lemma BaseIs(t: TokenState, loser: Option<Bytes>, base: seq<Block>)
    requires BuildsOn(t, loser, base)
    ensures base == WithoutLoser(t.chain, loser)
  {
    assert RollsBack(t.chain, loser) ==> t.chain[..|t.chain| - 1] == base;
  }

  /** The named validator has called the block valid, on some state of the token. */
  ghost predicate Vouched(env: Environment, name: string, b: Block) {
    name in env.validators && exists t: TokenState :: Names(t, name) && env.validators[name](b, t) == SpecValid
  }

  ghost predicate AllVouched(env: Environment, name: string, history: seq<Block>) {
    forall i :: 0 <= i < |history| ==> Vouched(env, name, history[i])
  }

  lemma AcceptedIsVouched(h: Hasher, env: Environment, t: TokenState, req: CommitRequest, name: string)
    requires Names(t, name) && Accepts(h, env, t, req)
    ensures Vouched(env, name, Stamped(h, req.block)) && Names(Commit(h, env, t, req).0, name)
  {
    var base, b := WithoutLoser(t.chain, req.rollbackTipHash), Stamped(h, req.block);
    CommitAnswersExactly(h, env, t, req, name, base, b);
    var u := t.(chain := base);
    assert Names(u, name) && env.validators[name](b, u) == SpecValid;
  }

  lemma StepVouched(h: Hasher, env: Environment, l: Ledger, req: CommitRequest, name: string)
    requires Names(l.token, name) && AllVouched(env, name, l.history)
    ensures Names(Step(h, env, l, req).token, name) && AllVouched(env, name, Step(h, env, l, req).history)
  {
    if Accepts(h, env, l.token, req) { AcceptedIsVouched(h, env, l.token, req, name); }
  }

  /** Over every run, archivers included, every block in the history was called valid by the token's validator. */
  lemma {:induction false} RunVouched(h: Hasher, env: Environment, l: Ledger, reqs: seq<CommitRequest>, name: string)
    requires Fresh(l) && Names(l.token, name)
    ensures Names(Run(h, env, l, reqs).token, name) && AllVouched(env, name, Run(h, env, l, reqs).history)
  {
    if reqs != [] {
      RunVouched(h, env, l, reqs[..|reqs| - 1], name);
      StepVouched(h, env, Run(h, env, l, reqs[..|reqs| - 1]), reqs[|reqs| - 1], name);
    }
  }

  // ----- one commit at a time -----

  /**
   When an accepted winner replaces the named losing tip, only the last block changes, unless the chain minus
   its tip is exactly at the security level and gets trimmed as well. The winner has the loser's parent
   exactly when a parent is stored or the loser is itself a genesis.
   */
  lemma RollbackReplacesTip(h: Hasher, env: Environment, t: TokenState, req: CommitRequest)
    requires ValidChain(h, t.chain) && RollsBack(t.chain, req.rollbackTipHash) && Accepts(h, env, t, req)
    ensures
      var n, b := |t.chain|, Stamped(h, req.block);
      && (Commit(h, env, t, req).0.chain == t.chain[..n - 1] + [b]
          <==> req.isArchiver || n == 1 || t.securityLevel != n - 1)
      && (b.previousHash == t.chain[n - 1].previousHash <==> n >= 2 || t.chain[0].previousHash == [])
  {
    AcceptedChain(h, env, t, req);
    var n := |t.chain|;
    assert WithoutLoser(t.chain, req.rollbackTipHash) == t.chain[..n - 1];
    if n >= 2 { assert t.chain[n - 1].previousHash == t.chain[n - 2].currentHash; }
  }

  /**
   Trimming tests for equality, after the rollback. So a chain within its level stays within it, and a longer
   one comes back only when a rollback brings it to the level first: otherwise it is never cut.
   */
  lemma TrimNeedsEquality(h: Hasher, env: Environment, t: TokenState, req: CommitRequest)
    requires Accepts(h, env, t, req) && !req.isArchiver
    ensures
      var level, n := t.securityLevel, |Commit(h, env, t, req).0.chain|;
      var rolled := RollsBack(t.chain, req.rollbackTipHash);
      && (level > 0 ==> (n <= level <==> |t.chain| <= level || (rolled && |t.chain| == level + 1)))
      && (n <= |t.chain| <==> rolled || (level > 0 && |t.chain| == level))
      && |t.chain| - 1 <= n <= |t.chain| + 1
  {
    AcceptedChain(h, env, t, req);
  }

  /** `create_block`: a block on top of the token's tip, not yet hashed. */
  function CreateBlock(t: TokenState, template: Block): Block {
    template.(tokenMetadata := t.metadata,
              previousHash := if |t.chain| == 0 then [] else CachedTip(t.chain),
              currentHash := [],
              finalityStatus := Optimistic,
              proposerKey := template.signedTrans.proposerKey)
  }

  /** A created block takes the token's metadata and tip, and the signed transaction with its proposer and epoch. */
  lemma CreatedBlockCarries(t: TokenState, template: Block)
    ensures
      var b := CreateBlock(t, template);
      && b.tokenMetadata == t.metadata && b.previousHash == CachedTip(t.chain)
      && b.signedTrans == template.signedTrans && b.proposerKey == template.signedTrans.proposerKey
      && b.epochNumber == template.epochNumber && b.finalityStatus == Optimistic && b.currentHash == []
  {
  }

  /** A block created on a valid token and committed to it is judged by the validator spec alone. */
  lemma CreatedBlockLinks(h: Hasher, env: Environment, t: TokenState, template: Block)
    requires ValidChain(h, t.chain) && h(CreateBlock(t, template)).Some?
    ensures
      var b := CreateBlock(t, template);
      Commit(h, env, t, Plain(b)).1 ==
        match SpecVerdict(env, t, Stamped(h, b))
        case Some(e) => Failure(ValidationError(e))
        case None => Success(TokenCommitResult(t.id, |Trimmed(t.chain, t.securityLevel, false)| + 1,
                                               t.sequenceNumber + 1))
  {
    StampedHashes(h, CreateBlock(t, template));
    assert t.(chain := WithoutLoser(t.chain, None)) == t;
  }

  // ----- every way a chain changes -----

  datatype ChainOp =
    | AppendValidated(block: Block)
    | CommitOp(req: CommitRequest)
    | RemoveTip
    | RemoveOldestBlock
    | SetFinality(hash: Bytes, status: FinalityStatus)

  /** The token after one operation on its chain. */
  function Apply(h: Hasher, env: Environment, t: TokenState, op: ChainOp): TokenState {
    match op
    case AppendValidated(b) => if Extends(h, t.chain, b) then t.(chain := t.chain + [b]) else t
    case CommitOp(req) => Commit(h, env, t, req).0
    case RemoveTip => t.(chain := WithoutTip(t.chain, true))
    case RemoveOldestBlock => if t.chain == [] then t else t.(chain := t.chain[1..])
    case SetFinality(hash, status) => t.(chain := Mark(t.chain, hash, status))
  }

  function ApplyAll(h: Hasher, env: Environment, t: TokenState, ops: seq<ChainOp>): TokenState {
    if ops == [] then t else Apply(h, env, ApplyAll(h, env, t, ops[..|ops| - 1]), ops[|ops| - 1])
  }

  lemma ApplyKeepsValid(h: Hasher, env: Environment, t: TokenState, op: ChainOp)
    requires ValidChain(h, t.chain)
    ensures ValidChain(h, Apply(h, env, t, op).chain)
  {
    match op
    case AppendValidated(b) => if Extends(h, t.chain, b) { AppendKeepsValid(h, t.chain, b); }
    case CommitOp(req) =>
      if Accepts(h, env, t, req) {
        AcceptedChain(h, env, t, req);
        TrimKeepsValid(h, WithoutLoser(t.chain, req.rollbackTipHash), t.securityLevel, req.isArchiver,
                       Stamped(h, req.block));
      }
    case RemoveTip => if t.chain != [] { SliceKeepsValid(h, t.chain, 0, |t.chain| - 1); }
    case RemoveOldestBlock => if t.chain != [] { SliceKeepsValid(h, t.chain, 1, |t.chain|); }
    case SetFinality(hash, status) => MarkKeepsValid(h, t.chain, hash, status);
  }

  /**
   On every chain reached from the empty one by appends, commits, removals at either end and finality marks,
   the full walk reports valid and ends at the cached tip, so the O(1) test admits exactly the blocks the
   O(n) test admits.
   */
  lemma {:induction false} FastAppendAgreesWithWalk(h: Hasher, env: Environment, t: TokenState, ops: seq<ChainOp>)
    requires t.chain == []
    ensures
      var c := ApplyAll(h, env, t, ops).chain;
      && ValidChain(h, c)
      && WalkState(h, c) == ChainState(true, CachedTip(c))
      && forall b :: Extends(h, c, b) <==> WalkAccepts(h, c, b)
  {
    if ops != [] {
      FastAppendAgreesWithWalk(h, env, t, ops[..|ops| - 1]);
      ApplyKeepsValid(h, env, ApplyAll(h, env, t, ops[..|ops| - 1]), ops[|ops| - 1]);
    }
  }

  /** On an arbitrary chain the two tests agree on every block exactly when the chain is valid. */
  lemma AgreementNeedsValidChain(h: Hasher, c: seq<Block>, template: Block)
    requires h(template.(previousHash := CachedTip(c))).Some?
    ensures (forall b :: Extends(h, c, b) <==> WalkAccepts(h, c, b)) <==> ValidChain(h, c)
  {
    var b := template.(previousHash := CachedTip(c));
    StampedHashes(h, b);
    assert Extends(h, c, Stamped(h, b));
  }
}
