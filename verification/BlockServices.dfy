/** The committer's write-through token cache: warm from the store, commit in the cache, persist, report. */
module BlockServices {
  import opened Primitives
  import opened Blocks
  import opened Tokens

  datatype TransactionCommit = TransactionCommit(transId: Bytes, tokenId: Bytes, envId: string, proposedBlock: Block)

  datatype CommitterError =
    | EnvironmentMismatch(expected: string, got: string)
    | TokenNotFound
    | CommitRejected(error: BlockCommitError)
    | TokenPersist

  /** A save either works, or reports a failure after or before the write reached the store. */
  datatype SaveOutcome = Saved | FailedAfterWrite | FailedBeforeWrite

  /** How the data provider behaves during one commit. */
  datatype ProviderBehaviour = ProviderBehaviour(loadFails: bool, save: SaveOutcome)

  class DataProvider {
    var records: map<Bytes, TokenState>

    method GetToken(key: Bytes, fails: bool) returns (r: Option<TokenState>)
      ensures r.Some? <==> key in records && !fails
      ensures r.Some? ==> r.value == records[key]
    {
      if fails || key !in records { return None; }
      r := Some(records[key]);
    }

    method SaveToken(key: Bytes, t: TokenState, outcome: SaveOutcome) returns (ok: bool)
      modifies this
      ensures records == if outcome.FailedBeforeWrite? then old(records) else old(records)[key := t]
      ensures ok <==> outcome.Saved?
    {
      if !outcome.FailedBeforeWrite? { records := records[key := t]; }
      ok := outcome.Saved?;
    }
  }

  /** The shared store and one committer's cache over it. */
  datatype ServiceState = ServiceState(cache: map<Bytes, TokenState>, store: map<Bytes, TokenState>)

  function Request(c: TransactionCommit, rollback: Option<Bytes>): CommitRequest {
    CommitRequest(c.proposedBlock, false, rollback)
  }

  /** The token a commit works on: the cached one, else the stored one. */
  function Warmed(s: ServiceState, key: Bytes, loadFails: bool): Option<TokenState> {
    if key in s.cache then Some(s.cache[key])
    else if key in s.store && !loadFails then Some(s.store[key])
    else None
  }

  /** The state and the answer after one `commit_block`. */
  function Serve(h: Hasher, env: Environment, s: ServiceState, c: TransactionCommit, rollback: Option<Bytes>,
                 io: ProviderBehaviour): (ServiceState, Result<TokenCommitResult, CommitterError>)
  {
    if c.envId != env.environmentId then (s, Failure(EnvironmentMismatch(env.environmentId, c.envId)))
    else
      match Warmed(s, c.tokenId, io.loadFails)
      case None => (s, Failure(TokenNotFound))
      case Some(t) =>
        var (t', r) := Commit(h, env, t, Request(c, rollback));
        var cache := s.cache[c.tokenId := t'];
        match r
        case Failure(e) => (ServiceState(cache, s.store), Failure(CommitRejected(e)))
        case Success(ok) =>
          match io.save
          case Saved => (ServiceState(cache, s.store[c.tokenId := t']), Success(ok))
          case FailedAfterWrite => (ServiceState(cache, s.store[c.tokenId := t']), Failure(TokenPersist))
          case FailedBeforeWrite => (ServiceState(cache, s.store), Failure(TokenPersist))
  }

  class Services {
    var tokens: map<Bytes, TokenState>
    const dataProvider: DataProvider
    const envData: Environment

    constructor (provider: DataProvider, env: Environment)
      ensures tokens == map[] && dataProvider == provider && envData == env
    {
      tokens, dataProvider, envData := map[], provider, env;
    }

    function View(): ServiceState
      reads this, dataProvider
    {
      ServiceState(tokens, dataProvider.records)
    }

    /** On a miss, load the token from the data service into the cache. */
    method Warm(key: Bytes, loadFails: bool) returns (ok: bool)
      modifies this
      ensures ok <==> Warmed(old(View()), key, loadFails).Some?
      ensures ok ==> tokens == old(tokens)[key := Warmed(old(View()), key, loadFails).value]
      ensures !ok ==> tokens == old(tokens)
    {
      if key !in tokens {
        var loaded := dataProvider.GetToken(key, loadFails);
        if loaded.None? { return false; }
        tokens := tokens[key := loaded.value];
      }
      ok := true;
    }

    /** Commit in place in the cache entry. */
    method CommitEntry(h: Hasher, key: Bytes, req: CommitRequest)
      returns (r: Result<TokenCommitResult, BlockCommitError>)
      requires key in tokens
      modifies this
      ensures var (t, result) := Commit(h, envData, old(tokens)[key], req);
              r == result && tokens == old(tokens)[key := t]
    {
      var entry := new Token(tokens[key]);
      r := entry.CommitBlock(h, envData, req);
      tokens := tokens[key := entry.View()];
    }

    /** `commit_block`: environment check, cache warming, commit in the cache entry, persist, report. */
    method CommitBlock(h: Hasher, c: TransactionCommit, rollback: Option<Bytes>, io: ProviderBehaviour)
      returns (r: Result<TokenCommitResult, CommitterError>)
      modifies this, dataProvider
      ensures (View(), r) == Serve(h, envData, old(View()), c, rollback, io)
    {
      if c.envId != envData.environmentId {
        return Failure(EnvironmentMismatch(envData.environmentId, c.envId));
      }
      var key := c.tokenId;
      var ok := Warm(key, io.loadFails);
      if !ok { return Failure(TokenNotFound); }
      var result := CommitEntry(h, key, Request(c, rollback));
      assert tokens == old(tokens)[key := tokens[key]];
      if result.Failure? { return Failure(CommitRejected(result.error)); }
      ok := dataProvider.SaveToken(key, tokens[key], io.save);
      if !ok { return Failure(TokenPersist); }
      r := Success(result.value);
    }
  }

  // ----- what a service commit answers and does -----

  /** The cached token, else the stored one when it can be loaded. */
  predicate WorksOn(s: ServiceState, key: Bytes, loadFails: bool, t: TokenState) {
    if key in s.cache then t == s.cache[key] else key in s.store && !loadFails && t == s.store[key]
  }

  /** The request the committer makes of the token: the proposed block, never as an archiver, with its rollback. */
  predicate Asks(c: TransactionCommit, rollback: Option<Bytes>, req: CommitRequest) {
    req.block == c.proposedBlock && !req.isArchiver && req.rollbackTipHash == rollback
  }

  /** The two refusals before any token is touched. */
  lemma ServeRefusesExactly(h: Hasher, env: Environment, s: ServiceState, c: TransactionCommit, rollback: Option<Bytes>,
                            io: ProviderBehaviour)
    ensures
      var (s', r) := Serve(h, env, s, c, rollback, io);
      var missing := c.tokenId !in s.cache && (c.tokenId !in s.store || io.loadFails);
      && (r == Failure(EnvironmentMismatch(env.environmentId, c.envId)) <==> c.envId != env.environmentId)
      && (r == Failure(TokenNotFound) <==> c.envId == env.environmentId && missing)
      && (c.envId != env.environmentId || missing ==> s' == s)
  {
  }

  /** Otherwise the token judges the request, and the answer also depends on the save. */
  lemma ServeAnswersExactly(h: Hasher, env: Environment, s: ServiceState, c: TransactionCommit, rollback: Option<Bytes>,
                            io: ProviderBehaviour, t: TokenState, req: CommitRequest)
    requires c.envId == env.environmentId && WorksOn(s, c.tokenId, io.loadFails, t) && Asks(c, rollback, req)
    ensures
      var (s', r) := Serve(h, env, s, c, rollback, io);
      var (t', answer) := Commit(h, env, t, req);
      && s'.cache == s.cache[c.tokenId := t']
      && (answer.Failure? ==> s'.store == s.store && r == Failure(CommitRejected(answer.error)))
      && (answer.Success? && io.save.Saved? ==> r == Success(answer.value))
      && (answer.Success? && !io.save.Saved? ==> r == Failure(TokenPersist))
      && (answer.Success? ==> s'.store == if io.save.FailedBeforeWrite? then s.store else s.store[c.tokenId := t'])
  {
    assert req == CommitRequest(c.proposedBlock, false, rollback);
  }

  /**
   A successful service commit that names the tip as the loser replaces it: below the security level the stored chain
   is the old one with the stamped winner as its last block.
   */
  lemma ServiceReplacesTip(h: Hasher, env: Environment, s: ServiceState, c: TransactionCommit, loser: Bytes,
                           io: ProviderBehaviour, t: TokenState)
    requires Serve(h, env, s, c, Some(loser), io).1.Success? && WorksOn(s, c.tokenId, io.loadFails, t)
    requires t.chain != [] && loser == t.chain[|t.chain| - 1].currentHash && t.securityLevel >= |t.chain|
    ensures
      var (s', r) := Serve(h, env, s, c, Some(loser), io);
      && h(c.proposedBlock).Some? && c.tokenId in s'.store
      && s'.store[c.tokenId].chain
         == t.chain[|t.chain| - 1 := c.proposedBlock.(currentHash := h(c.proposedBlock).value)]
  {
    var req := CommitRequest(c.proposedBlock, false, Some(loser));
    ServeAnswersExactly(h, env, s, c, Some(loser), io, t, req);
    var n := |t.chain|;
    assert WithoutLoser(t.chain, Some(loser)) == t.chain[..n - 1];
  }

  /** A service commit never acts as an archiver: a chain at its level loses its oldest block for the new one. */
  lemma ServiceTrims(h: Hasher, env: Environment, s: ServiceState, c: TransactionCommit, io: ProviderBehaviour,
                     t: TokenState)
    requires Serve(h, env, s, c, None, io).1.Success? && WorksOn(s, c.tokenId, io.loadFails, t)
    requires t.chain != [] && |t.chain| == t.securityLevel
    ensures
      var (s', r) := Serve(h, env, s, c, None, io);
      && h(c.proposedBlock).Some? && c.tokenId in s'.store
      && s'.store[c.tokenId].chain == t.chain[1..] + [c.proposedBlock.(currentHash := h(c.proposedBlock).value)]
  {
    ServeAnswersExactly(h, env, s, c, None, io, t, CommitRequest(c.proposedBlock, false, None));
  }

  // ----- lineage: one token state comes from another by commits -----

  function CommitAll(h: Hasher, env: Environment, t: TokenState, reqs: seq<CommitRequest>): TokenState {
    if reqs == [] then t
    else Commit(h, env, CommitAll(h, env, t, reqs[..|reqs| - 1]), reqs[|reqs| - 1]).0
  }

  /** `b` is `a` or a later state of it. */
  ghost predicate LaterState(h: Hasher, env: Environment, a: TokenState, b: TokenState) {
    exists reqs :: CommitAll(h, env, a, reqs) == b
  }

  lemma LaterReflexive(h: Hasher, env: Environment, a: TokenState)
    ensures LaterState(h, env, a, a)
  {
    assert CommitAll(h, env, a, []) == a;
  }

  lemma LaterStep(h: Hasher, env: Environment, a: TokenState, b: TokenState, req: CommitRequest)
    requires LaterState(h, env, a, b)
    ensures LaterState(h, env, a, Commit(h, env, b, req).0)
  {
    var reqs :| CommitAll(h, env, a, reqs) == b;
    assert (reqs + [req])[..|reqs|] == reqs;
    assert CommitAll(h, env, a, reqs + [req]) == Commit(h, env, b, req).0;
  }

  lemma CommitSequence(h: Hasher, env: Environment, t: TokenState, req: CommitRequest)
    ensures
      var (t', r) := Commit(h, env, t, req);
      if r.Success? then t'.sequenceNumber == t.sequenceNumber + 1 == r.value.sequenceNumber else t' == t
  {
  }

  /** Sequence numbers never fall along a lineage, and two states of it with the same number are the same. */
  lemma {:induction false} CommitAllSequence(h: Hasher, env: Environment, t: TokenState, reqs: seq<CommitRequest>)
    ensures CommitAll(h, env, t, reqs).sequenceNumber >= t.sequenceNumber
    ensures CommitAll(h, env, t, reqs).sequenceNumber == t.sequenceNumber ==> CommitAll(h, env, t, reqs) == t
  {
    if reqs != [] {
      var front := reqs[..|reqs| - 1];
      CommitAllSequence(h, env, t, front);
      CommitSequence(h, env, CommitAll(h, env, t, front), reqs[|reqs| - 1]);
    }
  }

  lemma LaterSequence(h: Hasher, env: Environment, a: TokenState, b: TokenState)
    requires LaterState(h, env, a, b)
    ensures a.sequenceNumber <= b.sequenceNumber
    ensures a.sequenceNumber == b.sequenceNumber ==> a == b
  {
    var reqs :| CommitAll(h, env, a, reqs) == b;
    CommitAllSequence(h, env, a, reqs);
  }

  lemma {:induction false} CommitAllAppend(h: Hasher, env: Environment, t: TokenState, a: seq<CommitRequest>,
                                           b: seq<CommitRequest>)
    ensures CommitAll(h, env, t, a + b) == CommitAll(h, env, CommitAll(h, env, t, a), b)
  {
    if b == [] {
      assert a + b == a;
    } else {
      assert (a + b)[..|a + b| - 1] == a + b[..|b| - 1];
      CommitAllAppend(h, env, t, a, b[..|b| - 1]);
    }
  }

  lemma LaterTransitive(h: Hasher, env: Environment, a: TokenState, b: TokenState, c: TokenState)
    requires LaterState(h, env, a, b) && LaterState(h, env, b, c)
    ensures LaterState(h, env, a, c)
  {
    var p :| CommitAll(h, env, a, p) == b;
    var q :| CommitAll(h, env, b, q) == c;
    CommitAllAppend(h, env, a, p, q);
  }

  // ----- runs of commits, failed saves and crashes -----

  datatype Event =
    | CommitEvent(commit: TransactionCommit, rollback: Option<Bytes>, io: ProviderBehaviour)
    | Crash

  /** The service with every token state whose commit it has reported. */
  datatype Tracked = Tracked(service: ServiceState, reported: set<(Bytes, TokenState)>)

  function Next(h: Hasher, env: Environment, s: Tracked, e: Event): Tracked {
    match e
    case Crash => Tracked(ServiceState(map[], s.service.store), s.reported)
    case CommitEvent(c, rollback, io) =>
      var (service, r) := Serve(h, env, s.service, c, rollback, io);
      Tracked(service,
              if r.Success? && c.tokenId in service.cache then s.reported + {(c.tokenId, service.cache[c.tokenId])}
              else s.reported)
  }

  function RunEvents(h: Hasher, env: Environment, s: Tracked, es: seq<Event>): Tracked {
    if es == [] then s else Next(h, env, RunEvents(h, env, s, es[..|es| - 1]), es[|es| - 1])
  }

  /** The cached token is the stored one or a later state of it. */
  ghost predicate StoreBehindCache(h: Hasher, env: Environment, s: ServiceState) {
    forall k :: k in s.cache ==> k in s.store && LaterState(h, env, s.store[k], s.cache[k])
  }

  /** The store holds every state that was ever reported, or a later state of it. */
  ghost predicate NothingReportedLost(h: Hasher, env: Environment, s: Tracked) {
    forall r :: r in s.reported ==> r.0 in s.service.store && LaterState(h, env, r.1, s.service.store[r.0])
  }

  /** An `Ok` answer means the store has the token the cache has, with the reported sequence number. */
  lemma OkMeansPersisted(h: Hasher, env: Environment, s: ServiceState, c: TransactionCommit, rollback: Option<Bytes>,
                         io: ProviderBehaviour)
    requires Serve(h, env, s, c, rollback, io).1.Success?
    ensures
      var (s', r) := Serve(h, env, s, c, rollback, io);
      && c.tokenId in s'.store && c.tokenId in s'.cache && s'.store[c.tokenId] == s'.cache[c.tokenId]
      && s'.store[c.tokenId].sequenceNumber == r.value.sequenceNumber
  {
    CommitSequence(h, env, Warmed(s, c.tokenId, io.loadFails).value, Request(c, rollback));
  }

  /** The store after a commit, written or not. */
  function Put(s: ServiceState, k: Bytes, t: TokenState, written: bool): ServiceState {
    ServiceState(s.cache[k := t], if written then s.store[k := t] else s.store)
  }

  /** Every stored token of `a` is in `b`, the same or later. */
  ghost predicate StoreAdvances(h: Hasher, env: Environment, a: map<Bytes, TokenState>, b: map<Bytes, TokenState>) {
    forall k :: k in a ==> k in b && LaterState(h, env, a[k], b[k])
  }

  lemma PutKeepsOrder(h: Hasher, env: Environment, s: ServiceState, k: Bytes, t: TokenState, written: bool)
    requires StoreBehindCache(h, env, s)
    requires k in s.store && LaterState(h, env, s.store[k], t)
    ensures StoreBehindCache(h, env, Put(s, k, t, written))
    ensures StoreAdvances(h, env, s.store, Put(s, k, t, written).store)
  {
    LaterReflexive(h, env, t);
    SameStoreAdvances(h, env, s.store);
  }

  lemma SameStoreAdvances(h: Hasher, env: Environment, a: map<Bytes, TokenState>)
    ensures StoreAdvances(h, env, a, a)
  {
    forall k | k in a ensures LaterState(h, env, a[k], a[k]) { LaterReflexive(h, env, a[k]); }
  }

  lemma ServePuts(h: Hasher, env: Environment, s: ServiceState, c: TransactionCommit, rollback: Option<Bytes>,
                  io: ProviderBehaviour)
    ensures
      var (s', r) := Serve(h, env, s, c, rollback, io);
      var t := Warmed(s, c.tokenId, io.loadFails);
      if c.envId != env.environmentId || t.None? then s' == s && r.Failure?
      else
        exists written :: s' == Put(s, c.tokenId, Commit(h, env, t.value, Request(c, rollback)).0, written)
  {
    if c.envId == env.environmentId && Warmed(s, c.tokenId, io.loadFails).Some? {
      var t := Warmed(s, c.tokenId, io.loadFails).value;
      var (t', r) := Commit(h, env, t, Request(c, rollback));
      assert Serve(h, env, s, c, rollback, io).0
          == Put(s, c.tokenId, t', r.Success? && !io.save.FailedBeforeWrite?);
    }
  }

  lemma NextKeepsOrder(h: Hasher, env: Environment, s: Tracked, e: Event)
    requires StoreBehindCache(h, env, s.service)
    ensures StoreBehindCache(h, env, Next(h, env, s, e).service)
    ensures StoreAdvances(h, env, s.service.store, Next(h, env, s, e).service.store)
  {
    SameStoreAdvances(h, env, s.service.store);
    if e.CommitEvent? {
      ServePuts(h, env, s.service, e.commit, e.rollback, e.io);
      var k, s' := e.commit.tokenId, Next(h, env, s, e).service;
      if e.commit.envId == env.environmentId && Warmed(s.service, k, e.io.loadFails).Some? {
        var t := Warmed(s.service, k, e.io.loadFails).value;
        var t' := Commit(h, env, t, Request(e.commit, e.rollback)).0;
        var written :| s' == Put(s.service, k, t', written);
        LaterReflexive(h, env, t);
        LaterStep(h, env, s.service.store[k], t, Request(e.commit, e.rollback));
        PutKeepsOrder(h, env, s.service, k, t', written);
      }
    }
  }

  /** What was reported before a step of the store is not lost by it. */
  lemma AdvanceLosesNothing(h: Hasher, env: Environment, s: Tracked, store: map<Bytes, TokenState>)
    requires NothingReportedLost(h, env, s) && StoreAdvances(h, env, s.service.store, store)
    ensures NothingReportedLost(h, env, s.(service := s.service.(store := store)))
  {
    forall r | r in s.reported ensures r.0 in store && LaterState(h, env, r.1, store[r.0]) {
      LaterTransitive(h, env, r.1, s.service.store[r.0], store[r.0]);
    }
  }

  lemma NextLosesNothing(h: Hasher, env: Environment, s: Tracked, e: Event)
    requires StoreBehindCache(h, env, s.service) && NothingReportedLost(h, env, s)
    ensures NothingReportedLost(h, env, Next(h, env, s, e))
  {
    NextKeepsOrder(h, env, s, e);
    AdvanceLosesNothing(h, env, s, Next(h, env, s, e).service.store);
    if e.CommitEvent? && Serve(h, env, s.service, e.commit, e.rollback, e.io).1.Success? {
      OkMeansPersisted(h, env, s.service, e.commit, e.rollback, e.io);
      LaterReflexive(h, env, Next(h, env, s, e).service.cache[e.commit.tokenId]);
    }
  }

  /** No reported sequence number is above the stored one. */
  predicate NumbersKept(s: Tracked) {
    forall r :: r in s.reported ==> r.0 in s.service.store && r.1.sequenceNumber <= s.service.store[r.0].sequenceNumber
  }

  lemma {:induction false} RunLosesNothing(h: Hasher, env: Environment, s: Tracked, es: seq<Event>)
    requires StoreBehindCache(h, env, s.service) && NothingReportedLost(h, env, s)
    ensures StoreBehindCache(h, env, RunEvents(h, env, s, es).service)
    ensures NothingReportedLost(h, env, RunEvents(h, env, s, es))
  {
    if es != [] {
      var front, e := es[..|es| - 1], es[|es| - 1];
      RunLosesNothing(h, env, s, front);
      NextKeepsOrder(h, env, RunEvents(h, env, s, front), e);
      NextLosesNothing(h, env, RunEvents(h, env, s, front), e);
    }
  }

  /**
   Over every run of commits, failed saves and crashes from an empty cache: the stored token is always the
   cached one or an earlier state of it, and every state that was ever reported is the stored one or an earlier
   state of it, so that the stored sequence number never falls below any that was reported.
   */
  lemma ServiceKeepsPromises(h: Hasher, env: Environment, s: Tracked, es: seq<Event>)
    requires s.service.cache == map[] && s.reported == {}
    ensures StoreBehindCache(h, env, RunEvents(h, env, s, es).service)
    ensures NothingReportedLost(h, env, RunEvents(h, env, s, es))
    ensures NumbersKept(RunEvents(h, env, s, es))
  {
    RunLosesNothing(h, env, s, es);
    var last := RunEvents(h, env, s, es);
    forall r | r in last.reported ensures r.1.sequenceNumber <= last.service.store[r.0].sequenceNumber {
      LaterSequence(h, env, r.1, last.service.store[r.0]);
    }
  }
}
