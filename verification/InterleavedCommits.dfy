/**
 Concurrent commits of one committer. The commit and its save run under the cache entry's guard, but the
 cache warming before them is three separate steps: the miss, the load and the insert.
 */
module InterleavedCommits {
  import opened Primitives
  import opened Blocks
  import opened Chains
  import opened Tokens
  import opened Ledgers
  import opened BlockServices

  datatype Loaded = Loaded(key: Bytes, token: TokenState)

  /** The service, the key each thread missed, the token each has loaded, and every state reported. */
  datatype Shared = Shared(service: ServiceState, missed: map<nat, Bytes>, loaded: map<nat, Loaded>,
                           reported: set<(Bytes, TokenState)>)

  datatype ThreadStep =
    | Miss(thread: nat, key: Bytes)
    | Load(thread: nat)
    | Insert(thread: nat)
    | GuardedCommit(key: Bytes, req: CommitRequest, save: SaveOutcome)
    | CrashAll

  /** One step of some thread; a step that is not enabled changes nothing. */
  function Act(h: Hasher, env: Environment, s: Shared, a: ThreadStep): Shared {
    match a
    case Miss(i, k) => if k !in s.service.cache then s.(missed := s.missed[i := k]) else s
    case Load(i) =>
      if i in s.missed && s.missed[i] in s.service.store
      then s.(missed := s.missed - {i}, loaded := s.loaded[i := Loaded(s.missed[i], s.service.store[s.missed[i]])])
      else s
    case Insert(i) =>
      if i in s.loaded
      then s.(service := s.service.(cache := s.service.cache[s.loaded[i].key := s.loaded[i].token]),
              loaded := s.loaded - {i})
      else s
    case GuardedCommit(k, req, save) =>
      if k !in s.service.cache then s
      else
        var (t, r) := Commit(h, env, s.service.cache[k], req);
        Advance(s, k, t, r.Success? && !save.FailedBeforeWrite?, r.Success? && save.Saved?)
    case CrashAll => Shared(ServiceState(map[], s.service.store), map[], map[], s.reported)
  }

  function ActAll(h: Hasher, env: Environment, s: Shared, steps: seq<ThreadStep>): Shared {
    if steps == [] then s else Act(h, env, ActAll(h, env, s, steps[..|steps| - 1]), steps[|steps| - 1])
  }

  /** What a thread holds after a load is the stored token or an earlier state of it. */
  ghost predicate LoadsBehindStore(h: Hasher, env: Environment, s: Shared) {
    forall i :: i in s.loaded ==>
      s.loaded[i].key in s.service.store
      && LaterState(h, env, s.loaded[i].token, s.service.store[s.loaded[i].key])
  }

  ghost predicate Consistent(h: Hasher, env: Environment, s: Shared) {
    && StoreBehindCache(h, env, s.service)
    && NothingReportedLost(h, env, Tracked(s.service, s.reported))
    && LoadsBehindStore(h, env, s)
  }

  /** Inserting a loaded copy is harmless exactly when the store has not moved on since the load. */
  lemma InsertSafeExactly(h: Hasher, env: Environment, s: Shared, i: nat)
    requires Consistent(h, env, s) && i in s.loaded
    ensures Consistent(h, env, Act(h, env, s, Insert(i)))
        <==> s.loaded[i].token.sequenceNumber == s.service.store[s.loaded[i].key].sequenceNumber
  {
    var k, t := s.loaded[i].key, s.loaded[i].token;
    LaterSequence(h, env, t, s.service.store[k]);
    LaterReflexive(h, env, t);
    var s' := Act(h, env, s, Insert(i));
    assert s'.service.cache[k] == t;
    if Consistent(h, env, s') {
      LaterSequence(h, env, s.service.store[k], t);
    }
  }

  /** A later state of the stored token in the cache, and in the store when written or reported. */
  function Advance(s: Shared, k: Bytes, t: TokenState, written: bool, ok: bool): Shared {
    s.(service := Put(s.service, k, t, written), reported := if ok then s.reported + {(k, t)} else s.reported)
  }

  lemma AdvanceKeepsLoads(h: Hasher, env: Environment, s: Shared, k: Bytes, t: TokenState, written: bool, ok: bool)
    requires LoadsBehindStore(h, env, s)
    requires k in s.service.store && LaterState(h, env, s.service.store[k], t)
    ensures LoadsBehindStore(h, env, Advance(s, k, t, written, ok))
  {
    forall i | i in s.loaded && s.loaded[i].key == k ensures LaterState(h, env, s.loaded[i].token, t) {
      LaterTransitive(h, env, s.loaded[i].token, s.service.store[k], t);
    }
  }

  lemma AdvanceKeepsConsistent(h: Hasher, env: Environment, s: Shared, k: Bytes, t: TokenState, written: bool, ok: bool)
    requires Consistent(h, env, s) && (ok ==> written)
    requires k in s.service.store && LaterState(h, env, s.service.store[k], t)
    ensures Consistent(h, env, Advance(s, k, t, written, ok))
  {
    PutKeepsOrder(h, env, s.service, k, t, written);
    AdvanceLosesNothing(h, env, Tracked(s.service, s.reported), Put(s.service, k, t, written).store);
    LaterReflexive(h, env, t);
    AdvanceKeepsLoads(h, env, s, k, t, written, ok);
  }

  lemma CommitKeepsConsistent(h: Hasher, env: Environment, s: Shared, k: Bytes, req: CommitRequest, save: SaveOutcome)
    requires Consistent(h, env, s) && k in s.service.cache
    ensures Consistent(h, env, Act(h, env, s, GuardedCommit(k, req, save)))
  {
    LaterStep(h, env, s.service.store[k], s.service.cache[k], req);
    var (t, r) := Commit(h, env, s.service.cache[k], req);
    AdvanceKeepsConsistent(h, env, s, k, t, r.Success? && !save.FailedBeforeWrite?, r.Success? && save.Saved?);
  }

  /** Every insert of the run finds the store as its thread loaded it. */
  predicate FreshInserts(h: Hasher, env: Environment, s: Shared, steps: seq<ThreadStep>) {
    forall n :: 0 <= n < |steps| && steps[n].Insert? ==> InsertIsFresh(ActAll(h, env, s, steps[..n]), steps[n].thread)
  }

  predicate InsertIsFresh(s: Shared, i: nat) {
    i in s.loaded && s.loaded[i].key in s.service.store ==>
      s.loaded[i].token.sequenceNumber == s.service.store[s.loaded[i].key].sequenceNumber
  }

  lemma ActKeepsConsistent(h: Hasher, env: Environment, s: Shared, a: ThreadStep)
    requires Consistent(h, env, s)
    requires a.Insert? ==> InsertIsFresh(s, a.thread)
    ensures Consistent(h, env, Act(h, env, s, a))
  {
    match a
    case Miss(i, k) =>
    case Load(i) =>
      if i in s.missed && s.missed[i] in s.service.store { LaterReflexive(h, env, s.service.store[s.missed[i]]); }
    case Insert(i) => if i in s.loaded { InsertSafeExactly(h, env, s, i); }
    case GuardedCommit(k, req, save) =>
      if k in s.service.cache { CommitKeepsConsistent(h, env, s, k, req, save); }
    case CrashAll =>
  }

  /** Under every interleaving whose inserts are fresh, the store never runs ahead of the cache or loses a commit. */
  lemma {:induction false} FreshRunsStayConsistent(h: Hasher, env: Environment, s: Shared, steps: seq<ThreadStep>)
    requires s.service.cache == map[] && s.loaded == map[] && s.reported == {}
    requires FreshInserts(h, env, s, steps)
    ensures Consistent(h, env, ActAll(h, env, s, steps))
  {
    if steps != [] {
      var front := steps[..|steps| - 1];
      FreshPrefix(h, env, s, steps, |front|);
      FreshRunsStayConsistent(h, env, s, front);
      ActKeepsConsistent(h, env, ActAll(h, env, s, front), steps[|steps| - 1]);
    }
  }

  /** A run is consistent at every point. */
  ghost predicate AlwaysConsistent(h: Hasher, env: Environment, s: Shared, steps: seq<ThreadStep>) {
    forall n :: 0 <= n <= |steps| ==> Consistent(h, env, ActAll(h, env, s, steps[..n]))
  }

  /** A run from an empty committer is consistent throughout exactly when every one of its inserts is fresh. */
  lemma FreshExactly(h: Hasher, env: Environment, s: Shared, steps: seq<ThreadStep>)
    requires s.service.cache == map[] && s.loaded == map[] && s.reported == {}
    ensures AlwaysConsistent(h, env, s, steps) <==> FreshInserts(h, env, s, steps)
  {
    if FreshInserts(h, env, s, steps) {
      forall n | 0 <= n <= |steps| ensures Consistent(h, env, ActAll(h, env, s, steps[..n])) {
        FreshPrefix(h, env, s, steps, n);
        FreshRunsStayConsistent(h, env, s, steps[..n]);
      }
    }
    if AlwaysConsistent(h, env, s, steps) {
      forall n | 0 <= n < |steps| && steps[n].Insert?
        ensures InsertIsFresh(ActAll(h, env, s, steps[..n]), steps[n].thread)
      {
        var mid := ActAll(h, env, s, steps[..n]);
        assert steps[..n + 1] == steps[..n] + [steps[n]];
        ActAllSnoc(h, env, s, steps[..n], steps[n]);
        if steps[n].thread in mid.loaded { InsertSafeExactly(h, env, mid, steps[n].thread); }
      }
    }
  }

  lemma FreshPrefix(h: Hasher, env: Environment, s: Shared, steps: seq<ThreadStep>, n: nat)
    requires FreshInserts(h, env, s, steps) && n <= |steps|
    ensures FreshInserts(h, env, s, steps[..n])
  {
    var front := steps[..n];
    forall m | 0 <= m < |front| && front[m].Insert?
      ensures InsertIsFresh(ActAll(h, env, s, front[..m]), front[m].thread)
    {
      assert front[..m] == steps[..m] && front[m] == steps[m];
    }
  }

  // ----- what a stale insert does -----

  /** Two threads miss and load the same token; the second inserts its copy after the first has committed. */
  function StaleRun(k: Bytes, first: Block, second: Block): seq<ThreadStep> {
    [Miss(1, k), Miss(2, k), Load(1), Load(2), Insert(1), GuardedCommit(k, Plain(first), Saved),
     Insert(2), GuardedCommit(k, Plain(second), Saved)]
  }

  predicate Holds(m: map<Bytes, TokenState>, k: Bytes, t: TokenState) {
    k in m && m[k] == t
  }

  /** The token after one plain accepted block, below the security level. */
  function Grown(h: Hasher, t: TokenState, b: Block): TokenState {
    t.(chain := t.chain + [Stamped(h, b)], sequenceNumber := t.sequenceNumber + 1)
  }

  lemma PlainCommit(h: Hasher, env: Environment, t: TokenState, b: Block)
    requires AcceptsAll(env, t) && ValidChain(h, t.chain) && |t.chain| < t.securityLevel
    requires h(b).Some? && b.previousHash == CachedTip(t.chain)
    ensures Commit(h, env, t, Plain(b))
         == (Grown(h, t, b), Success(TokenCommitResult(t.id, |t.chain| + 1, t.sequenceNumber + 1)))
  {
    AcceptedStep(h, env, Ledger(t, [], 0), Plain(b));
    StampedHashes(h, b);
  }

  lemma ActAllSnoc(h: Hasher, env: Environment, s: Shared, steps: seq<ThreadStep>, a: ThreadStep)
    ensures ActAll(h, env, s, steps + [a]) == Act(h, env, ActAll(h, env, s, steps), a)
  {
    assert (steps + [a])[..|steps|] == steps;
  }

  predicate Idle(s: Shared) {
    s.service.cache == map[] && s.missed == map[] && s.loaded == map[] && s.reported == {}
  }

  /** The token has room for one more block, and the block fits on its tip. */
  ghost predicate Fits(h: Hasher, env: Environment, t: TokenState, b: Block) {
    && AcceptsAll(env, t) && ValidChain(h, t.chain) && |t.chain| < t.securityLevel
    && h(b).Some? && b.previousHash == CachedTip(t.chain)
  }

  /**
   After the stale insert the store is ahead of the cache, and then both commits have been reported with the
   same sequence number while the store holds only the second block: the first report is lost.
   */
  lemma StaleInsertLosesCommit(h: Hasher, env: Environment, s: Shared, k: Bytes, first: Block, second: Block)
    requires Idle(s) && k in s.service.store
    requires Fits(h, env, s.service.store[k], first) && Fits(h, env, s.service.store[k], second)
    ensures
      var t, run := s.service.store[k], StaleRun(k, first, second);
      var last := ActAll(h, env, s, run);
      && !StoreBehindCache(h, env, ActAll(h, env, s, run[..7]).service)
      && last.reported == {(k, Grown(h, t, first)), (k, Grown(h, t, second))}
      && Holds(last.service.store, k, Grown(h, t, second))
      && (Stamped(h, first) != Stamped(h, second) ==>
            !NothingReportedLost(h, env, Tracked(last.service, last.reported)))
  {
    var t, run := s.service.store[k], StaleRun(k, first, second);
    FirstThreadCommits(h, env, s, k, first, second);
    assert run[..7] == run[..6] + [Insert(2)] && run == run[..7] + [run[7]];
    ActAllSnoc(h, env, s, run[..6], Insert(2));
    ActAllSnoc(h, env, s, run[..7], run[7]);
    var s7 := ActAll(h, env, s, run[..7]);
    assert s7.service.cache[k] == t && s7.service.store[k] == Grown(h, t, first);
    if StoreBehindCache(h, env, s7.service) {
      LaterSequence(h, env, Grown(h, t, first), t);
    }
    PlainCommit(h, env, t, second);
    FirstIsLost(h, env, t, first, second, Tracked(ActAll(h, env, s, run).service, ActAll(h, env, s, run).reported), k);
  }

  lemma FirstIsLost(h: Hasher, env: Environment, t: TokenState, first: Block, second: Block, s: Tracked, k: Bytes)
    requires Holds(s.service.store, k, Grown(h, t, second)) && (k, Grown(h, t, first)) in s.reported
    ensures Stamped(h, first) != Stamped(h, second) ==> !NothingReportedLost(h, env, s)
  {
    if NothingReportedLost(h, env, s) {
      LaterSequence(h, env, Grown(h, t, first), Grown(h, t, second));
      assert Grown(h, t, first).chain[|t.chain|] == Grown(h, t, second).chain[|t.chain|];
    }
  }

  lemma BothMiss(h: Hasher, env: Environment, s: Shared, k: Bytes, first: Block, second: Block)
    requires Idle(s)
    ensures ActAll(h, env, s, StaleRun(k, first, second)[..2]) == s.(missed := map[1 := k, 2 := k])
  {
    var run := StaleRun(k, first, second);
    assert run[..1] == [] + [run[0]] && run[..2] == run[..1] + [run[1]];
    ActAllSnoc(h, env, s, [], run[0]);
    ActAllSnoc(h, env, s, run[..1], run[1]);
    assert map[][1 := k][2 := k] == map[1 := k, 2 := k];
  }

  lemma BothLoad(h: Hasher, env: Environment, s: Shared, k: Bytes, first: Block, second: Block)
    requires Idle(s) && k in s.service.store
    ensures
      var s5 := ActAll(h, env, s, StaleRun(k, first, second)[..5]);
      && s5.service.store == s.service.store && Holds(s5.service.cache, k, s.service.store[k])
      && s5.reported == s.reported && 2 in s5.loaded && s5.loaded[2] == Loaded(k, s.service.store[k])
  {
    var run := StaleRun(k, first, second);
    BothMiss(h, env, s, k, first, second);
    assert run[..3] == run[..2] + [run[2]] && run[..4] == run[..3] + [run[3]] && run[..5] == run[..4] + [run[4]];
    ActAllSnoc(h, env, s, run[..2], run[2]);
    ActAllSnoc(h, env, s, run[..3], run[3]);
    ActAllSnoc(h, env, s, run[..4], run[4]);
  }

  lemma FirstThreadCommits(h: Hasher, env: Environment, s: Shared, k: Bytes, first: Block, second: Block)
    requires Idle(s) && k in s.service.store && Fits(h, env, s.service.store[k], first)
    ensures
      var t, s6 := s.service.store[k], ActAll(h, env, s, StaleRun(k, first, second)[..6]);
      && s6.reported == {(k, Grown(h, t, first))} && 2 in s6.loaded && s6.loaded[2] == Loaded(k, t)
      && Holds(s6.service.store, k, Grown(h, t, first))
  {
    var run := StaleRun(k, first, second);
    assert run[..6] == run[..5] + [run[5]];
    BothLoad(h, env, s, k, first, second);
    ActAllSnoc(h, env, s, run[..5], run[5]);
    PlainCommit(h, env, s.service.store[k], first);
  }
}
