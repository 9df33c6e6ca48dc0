/** When the order in which transactions arrive leaves no trace in the pool. */
module ArrivalOrder {
  import opened Primitives
  import opened TransactionPool
  import opened PoolRuns

  predicate OnlyEnqueues(ops: seq<PoolOp>) {
    forall i :: 0 <= i < |ops| ==> ops[i].Enq?
  }

  predicate Has(s: Tracked, id: string, e: Entry) {
    id in s.pool.index && s.pool.index[id] == e
  }

  /** With nothing outstanding, an admissible arrival is new to the index and adds just its own entry. */
  lemma ArrivalAdds(s: Tracked, arriving: string, entry: Entry, id: string, e: Entry)
    requires Good(s) && s.outstanding == {} && Admissible(s.pool, arriving, entry)
    ensures Step(s, Enq(arriving, entry)).outstanding == {}
    ensures Has(Step(s, Enq(arriving, entry)), id, e) <==> Has(s, id, e) || (id == arriving && e == entry)
  {
  }

  lemma InFrontOrLast(ops: seq<PoolOp>, op: PoolOp)
    requires ops != []
    ensures op in ops <==> op in ops[..|ops| - 1] || op == ops[|ops| - 1]
  {
    assert ops == ops[..|ops| - 1] + [ops[|ops| - 1]];
  }

  /** The index after a run of enqueues is the set of its arrivals. */
  lemma {:induction false} ArrivalsIndexed(ops: seq<PoolOp>, id: string, e: Entry)
    requires OnlyEnqueues(ops) && AdmissibleRun(START, ops)
    ensures RunOps(START, ops).outstanding == {}
    ensures Has(RunOps(START, ops), id, e) <==> Enq(id, e) in ops
  {
    if ops != [] {
      var front, last := ops[..|ops| - 1], ops[|ops| - 1];
      ArrivalsIndexed(front, id, e);
      RunKeepsGood(front);
      ArrivalAdds(RunOps(START, front), last.id, last.entry, id, e);
      InFrontOrLast(ops, Enq(id, e));
    }
  }

  predicate StrictlyKeyed(index: map<string, Entry>, q: seq<string>) {
    forall i, j :: 0 <= i < j < |q| ==> q[i] in index && q[j] in index && KeyLess(index[q[i]], index[q[j]])
  }

  /** Strictly increasing keys leave one order for a set of ids. */
  lemma {:induction false} KeyedUnique(index: map<string, Entry>, q: seq<string>, r: seq<string>)
    requires StrictlyKeyed(index, q) && StrictlyKeyed(index, r)
    requires forall x :: x in q <==> x in r
    ensures q == r
  {
    FirstMember(q);
    FirstMember(r);
    if q != [] {
      var i :| 0 <= i < |r| && r[i] == q[0];
      var j :| 0 <= j < |q| && q[j] == r[0];
      assert i == 0 || j == 0;
      assert q[0] == r[0];
      forall x ensures x in q[1..] <==> x in r[1..] {
        TailMember(index, q, x);
        TailMember(index, r, x);
      }
      KeyedUnique(index, q[1..], r[1..]);
      assert q == [q[0]] + q[1..] && r == [r[0]] + r[1..];
    }
  }

  lemma FirstMember(q: seq<string>)
    ensures q != [] ==> q[0] in q
  {
  }

  lemma TailMember(index: map<string, Entry>, q: seq<string>, x: string)
    requires StrictlyKeyed(index, q) && q != []
    ensures x in q[1..] <==> x in q && x != q[0]
  {
    if x in q && x != q[0] {
      var i :| 0 <= i < |q| && q[i] == x;
      assert q[1..][i - 1] == x;
    }
  }

  /** No two queued ids of a token share sequence number and timestamp. */
  predicate DistinctKeys(p: Pool) {
    forall a, b :: a in Queued(p.pools) && b in Queued(p.pools) && a != b && SameToken(p, a, b) ==>
      KeyLess(p.index[a], p.index[b]) || KeyLess(p.index[b], p.index[a])
  }

  predicate SameToken(p: Pool, a: string, b: string) {
    a in p.index && b in p.index && p.index[a].tokenId == p.index[b].tokenId
  }

  /** A queue holds the queued ids of its token, in strictly increasing keys. */
  lemma GoodQueueKeyed(s: Tracked, t: Bytes)
    requires Good(s) && DistinctKeys(s.pool)
    ensures StrictlyKeyed(s.pool.index, Queue(s.pool, t))
    ensures forall x :: x in Queue(s.pool, t) <==>
              x in Queued(s.pool.pools) && x in s.pool.index && s.pool.index[x].tokenId == t
  {
    var q := Queue(s.pool, t);
    forall i | 0 <= i < |q| ensures q[i] in Queued(s.pool.pools) { InQueue(s.pool.pools, t, i); }
    forall i, j | 0 <= i < j < |q|
      ensures q[i] in s.pool.index && q[j] in s.pool.index && KeyLess(s.pool.index[q[i]], s.pool.index[q[j]])
    {
      assert Ranks(s, q[i], q[j]) && q[i] != q[j];
    }
    forall x | x in Queued(s.pool.pools) && x in s.pool.index && s.pool.index[x].tokenId == t ensures x in q {
      QueuedSplit(s.pool.pools, t, x);
      if Elsewhere(s.pool.pools, t, x) { OneQueue(s.pool, t, x); }
    }
  }

  /** The same ids are queued with the same entries. */
  predicate SameQueued(p: Pool, p': Pool) {
    && Queued(p.pools) == Queued(p'.pools)
    && forall x :: x in Queued(p.pools) && x in p.index && x in p'.index ==> p.index[x] == p'.index[x]
  }

  lemma SameKeyed(index: map<string, Entry>, index': map<string, Entry>, q: seq<string>)
    requires StrictlyKeyed(index, q)
    requires forall x :: x in q ==> x in index && x in index' && index[x] == index'[x]
    ensures StrictlyKeyed(index', q)
  {
  }

  lemma QueuedIndexed(s: Tracked, x: string)
    requires Good(s) && x in Queued(s.pool.pools)
    ensures x in s.pool.index
  {
  }

  lemma SameQueue(s: Tracked, s': Tracked, t: Bytes)
    requires Good(s) && Good(s') && SameQueued(s.pool, s'.pool) && DistinctKeys(s.pool) && DistinctKeys(s'.pool)
    ensures Queue(s.pool, t) == Queue(s'.pool, t)
  {
    GoodQueueKeyed(s, t);
    GoodQueueKeyed(s', t);
    forall x | x in Queue(s'.pool, t) ensures x in s.pool.index && s.pool.index[x] == s'.pool.index[x] {
      QueuedIndexed(s, x);
    }
    SameKeyed(s'.pool.index, s.pool.index, Queue(s'.pool, t));
    forall x ensures x in Queue(s.pool, t) <==> x in Queue(s'.pool, t) {
      if x in Queued(s.pool.pools) {
        QueuedIndexed(s, x);
        QueuedIndexed(s', x);
      }
    }
    KeyedUnique(s.pool.index, Queue(s.pool, t), Queue(s'.pool, t));
  }

  /**
   However they came about, with removals and outstanding ids: two good pools with the same queued ids and entries
   and distinct keys among them have identical queues.
   */
  lemma QueuedDeterminesQueues(s: Tracked, s': Tracked)
    requires Good(s) && Good(s') && SameQueued(s.pool, s'.pool) && DistinctKeys(s.pool)
    ensures s.pool.pools == s'.pool.pools
  {
    forall x | x in Queued(s.pool.pools) ensures x in s.pool.index && x in s'.pool.index {
      QueuedIndexed(s, x);
      QueuedIndexed(s', x);
    }
    assert DistinctKeys(s'.pool);
    forall t ensures Queue(s.pool, t) == Queue(s'.pool, t) { SameQueue(s, s', t); }
    SameQueues(s.pool, s'.pool);
  }

  lemma SameQueues(p: Pool, p': Pool)
    requires Indexed(p) && Indexed(p') && forall t :: Queue(p, t) == Queue(p', t)
    ensures p.pools == p'.pools
  {
    forall t ensures t in p.pools <==> t in p'.pools { assert Queue(p, t) == Queue(p', t); }
    forall t | t in p.pools ensures p.pools[t] == p'.pools[t] { assert Queue(p, t) == Queue(p', t); }
  }

  /** Two runs that enqueue the same transactions, with distinct keys per token, end in the same pool. */
  lemma ArrivalOrderIrrelevant(ops: seq<PoolOp>, ops': seq<PoolOp>)
    requires OnlyEnqueues(ops) && AdmissibleRun(START, ops)
    requires OnlyEnqueues(ops') && AdmissibleRun(START, ops')
    requires forall op :: op in ops <==> op in ops'
    requires DistinctKeys(RunOps(START, ops).pool)
    ensures RunOps(START, ops).pool == RunOps(START, ops').pool
  {
    RunKeepsGood(ops);
    RunKeepsGood(ops');
    SameIndex(ops, ops');
    ArrivalsIndexed(ops, "", Entry([], 0, 0, []));
    ArrivalsIndexed(ops', "", Entry([], 0, 0, []));
    QueuedDeterminesQueues(RunOps(START, ops), RunOps(START, ops'));
  }

  /** The index holds exactly the entries that the run enqueued. */
  ghost predicate IndexIs(s: Tracked, ops: seq<PoolOp>) {
    forall id, e :: Has(s, id, e) <==> Enq(id, e) in ops
  }

  lemma RunIndexIs(ops: seq<PoolOp>)
    requires OnlyEnqueues(ops) && AdmissibleRun(START, ops)
    ensures IndexIs(RunOps(START, ops), ops)
  {
    forall id, e ensures Has(RunOps(START, ops), id, e) <==> Enq(id, e) in ops { ArrivalsIndexed(ops, id, e); }
  }

  lemma SameIndexOf(s: Tracked, s': Tracked, ops: seq<PoolOp>, ops': seq<PoolOp>)
    requires IndexIs(s, ops) && IndexIs(s', ops') && forall op :: op in ops <==> op in ops'
    ensures s.pool.index == s'.pool.index
  {
    var m, m' := s.pool.index, s'.pool.index;
    forall id | id in m ensures id in m' && m'[id] == m[id] { assert Has(s, id, m[id]) && Has(s', id, m[id]); }
    forall id | id in m' ensures id in m { assert Has(s', id, m'[id]) && Has(s, id, m'[id]); }
  }

  lemma SameIndex(ops: seq<PoolOp>, ops': seq<PoolOp>)
    requires OnlyEnqueues(ops) && AdmissibleRun(START, ops)
    requires OnlyEnqueues(ops') && AdmissibleRun(START, ops')
    requires forall op :: op in ops <==> op in ops'
    ensures RunOps(START, ops).pool.index == RunOps(START, ops').pool.index
  {
    RunIndexIs(ops);
    RunIndexIs(ops');
    SameIndexOf(RunOps(START, ops), RunOps(START, ops'), ops, ops');
  }
}
