/** What every run of the pool keeps: order, conservation of ids, and independence from arrival order. */
module PoolRuns {
  import opened Primitives
  import opened Ordering
  import opened TransactionPool

  // ----- which ids are where -----

  function Queued(pools: map<Bytes, seq<string>>): set<string> {
    set t, id | t in pools && id in pools[t] :: id
  }

  /** Queues are never empty and hold each id once, under the token its index entry names. */
  ghost predicate Indexed(p: Pool) {
    forall t :: t in p.pools ==>
      && p.pools[t] != [] && Distinct(p.pools[t])
      && forall i :: 0 <= i < |p.pools[t]| ==> p.pools[t][i] in p.index && p.index[p.pools[t][i]].tokenId == t
  }

  /** A pool with the ids drained but not removed, and when each id last arrived. */
  datatype Tracked = Tracked(pool: Pool, outstanding: set<string>, arrival: map<string, nat>, clock: nat)

  /** The index is the disjoint union of the queued and the outstanding ids. */
  predicate Conserved(s: Tracked) {
    s.pool.index.Keys == Queued(s.pool.pools) + s.outstanding && Queued(s.pool.pools) !! s.outstanding
  }

  // ----- order -----

  /** `a` is served before `b`: smaller key, or the same key and an earlier arrival. */
  predicate Ranks(s: Tracked, a: string, b: string) {
    && a in s.pool.index && b in s.pool.index && a in s.arrival && b in s.arrival
    && (KeyLess(s.pool.index[a], s.pool.index[b])
        || (!KeyLess(s.pool.index[b], s.pool.index[a]) && s.arrival[a] < s.arrival[b]))
  }

  predicate OrderedQueue(s: Tracked, q: seq<string>) {
    && (forall i :: 0 <= i < |q| ==> q[i] in s.arrival && s.arrival[q[i]] < s.clock)
    && forall i, j :: 0 <= i < j < |q| ==> Ranks(s, q[i], q[j])
  }

  predicate Ordered(s: Tracked) {
    forall t :: t in s.pool.pools ==> OrderedQueue(s, s.pool.pools[t])
  }

  ghost predicate Good(s: Tracked) {
    Indexed(s.pool) && Conserved(s) && Ordered(s)
  }

  // ----- steps -----

  datatype PoolOp = Enq(id: string, entry: Entry) | Rem(removed: string) | Deq(token: Bytes, n: nat)

  ghost function Step(s: Tracked, op: PoolOp): Tracked {
    match op
    case Enq(id, e) =>
      Tracked(Enqueue(s.pool, id, e), s.outstanding - {id}, s.arrival[id := s.clock], s.clock + 1)
    case Rem(id) => s.(pool := Remove(s.pool, id).0, outstanding := s.outstanding - {id})
    case Deq(t, n) =>
      var (p, ids) := Dequeue(s.pool, t, n);
      s.(pool := p, outstanding := s.outstanding + Elements(ids))
  }

  predicate SameNonce(a: Entry, b: Entry) {
    a.sender == b.sender && a.sequenceNumber == b.sequenceNumber
  }

  /** Queued id `i` is the first with a larger key than the entry. */
  predicate FirstLarger(index: map<string, Entry>, q: seq<string>, e: Entry, i: nat) {
    && i < |q| && q[i] in index && KeyLess(e, index[q[i]])
    && forall j :: 0 <= j < i ==> q[j] in index ==> !KeyLess(e, index[q[j]])
  }

  /** The first queued entry with a larger key has the sender and nonce of the new one. */
  predicate Clash(index: map<string, Entry>, q: seq<string>, e: Entry) {
    exists i :: 0 <= i < |q| && FirstLarger(index, q, e, i) && SameNonce(index[q[i]], e)
  }

  /** An arriving id is not queued already, and would not be put behind a larger key of its own sender and nonce. */
  predicate Admissible(p: Pool, id: string, e: Entry) {
    id !in Queued(p.pools) && !Clash(p.index, Queue(p, e.tokenId), e)
  }

  /** The rule of the registry: the nonce is not queued for that sender and token. */
  predicate NonceRule(p: Pool, e: Entry) {
    forall i :: 0 <= i < |Queue(p, e.tokenId)| ==>
      var x := Queue(p, e.tokenId)[i];
      x in p.index ==> !SameNonce(p.index[x], e)
  }

  /** Under that rule an arrival is admissible when its id is new to the queues. */
  lemma NonceRuleAdmits(p: Pool, id: string, e: Entry)
    requires NonceRule(p, e) && id !in Queued(p.pools)
    ensures Admissible(p, id, e)
  {
  }

  ghost function RunOps(s: Tracked, ops: seq<PoolOp>): Tracked {
    if ops == [] then s else Step(RunOps(s, ops[..|ops| - 1]), ops[|ops| - 1])
  }

  /** Every arrival is admissible in the pool it meets. */
  ghost predicate AdmissibleRun(s: Tracked, ops: seq<PoolOp>) {
    ops == [] ||
    var front, last := ops[..|ops| - 1], ops[|ops| - 1];
    AdmissibleRun(s, front) && (last.Enq? ==> Admissible(RunOps(s, front).pool, last.id, last.entry))
  }

  const START: Tracked := Tracked(EMPTY, {}, map[], 0)

  // ----- enqueue -----

  /** The source's two-case test is the plain key order except on a larger timestamp under the same sender and nonce. */
  lemma GoesBeforeIsKeyOrder(e: Entry, x: Entry)
    ensures GoesBefore(e, x) ==> KeyLess(e, x)
    ensures (GoesBefore(e, x) <==> KeyLess(e, x)) <==> !(SameNonce(x, e) && e.timestamp < x.timestamp)
  {
  }

  predicate IdsIndexed(s: Tracked, q: seq<string>) {
    forall i :: 0 <= i < |q| ==> q[i] in s.pool.index
  }

  predicate KeyOrdered(index: map<string, Entry>, q: seq<string>) {
    && (forall i :: 0 <= i < |q| ==> q[i] in index)
    && forall i, j :: 0 <= i < j < |q| ==> !KeyLess(index[q[j]], index[q[i]])
  }

  lemma {:induction false} FindFirstLarger(index: map<string, Entry>, q: seq<string>, e: Entry, i: nat) returns (j: nat)
    requires i < |q| && q[i] in index && KeyLess(e, index[q[i]])
    ensures j <= i && FirstLarger(index, q, e, j)
  {
    if k: nat :| k < i && q[k] in index && KeyLess(e, index[q[k]]) {
      j := FindFirstLarger(index, q, e, k);
    } else {
      j := i;
    }
  }

  /** The scan passes a larger key only at a clash. */
  lemma PassedIsClash(index: map<string, Entry>, q: seq<string>, e: Entry, i: nat)
    requires i < Position(index, q, e) && KeyOrdered(index, q) && KeyLess(e, index[q[i]])
    ensures Clash(index, q, e)
  {
    var j := FindFirstLarger(index, q, e, i);
    assert !StopsAt(index, q[j], e);
  }

  /** Nothing left of the insertion point goes after the new entry, everything right of it does. */
  lemma PositionSplits(index: map<string, Entry>, q: seq<string>, e: Entry)
    requires !Clash(index, q, e) && KeyOrdered(index, q)
    ensures
      var k := Position(index, q, e);
      && (forall i :: 0 <= i < k ==> !KeyLess(e, index[q[i]]))
      && (forall i :: k <= i < |q| ==> KeyLess(e, index[q[i]]))
  {
    var k := Position(index, q, e);
    forall i | 0 <= i < k ensures !KeyLess(e, index[q[i]]) {
      if KeyLess(e, index[q[i]]) { PassedIsClash(index, q, e, i); }
    }
    if k < |q| {
      assert StopsAt(index, q[k], e);
      GoesBeforeIsKeyOrder(e, index[q[k]]);
    }
  }

  /** A clash puts the new entry behind the larger key. */
  lemma ClashPassed(index: map<string, Entry>, q: seq<string>, e: Entry) returns (i: nat)
    requires Clash(index, q, e) && KeyOrdered(index, q)
    ensures i < Position(index, q, e) && KeyLess(e, index[q[i]])
  {
    i :| i < |q| && FirstLarger(index, q, e, i) && SameNonce(index[q[i]], e);
    forall j | 0 <= j <= i ensures !StopsAt(index, q[j], e) { GoesBeforeIsKeyOrder(e, index[q[j]]); }
  }

  /** An ordered queue stays ordered when only ids outside it change. */
  lemma OrderedElsewhere(s: Tracked, s': Tracked, q: seq<string>)
    requires OrderedQueue(s, q) && s.clock <= s'.clock
    requires forall i :: 0 <= i < |q| && q[i] in s.pool.index ==>
               q[i] in s'.pool.index && s'.pool.index[q[i]] == s.pool.index[q[i]]
    requires forall i :: 0 <= i < |q| ==> q[i] in s'.arrival && s'.arrival[q[i]] == s.arrival[q[i]]
    ensures OrderedQueue(s', q)
  {
    forall i, j | 0 <= i < j < |q| ensures Ranks(s', q[i], q[j]) { assert Ranks(s, q[i], q[j]); }
  }

  lemma InsertRanks(s: Tracked, q: seq<string>, k: nat, id: string)
    requires k <= |q| && forall i, j :: 0 <= i < j < |q| ==> Ranks(s, q[i], q[j])
    requires forall i :: 0 <= i < |q| ==> if i < k then Ranks(s, q[i], id) else Ranks(s, id, q[i])
    ensures var r := InsertAt(q, k, id); forall i, j :: 0 <= i < j < |r| ==> Ranks(s, r[i], r[j])
  {
    var r := InsertAt(q, k, id);
    forall i, j | 0 <= i < j < |r| ensures Ranks(s, r[i], r[j]) {
      var i', j' := if i < k then i else i - 1, if j < k then j else j - 1;
      if i == k {
        assert Ranks(s, id, q[j']);
      } else if j == k {
        assert Ranks(s, q[i'], id);
      } else {
        assert Ranks(s, q[i'], q[j']);
      }
    }
  }

  lemma InsertKeepsOrdered(s: Tracked, q: seq<string>, id: string, e: Entry)
    requires OrderedQueue(s, q) && id !in q && IdsIndexed(s, q) && !Clash(s.pool.index, q, e)
    requires id in s.pool.index && s.pool.index[id] == e && id in s.arrival
    requires s.arrival[id] < s.clock && forall i :: 0 <= i < |q| ==> s.arrival[q[i]] < s.arrival[id]
    ensures OrderedQueue(s, InsertAt(q, Position(s.pool.index, q, e), id))
  {
    var index := s.pool.index;
    forall i, j | 0 <= i < j < |q| ensures !KeyLess(index[q[j]], index[q[i]]) { assert Ranks(s, q[i], q[j]); }
    PositionSplits(index, q, e);
    var k := Position(index, q, e);
    var r := InsertAt(q, k, id);
    forall i | 0 <= i < |q| ensures if i < k then Ranks(s, q[i], id) else Ranks(s, id, q[i]) {}
    InsertRanks(s, q, k, id);
  }

  lemma EnqueueKeepsOrdered(s: Tracked, id: string, e: Entry)
    requires Good(s) && Admissible(s.pool, id, e)
    ensures Ordered(Step(s, Enq(id, e)))
  {
    var s' := Step(s, Enq(id, e));
    forall t | t in s.pool.pools ensures OrderedQueue(s', s.pool.pools[t]) && id !in s.pool.pools[t] {
      NotQueued(s.pool.pools, t, id);
      OrderedElsewhere(s, s', s.pool.pools[t]);
    }
    var q := Queue(s.pool, e.tokenId);
    SameClash(s.pool.index, s'.pool.index, q, e);
    InsertKeepsOrdered(s', q, id, e);
  }

  lemma SameClash(index: map<string, Entry>, index': map<string, Entry>, q: seq<string>, e: Entry)
    requires forall i :: 0 <= i < |q| ==> q[i] in index && q[i] in index' && index[q[i]] == index'[q[i]]
    ensures Clash(index, q, e) <==> Clash(index', q, e)
  {
    if Clash(index, q, e) {
      var i :| 0 <= i < |q| && FirstLarger(index, q, e, i) && SameNonce(index[q[i]], e);
      assert FirstLarger(index', q, e, i);
    }
    if Clash(index', q, e) {
      var i :| 0 <= i < |q| && FirstLarger(index', q, e, i) && SameNonce(index'[q[i]], e);
      assert FirstLarger(index, q, e, i);
    }
  }

  lemma NotQueued(pools: map<Bytes, seq<string>>, t: Bytes, id: string)
    requires id !in Queued(pools) && t in pools
    ensures id !in pools[t]
  {
  }

  // ----- ids -----

  predicate Elsewhere(pools: map<Bytes, seq<string>>, t: Bytes, x: string) {
    exists u :: u in pools && u != t && x in pools[u]
  }

  lemma QueuedSplit(pools: map<Bytes, seq<string>>, t: Bytes, x: string)
    ensures x in Queued(pools) <==> (t in pools && x in pools[t]) || Elsewhere(pools, t, x)
  {
  }

  lemma QueuedPut(pools: map<Bytes, seq<string>>, t: Bytes, q: seq<string>, x: string)
    ensures x in Queued(PutQueue(pools, t, q)) <==> x in q || Elsewhere(pools, t, x)
  {
    var r := PutQueue(pools, t, q);
    QueuedSplit(r, t, x);
    if Elsewhere(pools, t, x) {
      var u :| u in pools && u != t && x in pools[u];
      assert u in r && x in r[u];
    }
    if Elsewhere(r, t, x) {
      var u :| u in r && u != t && x in r[u];
      assert u in pools && x in pools[u];
    }
  }

  /** An id sits in one queue only. */
  lemma OneQueue(p: Pool, t: Bytes, x: string)
    requires Indexed(p) && x in p.index && Elsewhere(p.pools, t, x)
    ensures p.index[x].tokenId != t
  {
    var u :| u in p.pools && u != t && x in p.pools[u];
    var i :| 0 <= i < |p.pools[u]| && p.pools[u][i] == x;
  }

  lemma NowhereElse(p: Pool, t: Bytes, x: string)
    requires Indexed(p) && t in p.pools && x in p.pools[t]
    ensures !Elsewhere(p.pools, t, x)
  {
    var i :| 0 <= i < |p.pools[t]| && p.pools[t][i] == x;
    if Elsewhere(p.pools, t, x) { OneQueue(p, t, x); }
  }

  lemma InsertAtElems(q: seq<string>, k: nat, id: string)
    requires k <= |q|
    ensures forall x :: x in InsertAt(q, k, id) <==> x == id || x in q
    ensures Distinct(q) && id !in q ==> Distinct(InsertAt(q, k, id))
  {
    forall x ensures x in InsertAt(q, k, id) <==> x == id || x in q {
      assert q == q[..k] + q[k..];
    }
  }

  lemma EnqueueKeepsConserved(s: Tracked, id: string, e: Entry)
    requires Good(s) && Admissible(s.pool, id, e)
    ensures Conserved(Step(s, Enq(id, e)))
  {
    var s', q := Step(s, Enq(id, e)), Queue(s.pool, e.tokenId);
    var k := Position(s'.pool.index, q, e);
    InsertAtElems(q, k, id);
    forall x ensures x in Queued(s'.pool.pools) <==> x == id || x in Queued(s.pool.pools) {
      QueuedSplit(s.pool.pools, e.tokenId, x);
      QueuedPut(s.pool.pools, e.tokenId, InsertAt(q, k, id), x);
    }
  }

  lemma EnqueueKeepsIndexed(s: Tracked, id: string, e: Entry)
    requires Good(s) && Admissible(s.pool, id, e)
    ensures Indexed(Step(s, Enq(id, e)).pool)
  {
    var s', q := Step(s, Enq(id, e)), Queue(s.pool, e.tokenId);
    var k := Position(s'.pool.index, q, e);
    InsertAtElems(q, k, id);
    forall t | t in s.pool.pools ensures id !in s.pool.pools[t] { NotQueued(s.pool.pools, t, id); }
    var r := InsertAt(q, k, id);
    forall i | 0 <= i < |r| ensures r[i] in s'.pool.index && s'.pool.index[r[i]].tokenId == e.tokenId {
      assert r[i] == id || r[i] in q;
    }
  }

  // ----- remove and dequeue -----

  /** `r` comes from `q` by leaving positions out. */
  ghost predicate Selects(q: seq<string>, r: seq<string>, at: seq<nat>) {
    && |at| == |r| && (forall i :: 0 <= i < |r| ==> at[i] < |q| && r[i] == q[at[i]])
    && forall i, j :: 0 <= i < j < |r| ==> at[i] < at[j]
  }

  lemma SelectsKeeps(s: Tracked, q: seq<string>, r: seq<string>, at: seq<nat>)
    requires Selects(q, r, at)
    ensures Distinct(q) ==> Distinct(r)
    ensures OrderedQueue(s, q) ==> OrderedQueue(s, r)
    ensures forall x :: x in r ==> x in q
  {
  }

  function Shifted(at: seq<nat>): (r: seq<nat>)
    ensures |r| == |at| && forall i :: 0 <= i < |at| ==> r[i] == at[i] + 1
  {
    seq(|at|, i requires 0 <= i < |at| => at[i] + 1)
  }

  lemma SelectsShifted(q: seq<string>, r: seq<string>, at: seq<nat>)
    requires q != [] && Selects(q[1..], r, at)
    ensures Selects(q, r, Shifted(at)) && Selects(q, [q[0]] + r, [0] + Shifted(at))
  {
    var r', at' := [q[0]] + r, [0] + Shifted(at);
    forall i | 0 <= i < |r'| ensures at'[i] < |q| && r'[i] == q[at'[i]] {
      if i > 0 { assert r[i - 1] == q[1..][at[i - 1]]; }
    }
    forall i, j | 0 <= i < j < |r'| ensures at'[i] < at'[j] {
      if i > 0 { assert at[i - 1] < at[j - 1]; }
    }
  }

  lemma {:induction false} RetainSelects(q: seq<string>, id: string) returns (at: seq<nat>)
    ensures Selects(q, Retain(q, id), at)
  {
    if q == [] {
      at := [];
    } else {
      var rest := RetainSelects(q[1..], id);
      at := if q[0] == id then Shifted(rest) else [0] + Shifted(rest);
      SelectsShifted(q, Retain(q[1..], id), rest);
    }
  }

  lemma {:induction false} RetainElems(q: seq<string>, id: string, x: string)
    ensures x in Retain(q, id) <==> x in q && x != id
  {
    if q != [] { RetainElems(q[1..], id, x); }
  }

  lemma RestSelects(q: seq<string>, n: nat) returns (at: seq<nat>)
    ensures Selects(q, Rest(q, n), at)
  {
    at := seq(|Rest(q, n)|, i => i + n);
  }

  /** The pool after one queue has shrunk to a selection of itself, with a new index. */
  function Shrunk(p: Pool, t: Bytes, r: seq<string>, index: map<string, Entry>): Pool {
    Pool(PutQueue(p.pools, t, r), index)
  }

  /** The new index still has the old entry of every id that stays queued. */
  predicate KeepsEntries(p: Pool, t: Bytes, r: seq<string>, index: map<string, Entry>) {
    forall x :: x in Queued(PutQueue(p.pools, t, r)) && x in p.index ==> x in index && index[x] == p.index[x]
  }

  lemma InQueue(pools: map<Bytes, seq<string>>, t: Bytes, i: nat)
    requires t in pools && i < |pools[t]|
    ensures pools[t][i] in Queued(pools)
  {
    assert pools[t][i] in pools[t];
  }

  lemma ShrinkKeepsIndexed(p: Pool, t: Bytes, r: seq<string>, at: seq<nat>, index: map<string, Entry>)
    requires Indexed(p) && t in p.pools && Selects(p.pools[t], r, at) && KeepsEntries(p, t, r, index)
    ensures Indexed(Shrunk(p, t, r, index))
  {
    var p' := Shrunk(p, t, r, index);
    SelectsKeeps(START, p.pools[t], r, at);
    forall u, i | u in p'.pools && 0 <= i < |p'.pools[u]|
      ensures p'.pools[u][i] in index && index[p'.pools[u][i]].tokenId == u
    {
      var x := p'.pools[u][i];
      InQueue(p'.pools, u, i);
      var j := if u == t then at[i] else i;
      assert p.pools[u][j] == x;
    }
  }

  lemma ShrinkKeepsOrdered(s: Tracked, t: Bytes, r: seq<string>, at: seq<nat>, index: map<string, Entry>,
                           out: set<string>)
    requires Indexed(s.pool) && Ordered(s)
    requires t in s.pool.pools && Selects(s.pool.pools[t], r, at) && KeepsEntries(s.pool, t, r, index)
    ensures Ordered(s.(pool := Shrunk(s.pool, t, r, index), outstanding := out))
  {
    var s' := s.(pool := Shrunk(s.pool, t, r, index), outstanding := out);
    forall u | u in s'.pool.pools ensures OrderedQueue(s', s'.pool.pools[u]) {
      var q := s'.pool.pools[u];
      if u == t { SelectsKeeps(s, s.pool.pools[t], r, at); }
      forall i | 0 <= i < |q| ensures q[i] in Queued(s'.pool.pools) { InQueue(s'.pool.pools, u, i); }
      OrderedElsewhere(s, s', q);
    }
  }

  lemma RemoveKeepsGood(s: Tracked, id: string)
    requires Good(s)
    ensures Good(Step(s, Rem(id)))
  {
    if id in s.pool.index {
      var t := s.pool.index[id].tokenId;
      var s' := Step(s, Rem(id));
      forall x ensures x in Queued(s'.pool.pools) <==> x in Queued(s.pool.pools) && x != id {
        QueuedSplit(s.pool.pools, t, x);
        if t in s.pool.pools {
          RetainElems(s.pool.pools[t], id, x);
          QueuedPut(s.pool.pools, t, Retain(s.pool.pools[t], id), x);
        }
        if x == id && Elsewhere(s.pool.pools, t, id) { OneQueue(s.pool, t, id); }
      }
      if t in s.pool.pools {
        var at := RetainSelects(s.pool.pools[t], id);
        ShrinkKeepsIndexed(s.pool, t, Retain(s.pool.pools[t], id), at, s'.pool.index);
        ShrinkKeepsOrdered(s, t, Retain(s.pool.pools[t], id), at, s'.pool.index, s'.outstanding);
      } else {
        assert id !in Queued(s.pool.pools);
        UnqueuedRemoval(s, id);
      }
    }
  }

  /** Removing an id that is not queued leaves the queues as they are. */
  lemma UnqueuedRemoval(s: Tracked, id: string)
    requires Good(s) && id in s.pool.index && s.pool.index[id].tokenId !in s.pool.pools
    requires id !in Queued(s.pool.pools)
    ensures Indexed(Step(s, Rem(id)).pool) && Ordered(Step(s, Rem(id)))
  {
    var s' := Step(s, Rem(id));
    forall t | t in s.pool.pools ensures OrderedQueue(s', s.pool.pools[t]) {
      NotQueued(s.pool.pools, t, id);
      OrderedElsewhere(s, s', s.pool.pools[t]);
    }
    forall t, i | t in s.pool.pools && 0 <= i < |s.pool.pools[t]| ensures s.pool.pools[t][i] != id {
      NotQueued(s.pool.pools, t, id);
    }
  }

  lemma TakeRest(q: seq<string>, n: nat, x: string)
    requires Distinct(q)
    ensures x in q <==> x in Take(q, n) || x in Rest(q, n)
    ensures !(x in Take(q, n) && x in Rest(q, n))
  {
    if n <= |q| { assert q == q[..n] + q[n..]; }
  }

  lemma DequeueKeepsGood(s: Tracked, t: Bytes, n: nat)
    requires Good(s)
    ensures Good(Step(s, Deq(t, n)))
  {
    if t in s.pool.pools {
      var q := s.pool.pools[t];
      var s' := Step(s, Deq(t, n));
      forall x
        ensures x in Queued(s'.pool.pools) <==> x in Queued(s.pool.pools) && x !in Take(q, n)
        ensures x in Take(q, n) ==> x in Queued(s.pool.pools)
      {
        QueuedSplit(s.pool.pools, t, x);
        QueuedPut(s.pool.pools, t, Rest(q, n), x);
        TakeRest(q, n, x);
        if x in q { NowhereElse(s.pool, t, x); }
      }
      var at := RestSelects(q, n);
      ShrinkKeepsIndexed(s.pool, t, Rest(q, n), at, s.pool.index);
      ShrinkKeepsOrdered(s, t, Rest(q, n), at, s.pool.index, s'.outstanding);
    }
  }

  // ----- runs -----

  lemma StepKeepsGood(s: Tracked, op: PoolOp)
    requires Good(s) && (op.Enq? ==> Admissible(s.pool, op.id, op.entry))
    ensures Good(Step(s, op))
  {
    match op
    case Enq(id, e) =>
      EnqueueKeepsOrdered(s, id, e);
      EnqueueKeepsConserved(s, id, e);
      EnqueueKeepsIndexed(s, id, e);
    case Rem(id) => RemoveKeepsGood(s, id);
    case Deq(t, n) => DequeueKeepsGood(s, t, n);
  }

  /**
   After every admissible run: each queue is ordered by sequence number, then timestamp, then arrival; each id
   is queued at most once and under its own token; and the index is exactly the queued ids plus the drained
   ones not yet removed.
   */
  lemma {:induction false} RunKeepsGood(ops: seq<PoolOp>)
    requires AdmissibleRun(START, ops)
    ensures Good(RunOps(START, ops))
  {
    if ops != [] {
      var front := ops[..|ops| - 1];
      RunKeepsGood(front);
      StepKeepsGood(RunOps(START, front), ops[|ops| - 1]);
    }
  }

  // ----- admissibility is exact -----

  /** An id that is queued already would sit in a queue twice, or under a token its new entry does not name. */
  lemma RequeuedIsBad(s: Tracked, id: string, e: Entry)
    requires Good(s) && id in Queued(s.pool.pools)
    ensures !Indexed(Step(s, Enq(id, e)).pool)
  {
    var s', q := Step(s, Enq(id, e)), Queue(s.pool, e.tokenId);
    var k := Position(s'.pool.index, q, e);
    var t :| t in s.pool.pools && id in s.pool.pools[t];
    var i :| 0 <= i < |s.pool.pools[t]| && s.pool.pools[t][i] == id;
    if t == e.tokenId {
      TwiceIsNotDistinct(q, k, i);
      assert !Distinct(s'.pool.pools[t]);
    } else {
      assert s'.pool.pools[t] == s.pool.pools[t] && s'.pool.index[id].tokenId != t;
    }
  }

  lemma TwiceIsNotDistinct(q: seq<string>, k: nat, i: nat)
    requires k <= |q| && i < |q|
    ensures !Distinct(InsertAt(q, k, q[i]))
  {
    var r, j := InsertAt(q, k, q[i]), if i < k then i else i + 1;
    assert r[k] == q[i] && r[j] == q[i];
  }

  lemma ClashIsBad(s: Tracked, id: string, e: Entry)
    requires Good(s) && id !in Queued(s.pool.pools) && Clash(s.pool.index, Queue(s.pool, e.tokenId), e)
    ensures !Ordered(Step(s, Enq(id, e)))
  {
    var s', q := Step(s, Enq(id, e)), Queue(s.pool, e.tokenId);
    var index := s'.pool.index;
    forall t | t in s.pool.pools ensures id !in s.pool.pools[t] { NotQueued(s.pool.pools, t, id); }
    SameClash(s.pool.index, index, q, e);
    assert KeyOrdered(index, q) by {
      forall i, j | 0 <= i < j < |q| ensures !KeyLess(index[q[j]], index[q[i]]) { assert Ranks(s, q[i], q[j]); }
    }
    var i := ClashPassed(index, q, e);
    var k := Position(index, q, e);
    var r := InsertAt(q, k, id);
    assert r[i] == q[i] && r[k] == id && s'.pool.pools[e.tokenId] == r;
    assert !Ranks(s', r[i], r[k]);
  }

  /** A step keeps the pool good exactly when it is not an inadmissible arrival. */
  lemma StepGoodExactly(s: Tracked, op: PoolOp)
    requires Good(s)
    ensures Good(Step(s, op)) <==> (op.Enq? ==> Admissible(s.pool, op.id, op.entry))
  {
    if op.Enq? && !Admissible(s.pool, op.id, op.entry) {
      if op.id in Queued(s.pool.pools) { RequeuedIsBad(s, op.id, op.entry); } else { ClashIsBad(s, op.id, op.entry); }
    } else {
      StepKeepsGood(s, op);
    }
  }

  ghost predicate AlwaysGood(ops: seq<PoolOp>) {
    Good(RunOps(START, ops)) && (ops != [] ==> AlwaysGood(ops[..|ops| - 1]))
  }

  /** The pool is good throughout a run exactly when every arrival of the run is admissible. */
  lemma {:induction false} RunGoodExactly(ops: seq<PoolOp>)
    ensures AlwaysGood(ops) <==> AdmissibleRun(START, ops)
  {
    if ops != [] {
      var front := ops[..|ops| - 1];
      RunGoodExactly(front);
      if AdmissibleRun(START, front) {
        RunKeepsGood(front);
        StepGoodExactly(RunOps(START, front), ops[|ops| - 1]);
      }
    } else {
      RunKeepsGood(ops);
    }
  }

  // ----- counting -----

  /** The lengths of all queues together. */
  ghost function SumLens(pools: map<Bytes, seq<string>>): nat
    decreases |pools|
  {
    if pools == map[] then 0
    else
      var t :| t in pools;
      assert (pools - {t}).Keys == pools.Keys - {t} && |pools.Keys - {t}| == |pools.Keys| - 1;
      |pools[t]| + SumLens(pools - {t})
  }

  lemma {:induction false} ElemsCount(q: seq<string>)
    requires Distinct(q)
    ensures |Elements(q)| == |q|
  {
    if q != [] {
      ElemsCount(q[1..]);
      assert q == [q[0]] + q[1..];
      assert Elements(q) == {q[0]} + Elements(q[1..]) && q[0] !in Elements(q[1..]);
    }
  }

  /** One queue and the others share nothing. */
  lemma QueuedParts(p: Pool, t: Bytes)
    requires Indexed(p) && t in p.pools
    ensures Queued(p.pools) == Elements(p.pools[t]) + Queued(p.pools - {t})
    ensures Elements(p.pools[t]) !! Queued(p.pools - {t})
  {
    forall x ensures x in Queued(p.pools) <==> x in Elements(p.pools[t]) || x in Queued(p.pools - {t}) {
      QueuedSplit(p.pools, t, x);
      QueuedPut(p.pools, t, [], x);
    }
    forall x | x in Elements(p.pools[t]) ensures x !in Queued(p.pools - {t}) {
      QueuedPut(p.pools, t, [], x);
      NowhereElse(p, t, x);
    }
  }

  lemma {:induction false} QueuedCount(p: Pool)
    requires Indexed(p)
    ensures |Queued(p.pools)| == SumLens(p.pools)
    decreases |p.pools|
  {
    if p.pools == map[] {
      assert Queued(p.pools) == {};
    } else {
      var t :| t in p.pools && SumLens(p.pools) == |p.pools[t]| + SumLens(p.pools - {t});
      var rest := p.(pools := p.pools - {t});
      assert rest.pools.Keys == p.pools.Keys - {t} && |p.pools.Keys - {t}| == |p.pools.Keys| - 1;
      QueuedCount(rest);
      ElemsCount(p.pools[t]);
      QueuedParts(p, t);
    }
  }

  /** `total_len` is the sum of the queue lengths plus the outstanding ids, and only non-empty queues are listed. */
  lemma TotalIsQueuedPlusOutstanding(s: Tracked)
    requires Good(s)
    ensures |s.pool.index| == SumLens(s.pool.pools) + |s.outstanding|
    ensures forall t :: t in s.pool.pools <==> Queue(s.pool, t) != []
  {
    QueuedCount(s.pool);
    assert |s.pool.index| == |s.pool.index.Keys|;
  }

  lemma PutTwice(pools: map<Bytes, seq<string>>, t: Bytes, q: seq<string>, r: seq<string>)
    ensures PutQueue(PutQueue(pools, t, q), t, r) == PutQueue(pools, t, r)
  {
  }

  /** Draining `n` and then `m` is draining `n + m`. */
  lemma DequeueAdds(p: Pool, t: Bytes, n: nat, m: nat)
    ensures
      var (p1, first) := Dequeue(p, t, n);
      var (p2, second) := Dequeue(p1, t, m);
      (p2, first + second) == Dequeue(p, t, n + m)
  {
    if t in p.pools {
      var q := p.pools[t];
      assert Rest(Rest(q, n), m) == Rest(q, n + m);
      assert Take(q, n) + Take(Rest(q, n), m) == Take(q, n + m);
      PutTwice(p.pools, t, Rest(q, n), Rest(q, n + m));
    } else {
      assert [] + Take([], m) == Take([], n + m);
    }
  }

  /** What is drained or peeked is served in rank order, and before everything that stays queued for the token. */
  lemma FrontRanksFirst(s: Tracked, t: Bytes, n: nat)
    requires Good(s)
    ensures
      var front, rest := Take(Queue(s.pool, t), n), Rest(Queue(s.pool, t), n);
      && front + rest == Queue(s.pool, t)
      && (forall i, j :: 0 <= i < j < |front| ==> Ranks(s, front[i], front[j]))
      && (forall i, j :: 0 <= i < |front| && 0 <= j < |rest| ==> Ranks(s, front[i], rest[j]))
  {
    var q, front, rest := Queue(s.pool, t), Take(Queue(s.pool, t), n), Rest(Queue(s.pool, t), n);
    assert front + rest == q;
    forall i, j | 0 <= i < |front| && 0 <= j < |rest| ensures Ranks(s, front[i], rest[j]) {
      assert Ranks(s, q[i], q[|front| + j]);
    }
    forall i, j | 0 <= i < j < |front| ensures Ranks(s, front[i], front[j]) {
      assert Ranks(s, q[i], q[j]);
    }
  }
}
