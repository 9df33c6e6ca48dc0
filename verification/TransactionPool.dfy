/** The leader's transaction pool: one ordered queue per token and an index by transaction id. */
module TransactionPool {
  import opened Primitives

  datatype Entry = Entry(tokenId: Bytes, sequenceNumber: nat, timestamp: int, sender: Bytes)

  datatype Pool = Pool(pools: map<Bytes, seq<string>>, index: map<string, Entry>)

  const EMPTY: Pool := Pool(map[], map[])

  // ----- the operations on values -----

  function Queue(p: Pool, token: Bytes): seq<string> {
    if token in p.pools then p.pools[token] else []
  }

  /** `(sequence_number, timestamp)` order. */
  predicate KeyLess(a: Entry, b: Entry) {
    a.sequenceNumber < b.sequenceNumber || (a.sequenceNumber == b.sequenceNumber && a.timestamp < b.timestamp)
  }

  /** The source's test for "insert before this one": within a sender only the sequence number counts. */
  predicate GoesBefore(e: Entry, existing: Entry) {
    if existing.sender == e.sender then existing.sequenceNumber > e.sequenceNumber else KeyLess(e, existing)
  }

  predicate StopsAt(index: map<string, Entry>, id: string, e: Entry) {
    id in index ==> GoesBefore(e, index[id])
  }

  /** The position of the first queued id the entry goes before. */
  function Position(index: map<string, Entry>, queue: seq<string>, e: Entry): (i: nat)
    ensures i <= |queue|
    ensures forall j :: 0 <= j < i ==> !StopsAt(index, queue[j], e)
    ensures i < |queue| ==> StopsAt(index, queue[i], e)
  {
    if queue == [] || StopsAt(index, queue[0], e) then 0 else 1 + Position(index, queue[1..], e)
  }

  function InsertAt(queue: seq<string>, i: nat, id: string): seq<string>
    requires i <= |queue|
  {
    queue[..i] + [id] + queue[i..]
  }

  function Enqueue(p: Pool, id: string, e: Entry): Pool {
    var index := p.index[id := e];
    var queue := Queue(p, e.tokenId);
    Pool(p.pools[e.tokenId := InsertAt(queue, Position(index, queue, e), id)], index)
  }

  function Retain(queue: seq<string>, id: string): seq<string> {
    if queue == [] then []
    else (if queue[0] == id then [] else [queue[0]]) + Retain(queue[1..], id)
  }

  /** A queue that became empty is dropped from the map. */
  function PutQueue(pools: map<Bytes, seq<string>>, token: Bytes, queue: seq<string>): map<Bytes, seq<string>> {
    if queue == [] then pools - {token} else pools[token := queue]
  }

  function Remove(p: Pool, id: string): (Pool, Option<Entry>) {
    if id !in p.index then (p, None)
    else
      var e := p.index[id];
      var pools := if e.tokenId in p.pools then PutQueue(p.pools, e.tokenId, Retain(p.pools[e.tokenId], id))
                   else p.pools;
      (Pool(pools, p.index - {id}), Some(e))
  }

  function Take(queue: seq<string>, n: nat): seq<string> {
    if n <= |queue| then queue[..n] else queue
  }

  function Rest(queue: seq<string>, n: nat): seq<string> {
    if n <= |queue| then queue[n..] else []
  }

  /** The index is left alone. */
  function Dequeue(p: Pool, token: Bytes, n: nat): (Pool, seq<string>) {
    (if token in p.pools then p.(pools := PutQueue(p.pools, token, Rest(p.pools[token], n))) else p,
     Take(Queue(p, token), n))
  }

  // ----- what each operation changes, and what it leaves alone -----

  predicate OtherQueuesKept(p: Pool, p': Pool, token: Bytes) {
    && (forall t :: t in p.pools && t != token ==> t in p'.pools && p'.pools[t] == p.pools[t])
    && (forall t :: t in p'.pools && t != token ==> t in p.pools)
  }

  /** An arrival is indexed and stands in its token's queue between the others, before the first it goes before. */
  lemma EnqueueExactly(p: Pool, id: string, e: Entry) returns (before: seq<string>, after: seq<string>)
    ensures
      var p' := Enqueue(p, id, e);
      && p'.index == p.index[id := e] && OtherQueuesKept(p, p', e.tokenId)
      && Queue(p, e.tokenId) == before + after && Queue(p', e.tokenId) == before + [id] + after
      && (forall i :: 0 <= i < |before| ==> !StopsAt(p'.index, before[i], e))
      && (after != [] ==> StopsAt(p'.index, after[0], e))
  {
    var q := Queue(p, e.tokenId);
    var k := Position(p.index[id := e], q, e);
    before, after := q[..k], q[k..];
  }

  lemma {:induction false} RetainNone(q: seq<string>, id: string)
    requires id !in q
    ensures Retain(q, id) == q
  {
    if q != [] {
      RetainNone(q[1..], id);
      assert [q[0]] + q[1..] == q;
    }
  }

  lemma {:induction false} RetainOne(before: seq<string>, id: string, after: seq<string>)
    requires id !in before && id !in after
    ensures Retain(before + [id] + after, id) == before + after
  {
    var q := before + [id] + after;
    if before == [] {
      assert q[1..] == after;
      RetainNone(after, id);
    } else {
      assert q[1..] == before[1..] + [id] + after;
      RetainOne(before[1..], id, after);
    }
  }

  /** A removal gives back the entry, drops the id from the index and from its own queue, and touches nothing else. */
  lemma RemoveExactly(p: Pool, id: string, before: seq<string>, after: seq<string>)
    requires id in p.index && Queue(p, p.index[id].tokenId) == before + [id] + after && id !in before && id !in after
    ensures
      var (p', r) := Remove(p, id);
      var t := p.index[id].tokenId;
      && r == Some(p.index[id]) && p'.index == p.index - {id} && OtherQueuesKept(p, p', t)
      && Queue(p', t) == before + after && (t in p'.pools <==> before + after != [])
  {
    RetainOne(before, id, after);
  }

  /** An id that is not queued leaves the index alone, and an unknown one changes nothing. */
  lemma RemoveUnqueued(p: Pool, id: string)
    requires id in p.index ==> id !in Queue(p, p.index[id].tokenId)
    ensures
      var (p', r) := Remove(p, id);
      if id in p.index
      then r == Some(p.index[id]) && p'.index == p.index - {id} && forall t :: Queue(p', t) == Queue(p, t)
      else r == None && p' == p
  {
    if id in p.index { RetainNone(Queue(p, p.index[id].tokenId), id); }
  }

  /** A drain takes as many as asked, or all there are, off the front of one queue; the index keeps them. */
  lemma DequeueExactly(p: Pool, token: Bytes, n: nat)
    ensures
      var (p', ids) := Dequeue(p, token, n);
      && ids + Queue(p', token) == Queue(p, token) && p'.index == p.index && OtherQueuesKept(p, p', token)
      && |ids| == (if n < |Queue(p, token)| then n else |Queue(p, token)|)
      && (token in p.pools ==> (token in p'.pools <==> Queue(p', token) != []))
  {
  }

  // ----- the pool itself -----

  class TransactionPool {
    var pools: map<Bytes, seq<string>>
    var index: map<string, Entry>

    constructor ()
      ensures View() == EMPTY
    {
      pools, index := map[], map[];
    }

    function View(): Pool
      reads this
    {
      Pool(pools, index)
    }

    /** `enqueue`: index first, then scan the queue for the place to insert. */
    method EnqueueTx(id: string, tokenId: Bytes, sequenceNumber: nat, timestamp: int, sender: Bytes)
      modifies this
      ensures View() == Enqueue(old(View()), id, Entry(tokenId, sequenceNumber, timestamp, sender))
    {
      var e := Entry(tokenId, sequenceNumber, timestamp, sender);
      index := index[id := e];
      var pool := if tokenId in pools then pools[tokenId] else [];
      var pos := 0;
      while pos < |pool|
        invariant pos <= |pool|
        invariant forall j :: 0 <= j < pos ==> !StopsAt(index, pool[j], e)
      {
        if pool[pos] !in index { break; }
        var existing := index[pool[pos]];
        if existing.sender == sender {
          if existing.sequenceNumber > sequenceNumber { break; }
        } else if existing.sequenceNumber > sequenceNumber
          || (existing.sequenceNumber == sequenceNumber && existing.timestamp > timestamp) {
          break;
        }
        pos := pos + 1;
      }
      assert Position(index, pool, e) == pos;
      pools := pools[tokenId := pool[..pos] + [id] + pool[pos..]];
    }

    /** `remove`. */
    method RemoveTx(id: string) returns (r: Option<Entry>)
      modifies this
      ensures (View(), r) == Remove(old(View()), id)
    {
      if id !in index { return None; }
      var entry := index[id];
      index := index - {id};
      var token := entry.tokenId;
      if token in pools {
        var kept := [];
        var i := 0;
        while i < |pools[token]|
          invariant pools == old(pools) && i <= |pools[token]|
          invariant kept + Retain(pools[token][i..], id) == Retain(pools[token], id)
        {
          assert pools[token][i..][1..] == pools[token][i + 1..];
          if pools[token][i] != id { kept := kept + [pools[token][i]]; }
          i := i + 1;
        }
        assert kept == Retain(pools[token], id) by { assert pools[token][i..] == [] && kept + [] == kept; }
        if kept == [] { pools := pools - {token}; } else { pools := pools[token := kept]; }
      }
      r := Some(entry);
    }

    /** `peek_top`. */
    method PeekTop(token: Bytes, n: nat) returns (ids: seq<string>)
      ensures ids <= Queue(View(), token)
      ensures |ids| <= n && (|ids| < n ==> ids == Queue(View(), token))
    {
      ids := [];
      if token in pools {
        while |ids| < n && |ids| < |pools[token]|
          invariant ids <= pools[token] && |ids| <= n
        {
          ids := ids + [pools[token][|ids|]];
        }
      }
    }

    /** `dequeue_for_leader`: drain the front of the queue; the index keeps the drained ids. */
    method DequeueForLeader(token: Bytes, n: nat) returns (ids: seq<string>)
      modifies this
      ensures (View(), ids) == Dequeue(old(View()), token, n)
    {
      ids := PeekTop(token, n);
      assert ids == Take(Queue(View(), token), n);
      if token in pools {
        var cut := if n < |pools[token]| then n else |pools[token]|;
        var remaining := pools[token][cut..];
        if remaining == [] { pools := pools - {token}; } else { pools := pools[token := remaining]; }
      }
    }
  }
}
