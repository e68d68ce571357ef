/** ExtendVote: walking the pending pool through its live cursor while `Update` shrinks it. */
module VoteExt {
  import opened Types
  import opened Pools
  import opened ThresholdPool

  // ----- What is reported -----

  function ReportOf(c: Codec, msg: Msg): seq<Bytes> {
    match msg
    case BidMsg(bid, _) =>
      (match c.marshalBid(bid)
       case Some(bz) => [bz]
       case None => [])
    case OtherMsg(_) => []
  }

  /** The bids of a message list that could be marshalled, in order. */
  function ReportOfMsgs(c: Codec, msgs: seq<Msg>): seq<Bytes> {
    if |msgs| == 0 then []
    else ReportOfMsgs(c, msgs[..|msgs| - 1]) + ReportOf(c, msgs[|msgs| - 1])
  }

  function Reported(c: Codec, entries: seq<ThTx>): seq<Bytes> {
    if |entries| == 0 then []
    else Reported(c, entries[..|entries| - 1]) + ReportOfMsgs(c, entries[|entries| - 1].tx.msgs)
  }

  function Extension(c: Codec, m: Mempool, height: int64): Bytes {
    c.printRecord(Record(height, Reported(c, Visited(m))))
  }

  method CollectBids(c: Codec, msgs: seq<Msg>) returns (bids: seq<Bytes>)
    ensures bids == ReportOfMsgs(c, msgs)
  {
    bids := [];
    for i := 0 to |msgs|
      invariant bids == ReportOfMsgs(c, msgs[..i])
    {
      match msgs[i] {
        case BidMsg(bid, _) =>
          match c.marshalBid(bid) {
            case Some(bz) => bids := bids + [bz];
            case None =>
          }
        case OtherMsg(_) =>
      }
      assert msgs[..i + 1][..i] == msgs[..i];
    }
    assert msgs[..|msgs|] == msgs;
  }

  // ----- The walk -----

  /** `now` is what visiting `visited`, a prefix of `Visited(start)`, leaves of `start`. */
  ghost predicate Walked(start: Mempool, visited: seq<ThTx>, now: Mempool) {
    && visited + Strided(start.pending.txs, start.pending.idx + 2 * |visited|) == Visited(start)
    && now.pending.txs == RemoveEach(start.pending.txs, visited)
    && |now.pending.txs| == |start.pending.txs| - |visited|
    && now.ready == start.ready.(txs := start.ready.txs + Readied(visited))
  }

  /** At the loop head: what lies from the cursor on is untouched since the start. */
  ghost predicate AtHead(start: Pool, k: nat, now: Pool) {
    && now.idx == start.idx + k
    && |start.txs| > 0
    && (k > 0 ==> |start.txs| > 1 && |start.txs| != start.idx + 2 * k <= |start.txs| + 1)
    && (start.idx + 2 * k < |start.txs| ==>
          now.idx < |now.txs| && now.txs[now.idx..] == start.txs[start.idx + 2 * k..])
  }

  lemma {:induction false} DeleteBefore<T>(s: seq<T>, j: nat, i: nat)
    requires j <= i < |s|
    ensures Delete(s, j)[i..] == s[i + 1..]
  {
  }

  lemma {:induction false} NextStride<T>(s: seq<T>, visited: seq<T>, c: nat)
    requires c < |s|
    ensures (visited + [s[c]]) + Strided(s, c + 2) == visited + Strided(s, c)
  {
  }

  lemma {:induction false} ReadiedNext(visited: seq<ThTx>, e: ThTx)
    ensures Readied(visited + [e]) == Readied(visited) + [Stamp(e)]
  {
  }

  /** `Update` of the entry under the cursor finds a match at or before the cursor, so the
      entries after the cursor slide down by one. */
  lemma {:induction false} UpdateAtCursor(m: Mempool)
    requires WellFormed(m) && m.pending.idx < |m.pending.txs|
    ensures var e := m.pending.txs[m.pending.idx];
            var left := RemoveFirst(m.pending.txs, Stamp(e));
            && Updated(m, e.tx) ==
               Mempool(m.pending.(txs := left), m.ready.(txs := m.ready.txs + [Stamp(e)]))
            && |left| == |m.pending.txs| - 1
            && left[m.pending.idx..] == m.pending.txs[m.pending.idx + 1..]
  {
    var txs, i := m.pending.txs, m.pending.idx;
    var e := txs[i];
    assert Sender(e.tx) == Ok(e.address) && Stamp(e) == ThTx(e.address, 1, e.tx);
    var j := FirstMatch(txs, Stamp(e));
    assert txs[i].Equal(Stamp(e));
    DeleteBefore(txs, j, i);
  }

  lemma {:induction false} WalkedNext(start: Mempool, visited: seq<ThTx>, now: Mempool, after: Mempool, e: ThTx)
    requires Walked(start, visited, now)
    requires start.pending.idx + 2 * |visited| < |start.pending.txs|
    requires e == start.pending.txs[start.pending.idx + 2 * |visited|]
    requires after.pending.txs == RemoveFirst(now.pending.txs, Stamp(e))
    requires |after.pending.txs| == |now.pending.txs| - 1
    requires after.ready == now.ready.(txs := now.ready.txs + [Stamp(e)])
    ensures Walked(start, visited + [e], after)
  {
    NextStride(start.pending.txs, visited, start.pending.idx + 2 * |visited|);
    ReadiedNext(visited, e);
    assert (visited + [e])[..|visited|] == visited;
    assert start.ready.txs + Readied(visited + [e]) == start.ready.txs + Readied(visited) + [Stamp(e)];
  }

  lemma {:induction false} VisitOne(start: Mempool, visited: seq<ThTx>, now: Mempool)
    requires WellFormed(now) && Walked(start, visited, now)
    requires AtHead(start.pending, |visited|, now.pending)
    requires now.pending.idx < |now.pending.txs|
    ensures var e := now.pending.txs[now.pending.idx];
            var after := Updated(now, e.tx);
            && Walked(start, visited + [e], after)
            && start.pending.idx + 2 * |visited| < |start.pending.txs|
            && after.pending.idx == now.pending.idx
            && |after.pending.txs| == |now.pending.txs| - 1
            && after.pending.txs[now.pending.idx..] == now.pending.txs[now.pending.idx + 1..]
  {
    var at := start.pending.idx + 2 * |visited|;
    assert at < |start.pending.txs|;
    var e := now.pending.txs[now.pending.idx];
    assert e == now.pending.txs[now.pending.idx..][0] == start.pending.txs[at..][0];
    UpdateAtCursor(now);
    WalkedNext(start, visited, now, Updated(now, e.tx), e);
  }

  /** `Next` advanced the cursor. */
  lemma {:induction false} WalkGoesOn(start: Pool, k: nat, now: Pool, after: Pool)
    requires AtHead(start, k, now) && now.idx < |now.txs| && |now.txs| == |start.txs| - k
    requires after.idx == now.idx + 1 && |after.txs| == |now.txs| - 1
    requires after.txs[now.idx..] == now.txs[now.idx + 1..]
    requires |after.txs| != 0 && |after.txs| != now.idx + 1
    ensures AtHead(start, k + 1, after)
  {
    if start.idx + 2 * k + 2 < |start.txs| {
      assert after.txs[after.idx..] == after.txs[now.idx..][1..];
      assert now.txs[now.idx + 1..][1..] == now.txs[now.idx..][2..];
    }
  }

  lemma {:induction false} SameMempool(a: Mempool, b: Mempool)
    requires a.pending.idx == b.pending.idx && a.pending.txs == b.pending.txs
    requires a.ready == b.ready
    ensures a == b
  {
    assert a.pending == b.pending;
  }

  /** `Next` returned nil. */
  lemma {:induction false} WalkEnds(start: Mempool, visited: seq<ThTx>, now: Mempool)
    requires Walked(start, visited, now) && |visited| > 0
    requires now.pending.idx == start.pending.idx + |visited| - 1
    requires start.pending.idx + 2 * |visited| - 2 < |start.pending.txs|
    requires |now.pending.txs| == 0 || |now.pending.txs| == now.pending.idx + 1
    ensures WalkReturns(start.pending) && now == AfterExtendVote(start)
    ensures visited == Visited(start)
  {
    var L, c, k := |start.pending.txs|, start.pending.idx, |visited|;
    assert (k == L == 1 && c == 0) || (L > 1 && L - c == 2 * k);
    assert Strided(start.pending.txs, c + 2 * k) == [];
    assert visited == Visited(start);
    SameMempool(now, AfterExtendVote(start));
  }

  /** The invariant of the walk; `done` once the iterator is nil. */
  ghost predicate Walking(start: Mempool, visited: seq<ThTx>, now: Mempool, done: bool) {
    && Walked(start, visited, now)
    && if done then WalkReturns(start.pending) && visited == Visited(start) && now == AfterExtendVote(start)
       else AtHead(start.pending, |visited|, now.pending)
  }

  /** `Tx` panics. */
  lemma {:induction false} WalkPanics(start: Mempool, visited: seq<ThTx>, now: Mempool)
    requires Walking(start, visited, now, false)
    requires now.pending.idx >= |now.pending.txs|
    ensures !WalkReturns(start.pending) && now == AfterExtendVote(start)
  {
    var L, c, k := |start.pending.txs|, start.pending.idx, |visited|;
    assert c + 2 * k >= L;
    assert k > 0 ==> c + 2 * k == L + 1;
    assert CursorAfterWalk(start.pending) == now.pending.idx by {
      assert k > 0 ==> L - c == 2 * k - 1;
    }
    assert Strided(start.pending.txs, c + 2 * k) == [];
    assert visited == Visited(start);
    SameMempool(now, AfterExtendVote(start));
  }

  lemma {:induction false} WalkStarts(start: Mempool)
    ensures Walking(start, [], start, |start.pending.txs| == 0)
  {
    assert [] + Visited(start) == Visited(start);
    assert start.ready.txs + Readied([]) == start.ready.txs;
  }

  function Advanced(m: Mempool): Mempool {
    var n := |m.pending.txs|;
    if n == 0 || n == m.pending.idx + 1 then m else m.(pending := m.pending.(idx := m.pending.idx + 1))
  }

  lemma {:induction false} WalkSteps(start: Mempool, visited: seq<ThTx>, now: Mempool)
    requires WellFormed(now) && Walking(start, visited, now, false)
    requires now.pending.idx < |now.pending.txs|
    ensures var e := now.pending.txs[now.pending.idx];
            var after := Updated(now, e.tx);
            Walking(start, visited + [e], Advanced(after), Advanced(after) == after)
    ensures |visited| < |start.pending.txs|
  {
    hide Strided, RemoveEach, Readied, AfterExtendVote, Visited, WalkReturns, Updated;
    var e := now.pending.txs[now.pending.idx];
    var after := Updated(now, e.tx);
    VisitOne(start, visited, now);
    if Advanced(after) == after {
      WalkEnds(start, visited + [e], after);
    } else {
      WalkGoesOn(start.pending, |visited|, now.pending, Advanced(after).pending);
    }
  }

  lemma {:induction false} WalkFinished(start: Mempool, visited: seq<ThTx>, now: Mempool)
    requires Walking(start, visited, now, true)
    ensures WalkReturns(start.pending) && now == AfterExtendVote(start) && visited == Visited(start)
  {
  }

  lemma {:induction false} ReportedNext(c: Codec, visited: seq<ThTx>, e: ThTx)
    ensures Reported(c, visited + [e]) == Reported(c, visited) + ReportOfMsgs(c, e.tx.msgs)
  {
    assert (visited + [e])[..|visited|] == visited;
  }

  /** The tail of the loop body: move the transaction to the ready pool, advance. */
  method UpdateThenNext(m: ThresholdMempool, tx: Tx) returns (itr: ThTxs?)
    requires m.Valid()
    modifies m.Repr()
    ensures m.Valid() && fresh(m.Repr() - old(m.Repr()))
    ensures var after := Updated(old(m.State()), tx);
            m.State() == Advanced(after) && itr == if Advanced(after) == after then null else m.pendingPool
  {
    var _ := m.Update(tx);
    itr := m.pendingPool.Next();
  }

  /** The live-cursor walk. It visits positions c, c + 2, c + 4, ... of the pool it started
      on; it returns when the number of entries from the cursor on is even, or the pool held
      one entry under cursor 0; otherwise the panic in `Tx` ends it. */
  method ExtendVote(c: Codec, m: ThresholdMempool, height: int64) returns (r: Outcome<Bytes>)
    requires m.Valid()
    modifies m.Repr()
    ensures m.Valid() && fresh(m.Repr() - old(m.Repr()))
    ensures m.State() == AfterExtendVote(old(m.State()))
    ensures r == if WalkReturns(old(m.State()).pending)
                 then Returned(Extension(c, old(m.State()), height))
                 else Panicked
  {
    hide Walking, AfterExtendVote, WellFormed;
    ghost var start := m.State();
    ghost var now, visited := start, [];
    var bids := [];
    var itr := m.SelectPending();
    WalkStarts(start);
    while itr != null
      invariant m.Valid() && fresh(m.Repr() - old(m.Repr()))
      invariant m.State() == now
      invariant itr == null || itr == m.pendingPool
      invariant bids == Reported(c, visited)
      invariant Walking(start, visited, now, itr == null)
      decreases |start.pending.txs| - |visited|
    {
      var current := itr.Tx();
      if current.Panicked? {
        WalkPanics(start, visited, now);
        return Panicked;
      }
      var tx := current.value;
      ghost var e := now.pending.txs[now.pending.idx];
      WalkSteps(start, visited, now);
      ReportedNext(c, visited, e);
      var txBids := CollectBids(c, tx.msgs);
      bids := bids + txBids;
      itr := UpdateThenNext(m, tx);
      now, visited := Advanced(Updated(now, tx)), visited + [e];
    }
    WalkFinished(start, visited, now);
    return Returned(c.printRecord(Record(height, bids)));
  }
}
