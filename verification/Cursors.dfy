/** The saved cursors over whole runs: when the walks are safe, what they read, and when a
    node dies of the out-of-range panic. */
module Cursors {
  import opened Types
  import opened Pools
  import opened Nodes
  import VoteExt

  /** In range, or at the start of an empty pool. */
  predicate Safe(p: Pool) {
    p.idx < |p.txs| || (p.idx == 0 && |p.txs| == 0)
  }

  // ----- The walk of ExtendVote -----

  lemma {:induction false} RemoveEachLength(entries: seq<ThTx>, visited: seq<ThTx>)
    requires Tallied(visited) <= Tallied(entries)
    ensures |RemoveEach(entries, visited)| == |entries| - |visited|
  {
    TalliedRemoveEach(entries, visited);
    assert |Classes(entries)| == |Tallied(entries)|;
    assert |Classes(visited)| == |Tallied(visited)|;
    assert |Classes(RemoveEach(entries, visited))| == |Tallied(RemoveEach(entries, visited))|;
  }

  /** One call of ExtendVote in numbers. The k-th entry it visits is entry c + 2k of the pool
      it started on; what it visits leaves pending and joins ready, in order; when it returns,
      the cursor is on the last pending entry, or at 0 if none is left. */
  lemma {:induction false} LiveCursor(m: Mempool)
    ensures var p, after := m.pending, AfterExtendVote(m);
            && |Visited(m)| == (if p.idx < |p.txs| then (|p.txs| - p.idx + 1) / 2 else 0)
            && (forall k | 0 <= k < |Visited(m)| ::
                  p.idx + 2 * k < |p.txs| && Visited(m)[k] == p.txs[p.idx + 2 * k])
            && |after.pending.txs| == |p.txs| - |Visited(m)|
            && after.ready == m.ready.(txs := m.ready.txs + Readied(Visited(m)))
            && (WalkReturns(p) && |p.txs| > 0 ==>
                  after.pending.idx == (if |after.pending.txs| == 0 then 0 else |after.pending.txs| - 1))
            && (!WalkReturns(p) ==> after.pending.idx >= |after.pending.txs|)
  {
    var p := m.pending;
    StridedLength(p.txs, p.idx);
    forall k | 0 <= k < |Visited(m)|
      ensures p.idx + 2 * k < |p.txs| && Visited(m)[k] == p.txs[p.idx + 2 * k]
    {
      StridedAt(p.txs, p.idx, k);
    }
    VisitedWithin(p);
    RemoveEachLength(p.txs, Visited(m));
    CursorArithmetic(p);
  }

  lemma {:induction false} CursorArithmetic(p: Pool)
    ensures var left := |p.txs| - if p.idx < |p.txs| then (|p.txs| - p.idx + 1) / 2 else 0;
            && (WalkReturns(p) && |p.txs| > 0 ==>
                  CursorAfterWalk(p) == if left == 0 then 0 else left - 1)
            && (!WalkReturns(p) ==> CursorAfterWalk(p) >= left)
  {
  }

  /** All pending transactions are visited only when there is at most one, under cursor 0. What
      that means for the bids reported is in Reports.dfy. */
  lemma {:induction false} VisitsAllIff(m: Mempool)
    ensures Visited(m) == m.pending.txs <==>
            |m.pending.txs| == 0 || (|m.pending.txs| == 1 && m.pending.idx == 0)
  {
    LiveCursor(m);
    if |m.pending.txs| == 1 && m.pending.idx == 0 {
      assert Visited(m)[0] == m.pending.txs[0];
    }
  }

  lemma {:induction false} StepPendingSafe(c: Codec, n: Node, op: Op)
    requires n.alive ==> Safe(n.pool.pending)
    requires !op.Update?
    ensures Step(c, n, op).alive ==> Safe(Step(c, n, op).pool.pending)
  {
    if n.alive && op.ExtendVote? {
      LiveCursor(n.pool);
    }
  }

  /** In every run whose ExtendVote calls all returned, the pending cursor is in range, so the
      first `Tx` of the next call does not panic. */
  lemma {:induction false} PendingCursorSafe(c: Codec, ops: seq<Op>)
    requires InApp(ops) && Run(c, ops).alive
    ensures Safe(Run(c, ops).pool.pending)
  {
    if |ops| > 0 {
      var front := ops[..|ops| - 1];
      if Run(c, front).alive {
        PendingCursorSafe(c, front);
      }
      StepPendingSafe(c, Run(c, front), ops[|ops| - 1]);
    }
  }

  // ----- The walk of PrepareProposal -----

  /** The `Remove` that breaks a safe ready cursor: it drops an entry of at least two while the
      cursor is on the last one. */
  predicate Breaks(m: Mempool, tx: Tx) {
    LookupError(m.ready.txs, tx).None? && |m.ready.txs| >= 2 && m.ready.idx == |m.ready.txs| - 1
  }

  lemma {:induction false} RemoveSafety(m: Mempool, tx: Tx)
    requires Safe(m.ready)
    ensures Safe(Removed(m, tx).ready) <==> !Breaks(m, tx)
  {
  }

  lemma {:induction false} StepReadySafe(c: Codec, n: Node, op: Op)
    requires Safe(n.pool.ready)
    ensures Safe(Step(c, n, op).pool.ready) <==> !(n.alive && op.Remove? && Breaks(n.pool, op.tx))
  {
    hide RemoveFirst, RemoveEach, Strided;
    if n.alive && op.Remove? {
      RemoveSafety(n.pool, op.tx);
    }
  }

  /** Call `i` of the run is a `Remove` that breaks the ready cursor. */
  ghost predicate BreaksAt(c: Codec, ops: seq<Op>, i: nat)
    requires i < |ops|
  {
    Run(c, ops[..i]).alive && ops[i].Remove? && Breaks(Run(c, ops[..i]).pool, ops[i].tx)
  }

  lemma {:induction false} RunNext(c: Codec, ops: seq<Op>, i: nat)
    requires i < |ops|
    ensures Run(c, ops[..i + 1]) == Step(c, Run(c, ops[..i]), ops[i])
  {
    assert ops[..i + 1][..i] == ops[..i];
  }

  lemma {:induction false} SafeUntil(c: Codec, ops: seq<Op>, k: nat)
    requires k <= |ops| && forall i | 0 <= i < k :: !BreaksAt(c, ops, i)
    ensures Safe(Run(c, ops[..k]).pool.ready)
  {
    if k > 0 {
      hide Run, Step, Breaks, Safe;
      SafeUntil(c, ops, k - 1);
      RunNext(c, ops, k - 1);
      assert !BreaksAt(c, ops, k - 1);
      StepReadySafe(c, Run(c, ops[..k - 1]), ops[k - 1]);
    }
  }

  /** The ready cursor is in range throughout a run exactly when no `Remove` of the run meets
      the breaking case. */
  lemma {:induction false} ReadyCursorSafeIff(c: Codec, ops: seq<Op>)
    ensures (forall k | 0 <= k <= |ops| :: Safe(Run(c, ops[..k]).pool.ready)) <==>
            (forall i | 0 <= i < |ops| :: !BreaksAt(c, ops, i))
  {
    hide Run, Step, Breaks, Safe;
    if forall i | 0 <= i < |ops| :: !BreaksAt(c, ops, i) {
      forall k | 0 <= k <= |ops| ensures Safe(Run(c, ops[..k]).pool.ready) {
        SafeUntil(c, ops, k);
      }
    }
    if forall k | 0 <= k <= |ops| :: Safe(Run(c, ops[..k]).pool.ready) {
      forall i | 0 <= i < |ops| ensures !BreaksAt(c, ops, i) {
        RunNext(c, ops, i);
        assert Safe(Run(c, ops[..i + 1]).pool.ready);
        StepReadySafe(c, Run(c, ops[..i]), ops[i]);
      }
    }
  }

  /** Every `Remove` of the run met a ready pool of at most one transaction. */
  ghost predicate LightRemoves(c: Codec, ops: seq<Op>) {
    forall i | 0 <= i < |ops| && ops[i].Remove? :: |Run(c, ops[..i]).pool.ready.txs| <= 1
  }

  lemma {:induction false} ReadyCursorSafe(c: Codec, ops: seq<Op>)
    requires LightRemoves(c, ops)
    ensures Safe(Run(c, ops).pool.ready)
  {
    assert ops[..|ops|] == ops;
    SafeUntil(c, ops, |ops|);
  }

  /** In such runs PrepareProposal never panics: a node that lives before it lives after it. */
  lemma {:induction false} PrepareNeverPanics(c: Codec, ops: seq<Op>)
    requires LightRemoves(c, ops) && Run(c, ops).alive
    ensures Run(c, ops + [Prepare]).alive
  {
    ReadyCursorSafe(c, ops);
    assert (ops + [Prepare])[..|ops|] == ops;
  }

  /** The walk over a pending pool of one entry moves it to the ready pool. */
  lemma {:induction false} WalkOfOne(e: ThTx, ready: Pool)
    ensures var m := Mempool(Pool(0, [e]), ready);
            && WalkReturns(m.pending) && Visited(m) == [e]
            && AfterExtendVote(m) == Mempool(Pool(0, []), ready.(txs := ready.txs + [Stamp(e)]))
  {
    assert Strided([e], 0) == [e] + Strided([e], 2) == [e];
    assert [e][..0] == [];
    assert RemoveEach([e], []) == [e];
    assert FirstMatch([e], Stamp(e)) == 0 && Delete([e], 0) == [];
    assert Readied([e]) == [Stamp(e)];
    assert RemoveEach([e], [e]) == RemoveFirst([e], Stamp(e)) == [];
  }

  /** CheckTx of one transaction and a vote, on a node with nothing pending. */
  lemma {:induction false} InsertAndVote(c: Codec, n: Node, tx: Tx, height: int64)
    requires n.alive && n.pool.pending == Pool(0, []) && Sender(tx).Ok?
    ensures var n' := Step(c, Step(c, n, Insert(tx)), ExtendVote(height));
            var entry := ThTx(Sender(tx).value, 1, tx);
            n'.alive && n'.pool == Mempool(Pool(0, []), n.pool.ready.(txs := n.pool.ready.txs + [entry]))
  {
    hide WalkReturns, AfterExtendVote, Visited, VoteExt.Reported;
    var e := ThTx(Sender(tx).value, 0, tx);
    assert [] + [e] == [e];
    assert Step(c, n, Insert(tx)).pool == Mempool(Pool(0, [e]), n.pool.ready);
    WalkOfOne(e, n.pool.ready);
  }

  lemma {:induction false} FinalizeOneOfTwo(c: Codec, n: Node, tx: Tx, other: ThTx)
    requires n.alive && Sender(tx).Ok?
    requires n.pool.ready == Pool(0, [ThTx(Sender(tx).value, 1, tx), other])
    ensures var finalized := Step(c, Step(c, n, Prepare), Remove(tx));
            finalized.alive && !Step(c, finalized, Prepare).alive
  {
    var first := ThTx(Sender(tx).value, 1, tx);
    assert FirstMatch([first, other], first) == 0;
    assert Delete([first, other], 0) == [other];
    assert Step(c, Step(c, n, Prepare), Remove(tx)).pool.ready == Pool(1, [other]);
  }

  /** Without that restriction PrepareProposal can panic: two transactions become ready, both
      are proposed, one is finalized, and the next proposal kills the node. */
  lemma {:induction false} PrepareCanPanic(c: Codec, a: Tx, b: Tx, height: int64)
    requires Sender(a).Ok? && Sender(b).Ok?
    ensures var n := Step(c, Step(c, START, Insert(a)), ExtendVote(height));
            var n' := Step(c, Step(c, n, Insert(b)), ExtendVote(height));
            var finalized := Step(c, Step(c, n', Prepare), Remove(a));
            finalized.alive && !Step(c, finalized, Prepare).alive
  {
    hide Step;
    var first, second := ThTx(Sender(a).value, 1, a), ThTx(Sender(b).value, 1, b);
    InsertAndVote(c, START, a, height);
    assert [] + [first] == [first];
    var n := Step(c, Step(c, START, Insert(a)), ExtendVote(height));
    InsertAndVote(c, n, b, height);
    assert [first] + [second] == [first, second];
    FinalizeOneOfTwo(c, Step(c, Step(c, n, Insert(b)), ExtendVote(height)), a, second);
  }

  // ----- What the proposals offer -----

  /** Consecutive walks put end to end, the transaction they share counted once. */
  function Stitched(walks: seq<seq<ThTx>>): seq<ThTx> {
    if |walks| == 0 then []
    else
      var before, last := Stitched(walks[..|walks| - 1]), walks[|walks| - 1];
      if |last| == 0 then before else if |before| == 0 then last else before + last[1..]
  }

  ghost predicate Offering(n: Node) {
    && n.pool.ready.txs == n.readied
    && Stitched(n.walks) <= n.readied
    && n.pool.ready.idx == if |Stitched(n.walks)| == 0 then 0 else |Stitched(n.walks)| - 1
  }

  predicate NoRemove(ops: seq<Op>) {
    forall i | 0 <= i < |ops| :: !ops[i].Remove?
  }

  lemma {:induction false} StitchedNext(walks: seq<seq<ThTx>>, w: seq<ThTx>)
    ensures Stitched(walks + [w]) ==
            if |w| == 0 then Stitched(walks)
            else if |Stitched(walks)| == 0 then w else Stitched(walks) + w[1..]
  {
    assert (walks + [w])[..|walks|] == walks;
  }

  lemma {:induction false} PrepareOffers(c: Codec, n: Node)
    requires n.alive && Offering(n)
    ensures var n' := Step(c, n, Prepare);
            var seen := |Stitched(n.walks)|;
            && n'.alive
            && n'.walks == n.walks + [n.readied[if seen == 0 then 0 else seen - 1..]]
            && Stitched(n'.walks) == n.readied
            && Offering(n')
  {
    hide Stitched;
    var seen, w := |Stitched(n.walks)|, ReadyWalk(n.pool.ready);
    StitchedNext(n.walks, w);
    if seen > 0 {
      assert w[1..] == n.readied[seen..];
      assert n.readied == n.readied[..seen] + n.readied[seen..];
    } else if |n.readied| > 0 {
      assert w == n.readied[0..] == n.readied;
    }
  }

  lemma {:induction false} StepOffering(c: Codec, n: Node, op: Op)
    requires Offering(n) && !op.Remove?
    ensures Offering(Step(c, n, op))
  {
    if n.alive && op.Prepare? {
      PrepareOffers(c, n);
    }
  }

  lemma {:induction false} RunOffering(c: Codec, ops: seq<Op>)
    requires NoRemove(ops)
    ensures Offering(Run(c, ops))
  {
    if |ops| > 0 {
      RunOffering(c, ops[..|ops| - 1]);
      StepOffering(c, Run(c, ops[..|ops| - 1]), ops[|ops| - 1]);
    }
  }

  /** In a run without `Remove`, each PrepareProposal reads everything made ready since the
      one before, preceded by exactly one transaction of the walk before that one (if there
      was one); put end to end the walks read the ready transactions once each, in order. */
  lemma {:induction false} EveryReadyTxIsOffered(c: Codec, ops: seq<Op>)
    requires NoRemove(ops) && Run(c, ops).alive
    ensures var n, n' := Run(c, ops), Run(c, ops + [Prepare]);
            var seen := |Stitched(n.walks)|;
            && n'.alive
            && Stitched(n.walks) <= n.readied
            && n'.walks == n.walks + [n.readied[if seen == 0 then 0 else seen - 1..]]
            && Stitched(n'.walks) == n.readied
  {
    RunOffering(c, ops);
    assert (ops + [Prepare])[..|ops|] == ops;
    PrepareOffers(c, Run(c, ops));
  }
}
