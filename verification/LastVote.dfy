/** Is what a proposal offers what the last vote saw? Which ready transactions come from the
    latest ExtendVote of a node, and when the proposal after it offers nothing older. */
module LastVote {
  import opened Types
  import opened Pools
  import opened Nodes
  import opened Order
  import Cursors

  // ----- A proposal right after the vote -----

  /** After a vote the walk of a proposal offers no more than the vote made ready, a suffix of
      it, exactly when the ready cursor was past the end of the ready pool as the vote began;
      otherwise it first offers what was ready before. */
  lemma {:induction false} OffersLastVoteIff(m: Mempool)
    ensures var was, voted := m.ready, Readied(Visited(m));
            var walk := ReadyWalk(AfterExtendVote(m).ready);
            && (|walk| <= |voted| <==> was.idx >= |was.txs|)
            && (was.idx >= |was.txs| ==>
                  walk == if was.idx - |was.txs| < |voted| then voted[was.idx - |was.txs|..] else [])
            && (was.idx < |was.txs| ==> walk == was.txs[was.idx..] + voted)
  {
    hide Strided, RemoveEach;
    var was, voted := m.ready, Readied(Visited(m));
    if was.idx < |was.txs| {
      assert (was.txs + voted)[was.idx..] == was.txs[was.idx..] + voted;
    } else if was.idx - |was.txs| < |voted| {
      assert (was.txs + voted)[was.idx..] == voted[was.idx - |was.txs|..];
    }
  }

  /** With a ready cursor in range that is exactly when the ready pool was empty. */
  lemma {:induction false} SafeOffersLastVoteIff(m: Mempool)
    requires Cursors.Safe(m.ready)
    ensures |ReadyWalk(AfterExtendVote(m).ready)| <= |Visited(m)| <==> m.ready.txs == []
    ensures m.ready.txs == [] ==> ReadyWalk(AfterExtendVote(m).ready) == Readied(Visited(m))
  {
    OffersLastVoteIff(m);
  }

  /** A run in which the promise fails: `a` is voted on one height before `b`, and the proposal
      after the second vote still offers it. */
  lemma {:induction false} OlderVoteStillOffered(c: Codec, a: Tx, b: Tx, height: int64, next: int64)
    requires Sender(a).Ok? && Sender(b).Ok?
    ensures var n := Step(c, Step(c, START, Insert(a)), ExtendVote(height));
            var before := Step(c, n, Insert(b));
            var n' := Step(c, before, ExtendVote(next));
            && Visited(before.pool) == [ThTx(Sender(b).value, 0, b)]
            && ReadyWalk(n'.pool.ready) == [ThTx(Sender(a).value, 1, a), ThTx(Sender(b).value, 1, b)]
  {
    var first, second := ThTx(Sender(a).value, 1, a), ThTx(Sender(b).value, 1, b);
    var n := Step(c, Step(c, START, Insert(a)), ExtendVote(height));
    Cursors.InsertAndVote(c, START, a, height);
    assert [] + [first] == [first];
    Cursors.InsertAndVote(c, n, b, next);
    assert [first] + [second] == [first, second];
    var pending := ThTx(Sender(b).value, 0, b);
    assert [] + [pending] == [pending];
    Cursors.WalkOfOne(pending, n.pool.ready);
  }

  // ----- Any run -----

  /** What the latest ExtendVote made ready. */
  function LastVoted(c: Codec, ops: seq<Op>): seq<ThTx> {
    if |ops| == 0 then []
    else
      var front := ops[..|ops| - 1];
      if Run(c, front).alive && ops[|ops| - 1].ExtendVote? then Readied(Visited(Run(c, front).pool))
      else LastVoted(c, front)
  }

  /** What was ready when the latest ExtendVote began. */
  function ReadyBefore(c: Codec, ops: seq<Op>): seq<ThTx> {
    if |ops| == 0 then []
    else
      var front := ops[..|ops| - 1];
      if Run(c, front).alive && ops[|ops| - 1].ExtendVote? then Run(c, front).pool.ready.txs
      else ReadyBefore(c, front)
  }

  /** How many entries at the front of the ready pool are older than the latest ExtendVote. */
  function Older(c: Codec, ops: seq<Op>): (older: nat)
    ensures older <= |Run(c, ops).pool.ready.txs|
  {
    if |ops| == 0 then 0
    else
      var front := ops[..|ops| - 1];
      var n, older := Run(c, front), Older(c, front);
      if !n.alive then older
      else
        match ops[|ops| - 1]
        case ExtendVote(_) => |n.pool.ready.txs|
        case Remove(tx) =>
          if LookupError(n.pool.ready.txs, tx).None?
             && FirstMatch(n.pool.ready.txs, ThTx(Sender(tx).value, 1, tx)) < older
          then older - 1 else older
        case Insert(_) => older
        case Update(_) => older
        case Prepare => older
  }

  lemma {:induction false} SubsequenceSelf<T>(a: seq<T>)
    ensures Subsequence(a, a)
  {
    if |a| > 0 {
      SubsequenceSelf(a[..|a| - 1]);
    }
  }

  lemma {:induction false} DeleteSplit<T>(s: seq<T>, i: nat, at: nat)
    requires i < |s| && at <= |s|
    ensures i < at ==> Delete(s, i)[..at - 1] == Delete(s[..at], i) && Delete(s, i)[at - 1..] == s[at..]
    ensures i >= at ==> Delete(s, i)[..at] == s[..at] && Delete(s, i)[at..] == Delete(s[at..], i - at)
  {
  }

  /** The ready pool is what is left of the entries from before the latest vote, followed by
      what is left of those it made ready, each in order. */
  ghost predicate Divided(c: Codec, ops: seq<Op>) {
    var ready, older := Run(c, ops).pool.ready.txs, Older(c, ops);
    Subsequence(ready[..older], ReadyBefore(c, ops)) && Subsequence(ready[older..], LastVoted(c, ops))
  }

  lemma {:induction false} RemoveLogged(c: Codec, front: seq<Op>, tx: Tx)
    requires Run(c, front).alive && LookupError(Run(c, front).pool.ready.txs, tx).None?
    ensures var ops, ready := front + [Remove(tx)], Run(c, front).pool.ready.txs;
            var i := FirstMatch(ready, ThTx(Sender(tx).value, 1, tx));
            && Run(c, ops).pool.ready.txs == Delete(ready, i)
            && Older(c, ops) == (if i < Older(c, front) then Older(c, front) - 1 else Older(c, front))
            && LastVoted(c, ops) == LastVoted(c, front)
            && ReadyBefore(c, ops) == ReadyBefore(c, front)
  {
    assert (front + [Remove(tx)])[..|front|] == front;
  }

  lemma {:induction false} RemoveDivided(c: Codec, front: seq<Op>, tx: Tx)
    requires Divided(c, front) && Run(c, front).alive
    requires LookupError(Run(c, front).pool.ready.txs, tx).None?
    ensures Divided(c, front + [Remove(tx)])
  {
    hide Subsequence, Run, Older, LastVoted, ReadyBefore, Delete;
    RemoveLogged(c, front, tx);
    var ready, older := Run(c, front).pool.ready.txs, Older(c, front);
    var i := FirstMatch(ready, ThTx(Sender(tx).value, 1, tx));
    DeleteSplit(ready, i, older);
    if i < older {
      SubsequenceDelete(ready[..older], ReadyBefore(c, front), i);
    } else {
      SubsequenceDelete(ready[older..], LastVoted(c, front), i - older);
    }
  }

  lemma {:induction false} VoteDivided(c: Codec, front: seq<Op>, height: int64)
    requires Run(c, front).alive
    ensures Divided(c, front + [ExtendVote(height)])
  {
    hide Subsequence, Strided, RemoveEach;
    var ops := front + [ExtendVote(height)];
    assert ops[..|ops| - 1] == front;
    var m := Run(c, front).pool;
    assert (m.ready.txs + Readied(Visited(m)))[..|m.ready.txs|] == m.ready.txs;
    assert (m.ready.txs + Readied(Visited(m)))[|m.ready.txs|..] == Readied(Visited(m));
    SubsequenceSelf(m.ready.txs);
    SubsequenceSelf(Readied(Visited(m)));
  }

  lemma {:induction false} RunDivided(c: Codec, ops: seq<Op>)
    requires InApp(ops)
    ensures Divided(c, ops)
  {
    hide Subsequence;
    if |ops| == 0 {
      SubsequenceSelf<ThTx>([]);
    } else {
      var front, op := ops[..|ops| - 1], ops[|ops| - 1];
      RunDivided(c, front);
      assert ops == front + [op];
      var n := Run(c, front);
      if n.alive && op.ExtendVote? {
        VoteDivided(c, front, op.height);
      } else if n.alive && op.Remove? && LookupError(n.pool.ready.txs, op.tx).None? {
        RemoveDivided(c, front, op.tx);
      }
    }
  }

  /** In every run: the next proposal offers nothing from before the latest ExtendVote exactly
      when the ready cursor is past the older entries. Then it offers what that vote made ready
      and is not finalized, from the cursor on; otherwise it starts with older transactions. */
  lemma {:induction false} OffersOnlyLastVoteIff(c: Codec, ops: seq<Op>)
    requires InApp(ops)
    ensures var p, older := Run(c, ops).pool.ready, Older(c, ops);
            var recent := p.txs[older..];
            && Subsequence(recent, LastVoted(c, ops))
            && Subsequence(p.txs[..older], ReadyBefore(c, ops))
            && (|ReadyWalk(p)| <= |recent| <==> p.idx >= older)
            && (older <= p.idx < |p.txs| ==> ReadyWalk(p) == recent[p.idx - older..])
            && (p.idx < older ==> ReadyWalk(p) == p.txs[p.idx..older] + recent)
  {
    RunDivided(c, ops);
    var p, older := Run(c, ops).pool.ready, Older(c, ops);
    if p.idx < older {
      assert p.txs[p.idx..] == p.txs[p.idx..older] + p.txs[older..];
    } else if p.idx < |p.txs| {
      assert p.txs[p.idx..] == p.txs[older..][p.idx - older..];
    }
  }
}
