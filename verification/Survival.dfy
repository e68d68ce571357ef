/** How long a node lives: the exact runs in which the panic of ExtendVote is not met. */
module Survival {
  import opened Types
  import opened Pools
  import opened Nodes
  import Cursors

  /** With `left` entries left over by the last walk, does the walk after `size` insertions
      return, and how many entries does it leave? */
  predicate Returns(left: nat, size: nat) {
    if left == 0 then size == 1 || size % 2 == 0
    else size % 2 == 1 || (left == 1 && size == 0)
  }

  function LeftAfter(left: nat, size: nat): nat
    requires Returns(left, size)
  {
    if left == 0 then size / 2
    else if size == 0 then 0
    else left + (size - 1) / 2
  }

  function Left(sizes: seq<nat>): Option<nat> {
    if |sizes| == 0 then Some(0)
    else
      match Left(sizes[..|sizes| - 1])
      case None => None
      case Some(left) =>
        var size := sizes[|sizes| - 1];
        if Returns(left, size) then Some(LeftAfter(left, size)) else None
  }

  /** How many signed transactions each ExtendVote of a run found newly inserted, and how many
      were inserted since the last one. */
  datatype Batches = Batches(voted: seq<nat>, waiting: nat)

  function BatchesOf(ops: seq<Op>): Batches {
    if |ops| == 0 then Batches([], 0)
    else
      var b := BatchesOf(ops[..|ops| - 1]);
      match ops[|ops| - 1]
      case Insert(tx) => if Sender(tx).Ok? then b.(waiting := b.waiting + 1) else b
      case ExtendVote(_) => Batches(b.voted + [b.waiting], 0)
      case Update(_) => b
      case Remove(_) => b
      case Prepare => b
  }

  /** No PrepareProposal of the run panicked. */
  ghost predicate PreparesReturn(c: Codec, ops: seq<Op>) {
    forall i | 0 <= i < |ops| && ops[i].Prepare? && Run(c, ops[..i]).alive ::
      ReadyWalkReturns(Run(c, ops[..i]).pool.ready)
  }

  /** The pending pool and its cursor, in numbers. */
  predicate Gauged(p: Pool, left: nat, waiting: nat) {
    |p.txs| == left + waiting && p.idx == if left == 0 then 0 else left - 1
  }

  lemma {:induction false} WalkInNumbers(p: Pool, left: nat, size: nat)
    requires |p.txs| == left + size && p.idx == if left == 0 then 0 else left - 1
    ensures WalkReturns(p) <==> Returns(left, size)
  {
  }

  lemma {:induction false} LeftInNumbers(p: Pool, left: nat, size: nat)
    requires |p.txs| == left + size && p.idx == if left == 0 then 0 else left - 1
    requires Returns(left, size)
    ensures LeftAfter(left, size) == |p.txs| - if p.idx < |p.txs| then (|p.txs| - p.idx + 1) / 2 else 0
  {
  }

  lemma {:induction false} VoteInNumbers(m: Mempool, left: nat, waiting: nat)
    requires Gauged(m.pending, left, waiting)
    ensures WalkReturns(m.pending) <==> Returns(left, waiting)
    ensures Returns(left, waiting) ==> Gauged(AfterExtendVote(m).pending, LeftAfter(left, waiting), 0)
  {
    hide AfterExtendVote, Strided;
    WalkInNumbers(m.pending, left, waiting);
    if Returns(left, waiting) {
      LeftInNumbers(m.pending, left, waiting);
      Cursors.LiveCursor(m);
      if |m.pending.txs| == 0 {
        EmptyWalk(m);
      }
    }
  }

  lemma {:induction false} EmptyWalk(m: Mempool)
    requires |m.pending.txs| == 0
    ensures AfterExtendVote(m).pending.idx == m.pending.idx
  {
  }

  lemma {:induction false} LeftNext(sizes: seq<nat>, size: nat)
    ensures Left(sizes + [size]) ==
            match Left(sizes)
            case None => None
            case Some(left) => if Returns(left, size) then Some(LeftAfter(left, size)) else None
  {
    assert (sizes + [size])[..|sizes|] == sizes;
  }

  lemma {:induction false} PreparesReturnNext(c: Codec, front: seq<Op>, op: Op)
    ensures PreparesReturn(c, front + [op]) <==>
            PreparesReturn(c, front)
            && (op.Prepare? && Run(c, front).alive ==> ReadyWalkReturns(Run(c, front).pool.ready))
  {
    hide ReadyWalkReturns, Run;
    var ops := front + [op];
    assert ops[..|front|] == front && ops[|front|] == op;
    assert forall i | 0 <= i < |front| :: ops[..i] == front[..i] && ops[i] == front[i];
  }

  lemma {:induction false} StepSurvives(c: Codec, n: Node, op: Op, left: nat, waiting: nat)
    requires n.alive && !op.Update? && Gauged(n.pool.pending, left, waiting)
    ensures var n' := Step(c, n, op);
            match op
            case Insert(tx) =>
              n'.alive && Gauged(n'.pool.pending, left, if Sender(tx).Ok? then waiting + 1 else waiting)
            case ExtendVote(_) =>
              && (n'.alive <==> Returns(left, waiting))
              && (n'.alive ==> Gauged(n'.pool.pending, LeftAfter(left, waiting), 0))
            case Prepare =>
              (n'.alive <==> ReadyWalkReturns(n.pool.ready)) && Gauged(n'.pool.pending, left, waiting)
            case Remove(_) => n'.alive && Gauged(n'.pool.pending, left, waiting)
            case Update(_) => true
  {
    hide AfterExtendVote, WalkReturns, Returns, LeftAfter, Strided;
    if op.ExtendVote? {
      VoteInNumbers(n.pool, left, waiting);
    }
  }

  /** A node survives a run exactly when `Left` of its batch sizes is defined and no
      PrepareProposal panicked. Then what its last vote left over and what was inserted since
      are pending. Prepare and Remove may come anywhere in between. */
  lemma {:induction false} SurvivesIff(c: Codec, ops: seq<Op>)
    requires InApp(ops)
    ensures var n, b := Run(c, ops), BatchesOf(ops);
            && (n.alive <==> Left(b.voted).Some? && PreparesReturn(c, ops))
            && (n.alive ==> Gauged(n.pool.pending, Left(b.voted).value, b.waiting))
  {
    if |ops| > 0 {
      hide Step, Gauged, Returns, LeftAfter, ReadyWalkReturns, PreparesReturn, Left;
      var front, op := ops[..|ops| - 1], ops[|ops| - 1];
      SurvivesIff(c, front);
      assert ops == front + [op];
      PreparesReturnNext(c, front, op);
      var n, b := Run(c, front), BatchesOf(front);
      if op.ExtendVote? {
        LeftNext(b.voted, b.waiting);
      }
      if n.alive {
        StepSurvives(c, n, op, Left(b.voted).value, b.waiting);
      } else {
        DeadStaysDead(c, n, op);
      }
    }
  }

  /** No PrepareProposal panics in a run whose `Remove` calls never break the ready cursor. */
  lemma {:induction false} UnbrokenPreparesReturn(c: Codec, ops: seq<Op>)
    requires forall i | 0 <= i < |ops| :: !Cursors.BreaksAt(c, ops, i)
    ensures PreparesReturn(c, ops)
  {
    Cursors.ReadyCursorSafeIff(c, ops);
    forall i | 0 <= i < |ops| && ops[i].Prepare? && Run(c, ops[..i]).alive
      ensures ReadyWalkReturns(Run(c, ops[..i]).pool.ready)
    {
      assert Cursors.Safe(Run(c, ops[..i]).pool.ready);
    }
  }

  lemma {:induction false} LeftPrefix(sizes: seq<nat>, more: seq<nat>)
    requires |more| > 0
    ensures (sizes + more)[..|sizes + more| - 1] == sizes + more[..|more| - 1]
  {
  }

  /** Once two transactions are left over, the node lives on exactly while every batch is of
      odd size, and the number left over never goes down again. */
  lemma {:induction false} BacklogNeverClears(sizes: seq<nat>, more: seq<nat>)
    requires Left(sizes).Some? && Left(sizes).value >= 2
    ensures Left(sizes + more).Some? <==> forall i | 0 <= i < |more| :: more[i] % 2 == 1
    ensures Left(sizes + more).Some? ==> Left(sizes + more).value >= Left(sizes).value
  {
    if |more| == 0 {
      assert sizes + more == sizes;
    } else {
      var front := more[..|more| - 1];
      BacklogNeverClears(sizes, front);
      LeftPrefix(sizes, more);
      assert forall i | 0 <= i < |front| :: front[i] == more[i];
    }
  }
}
