/** The environment of one node: BaseApp calling the mempool and the handlers. */
module Replay {
  import opened Types
  import opened Pools
  import opened ThresholdPool
  import opened Nodes
  import Proposal
  import Votes
  import VoteExt

  /** What a call hands back to BaseApp. */
  datatype Answer = Done | Extension(bytes: Bytes) | Offered(txs: seq<Tx>) | Died

  function TxsOfWalks(walks: seq<seq<ThTx>>): seq<seq<Tx>> {
    seq(|walks|, i requires 0 <= i < |walks| => TxsOf(walks[i]))
  }

  /** What the state machine's logs say a call answered. */
  ghost predicate Answers(c: Codec, n: Node, op: Op, answer: Answer) {
    var n' := Step(c, n, op);
    && n'.alive == !answer.Died?
    && Votes.PrintAll(c, n'.extensions) ==
       Votes.PrintAll(c, n.extensions) + (if answer.Extension? then [answer.bytes] else [])
    && TxsOfWalks(n'.walks) == TxsOfWalks(n.walks) + (if answer.Offered? then [answer.txs] else [])
  }

  lemma {:induction false} PrintAllNext(c: Codec, extensions: seq<Record>, r: Record)
    ensures Votes.PrintAll(c, extensions + [r]) == Votes.PrintAll(c, extensions) + [c.printRecord(r)]
  {
    assert (extensions + [r])[..|extensions|] == extensions;
  }

  /** The answer of a call, read off the machine. */
  function AnswerOf(c: Codec, m: Mempool, op: Op): Answer {
    match op
    case ExtendVote(height) =>
      if WalkReturns(m.pending) then Extension(VoteExt.Extension(c, m, height)) else Died
    case Prepare => if ReadyWalkReturns(m.ready) then Offered(TxsOf(ReadyWalk(m.ready))) else Died
    case Insert(_) => Done
    case Update(_) => Done
    case Remove(_) => Done
  }

  lemma {:induction false} AnswerIsLogged(c: Codec, n: Node, op: Op)
    requires n.alive
    ensures Answers(c, n, op, AnswerOf(c, n.pool, op))
  {
    hide Votes.PrintAll, VoteExt.Reported, Visited, AfterExtendVote, WalkReturns;
    var none: seq<Bytes>, nothing: seq<seq<Tx>> := [], [];
    assert Votes.PrintAll(c, n.extensions) + none == Votes.PrintAll(c, n.extensions);
    assert TxsOfWalks(n.walks) + nothing == TxsOfWalks(n.walks);
    match op
    case ExtendVote(height) =>
      PrintAllNext(c, n.extensions, Record(height, VoteExt.Reported(c, Visited(n.pool))));
    case Prepare =>
      assert TxsOfWalks(n.walks + [ReadyWalk(n.pool.ready)]) ==
             TxsOfWalks(n.walks) + [TxsOf(ReadyWalk(n.pool.ready))];
    case Insert(_) =>
    case Update(_) =>
    case Remove(_) =>
  }

  method Call(c: Codec, m: ThresholdMempool, op: Op) returns (answer: Answer)
    requires m.Valid()
    modifies m.Repr()
    ensures m.Valid() && fresh(m.Repr() - old(m.Repr()))
    ensures answer == AnswerOf(c, old(m.State()), op)
    ensures forall n: Node | n.alive && n.pool == old(m.State()) :: m.State() == Step(c, n, op).pool
  {
    answer := Done;
    match op {
      case Insert(tx) =>
        var _ := m.Insert(tx);
      case Update(tx) =>
        var _ := m.Update(tx);
      case Remove(tx) =>
        var _ := m.Remove(tx);
      case ExtendVote(height) =>
        var r := VoteExt.ExtendVote(c, m, height);
        answer := if r.Returned? then Extension(r.value) else Died;
      case Prepare =>
        var r := Proposal.WalkReady(m);
        answer := if r.Returned? then Offered(r.value) else Died;
    }
  }

  /** Any sequence of calls on the slices and cursors goes through the states of `Nodes.Run`
      and answers what its logs say, so what is proved about runs holds of the classes. */
  method CallAll(c: Codec, ops: seq<Op>)
      returns (m: ThresholdMempool, alive: bool, extensions: seq<Bytes>, offers: seq<seq<Tx>>)
    ensures m.Valid() && fresh(m.Repr())
    ensures m.State() == Run(c, ops).pool && alive == Run(c, ops).alive
    ensures extensions == Votes.PrintAll(c, Run(c, ops).extensions)
    ensures offers == TxsOfWalks(Run(c, ops).walks)
  {
    hide Step, Votes.PrintAll, AnswerOf;
    m := new ThresholdMempool();
    alive, extensions, offers := true, [], [];
    StartIsSilent(c);
    for i := 0 to |ops|
      invariant m.Valid() && fresh(m.Repr())
      invariant m.State() == Run(c, ops[..i]).pool && alive == Run(c, ops[..i]).alive
      invariant extensions == Votes.PrintAll(c, Run(c, ops[..i]).extensions)
      invariant offers == TxsOfWalks(Run(c, ops[..i]).walks)
    {
      ghost var n := Run(c, ops[..i]);
      assert ops[..i + 1][..i] == ops[..i];
      if alive {
        AnswerIsLogged(c, n, ops[i]);
        var answer := Call(c, m, ops[i]);
        match answer {
          case Done =>
          case Extension(bytes) => extensions := extensions + [bytes];
          case Offered(txs) => offers := offers + [txs];
          case Died => alive := false;
        }
      } else {
        DeadStaysDead(c, n, ops[i]);
      }
    }
    assert ops[..|ops|] == ops;
  }

  lemma {:induction false} StartIsSilent(c: Codec)
    ensures Votes.PrintAll(c, START.extensions) == [] && TxsOfWalks(START.walks) == []
  {
  }
}
