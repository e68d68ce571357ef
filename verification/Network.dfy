/** Any number of validators, any interleaving of calls: where an accepted bid comes from. */
module Network {
  import opened Types
  import opened Nodes
  import opened Pools
  import opened Proposal
  import opened Provider
  import opened Reports
  import opened VoteExt
  import Votes

  datatype Vote = Vote(validator: nat, extension: Bytes)

  datatype Event =
    | At(validator: nat, op: Op)
    | Propose(validator: nat, provider: Option<TxProvider>, height: int64, votes: seq<Vote>)

  function Extensions(votes: seq<Vote>): seq<Bytes> {
    seq(|votes|, i requires 0 <= i < |votes| => votes[i].extension)
  }

  function NetStep(c: Codec, net: seq<Node>, event: Event): seq<Node> {
    var v := event.validator;
    if v >= |net| then net
    else
      match event
      case At(_, op) => net[v := Step(c, net[v], op)]
      case Propose(_, _, _, _) => net[v := Step(c, net[v], Prepare)]
  }

  function NetRun(c: Codec, size: nat, events: seq<Event>): (net: seq<Node>)
    ensures |net| == size
  {
    if |events| == 0 then seq(size, _ => START)
    else NetStep(c, NetRun(c, size, events[..|events| - 1]), events[|events| - 1])
  }

  /** Each vote is one a validator has returned from ExtendVote, or an absent vote. */
  ghost predicate Collected(c: Codec, net: seq<Node>, votes: seq<Vote>) {
    forall i | 0 <= i < |votes| :: votes[i].extension == [] ||
      (votes[i].validator < |net| &&
       exists r | r in net[votes[i].validator].extensions :: votes[i].extension == c.printRecord(r))
  }

  /** `Update` is called by ExtendVote only, and proposals are built from collected votes. */
  ghost predicate Legal(c: Codec, size: nat, events: seq<Event>) {
    forall i | 0 <= i < |events| ::
      match events[i]
      case At(_, op) => !op.Update?
      case Propose(_, _, _, votes) => Collected(c, NetRun(c, size, events[..i]), votes)
  }

  // ----- The invariant -----

  ghost predicate NodeOk(c: Codec, n: Node) {
    WellFormed(n.pool) && Matched(c, n) && Sourced(n)
  }

  ghost predicate NetOk(c: Codec, net: seq<Node>) {
    forall i | 0 <= i < |net| :: NodeOk(c, net[i])
  }

  lemma {:induction false} StepOk(c: Codec, n: Node, op: Op)
    requires NodeOk(c, n) && !op.Update?
    ensures NodeOk(c, Step(c, n, op))
  {
    StepStamped(c, n, op);
    StepMatched(c, n, op);
    StepSourced(c, n, op);
  }

  lemma {:induction false} LegalPrefix(c: Codec, size: nat, events: seq<Event>, k: nat)
    requires Legal(c, size, events) && k <= |events|
    ensures Legal(c, size, events[..k])
  {
    forall i | 0 <= i < k
      ensures match events[..k][i]
              case At(_, op) => !op.Update?
              case Propose(_, _, _, votes) => Collected(c, NetRun(c, size, events[..k][..i]), votes)
    {
      assert events[..k][i] == events[i] && events[..k][..i] == events[..i];
    }
  }

  lemma {:induction false} RunOk(c: Codec, size: nat, events: seq<Event>)
    requires Legal(c, size, events)
    ensures NetOk(c, NetRun(c, size, events))
  {
    if |events| > 0 {
      hide Step, NodeOk;
      var front, event := events[..|events| - 1], events[|events| - 1];
      LegalPrefix(c, size, events, |front|);
      RunOk(c, size, front);
      if event.validator < size {
        StepOk(c, NetRun(c, size, front)[event.validator], if event.At? then event.op else Prepare);
      }
    } else {
      StartOk(c);
    }
  }

  lemma {:induction false} StartOk(c: Codec)
    ensures NodeOk(c, START)
  {
  }

  // ----- Provenance -----

  /** Event `j` is the ExtendVote in which validator `v` published `r`. */
  ghost predicate Publishes(c: Codec, size: nat, events: seq<Event>, j: nat, v: nat, r: Record) {
    && j < |events| && v < size && events[j] == At(v, ExtendVote(r.height))
    && var n := NetRun(c, size, events[..j])[v];
       n.alive && WalkReturns(n.pool.pending) && r.bids == Reported(c, Visited(n.pool))
  }

  lemma {:induction false} PublishesInPrefix(c: Codec, size: nat, events: seq<Event>, k: nat, j: nat, v: nat, r: Record)
    requires k <= |events| && Publishes(c, size, events[..k], j, v, r)
    ensures Publishes(c, size, events, j, v, r)
  {
    assert events[..k][..j] == events[..j];
  }

  /** Every extension in a node's log was published by one of its ExtendVote calls. */
  lemma {:induction false} PublishedBy(c: Codec, size: nat, events: seq<Event>, v: nat, r: Record) returns (j: nat)
    requires v < size && r in NetRun(c, size, events)[v].extensions
    ensures Publishes(c, size, events, j, v, r)
  {
    hide WalkReturns, Reported;
    var front, event := events[..|events| - 1], events[|events| - 1];
    var n := NetRun(c, size, front)[v];
    if r in n.extensions {
      j := PublishedBy(c, size, front, v, r);
      PublishesInPrefix(c, size, events, |front|, j, v, r);
    } else {
      assert event.validator == v;
      j := |front|;
    }
  }

  /** A validator whose vote is among `votes` published the bid in event `j`, walking over a
      transaction with that bid which had been inserted there before. */
  ghost predicate Witnessed(c: Codec, size: nat, events: seq<Event>, votes: seq<Vote>, bid: Bid) {
    exists vote, r, j: nat, e, msg ::
      && vote in votes && vote.extension == c.printRecord(r)
      && Publishes(c, size, events, j, vote.validator, r)
      && c.marshalBid(bid).Some? && c.marshalBid(bid).value in r.bids
      && InsertedBefore(c, size, events[..j], vote.validator, e)
      && msg in e.tx.msgs && msg.BidMsg? && msg.bid == bid
  }

  /** The entry is pending at the validator after these events, and was inserted in them. */
  ghost predicate InsertedBefore(c: Codec, size: nat, events: seq<Event>, v: nat, e: ThTx) {
    v < size && var n := NetRun(c, size, events)[v]; e in Visited(n.pool) && e in n.inserted
  }

  /** A bid in a published extension is in a transaction its walk visited. */
  lemma {:induction false} PublishedBid(c: Codec, n: Node, bz: Bytes) returns (e: ThTx, msg: Msg)
    requires Sourced(n) && bz in Reported(c, Visited(n.pool))
    ensures e in Visited(n.pool) && e in n.inserted && msg in e.tx.msgs
    ensures msg.BidMsg? && c.marshalBid(msg.bid) == Some(bz)
  {
    ReportedIff(c, Visited(n.pool), bz);
    e :| e in Visited(n.pool) && bz in ReportOfMsgs(c, e.tx.msgs);
    StridedFrom(n.pool.pending.txs, n.pool.pending.idx);
    ReportOfMsgsIff(c, e.tx.msgs, bz);
    msg :| msg in e.tx.msgs && msg.BidMsg? && c.marshalBid(msg.bid) == Some(bz);
  }

  lemma {:induction false} CarriedIsWitnessed(c: Codec, size: nat, events: seq<Event>, votes: seq<Vote>, bz: Bytes)
    requires c.Lawful() && Legal(c, size, events) && Collected(c, NetRun(c, size, events), votes)
    requires Votes.Carried(c, Extensions(votes), |votes|, bz)
    ensures Witnessed(c, size, events, votes, c.unmarshalBid(bz))
  {
    hide NetRun, Visited, Reported, WalkReturns, Legal;
    var i :| 0 <= i < |votes| && c.readRecord(Extensions(votes)[i]).Some?
             && bz in c.readRecord(Extensions(votes)[i]).value.bids;
    var vote := votes[i];
    var v := vote.validator;
    var r :| r in NetRun(c, size, events)[v].extensions && vote.extension == c.printRecord(r);
    var j := PublishedBy(c, size, events, v, r);
    LegalPrefix(c, size, events, j);
    RunOk(c, size, events[..j]);
    var e, msg := PublishedBid(c, NetRun(c, size, events[..j])[v], bz);
    assert InsertedBefore(c, size, events[..j], v, e);
    assert c.unmarshalBid(bz) == msg.bid;
  }

  /** Whatever body the proposer appends to a special transaction of at least two bids: if
      the proposal is accepted, every bid in it was witnessed by a collected vote. */
  lemma {:induction false} AcceptedBidsWitnessed(c: Codec, size: nat, events: seq<Event>,
      votes: seq<Vote>, body: seq<Bytes>, bid: Bid)
    requires c.Lawful() && Legal(c, size, events) && Collected(c, NetRun(c, size, events), votes)
    requires |Special(c, Extensions(votes)).bids| >= 2
    requires Accepts(c, [c.printRecord(Special(c, Extensions(votes)))] + body)
    requires Decodable(c, body) && bid in BidsOfBody(c, body)
    ensures Witnessed(c, size, events, votes, bid)
  {
    Votes.AcceptedWasVoted(c, Extensions(votes), body, bid);
    var bz :| Votes.Carried(c, Extensions(votes), |Extensions(votes)|, bz) && c.unmarshalBid(bz) == bid;
    CarriedIsWitnessed(c, size, events, votes, bz);
  }

  /** The same for every proposal PrepareProposal builds in the run, provider on or off: each
      bid was published before the proposal was built, and inserted before it was published. */
  lemma {:induction false} Provenance(c: Codec, size: nat, events: seq<Event>, k: nat, txs: seq<Bytes>,
      bid: Bid)
    requires c.Lawful() && Legal(c, size, events) && k < |events|
    requires events[k].Propose? && events[k].validator < size && events[k].height > 2
    requires var e := events[k];
             Prepared(c, e.provider, e.height, Extensions(e.votes),
                      NetRun(c, size, events[..k])[e.validator].pool.ready) == Returned(txs)
    requires |Special(c, Extensions(events[k].votes)).bids| >= 2 && Accepts(c, txs)
    requires |txs| > 0 && Decodable(c, txs[1..]) && bid in BidsOfBody(c, txs[1..])
    ensures Witnessed(c, size, events[..k], events[k].votes, bid)
  {
    hide Special, Accepts, NetRun, Encoded, Offered;
    LegalPrefix(c, size, events, k);
    var special := c.printRecord(Special(c, Extensions(events[k].votes)));
    assert txs[0] == special;
    assert txs == [special] + txs[1..];
    AcceptedBidsWitnessed(c, size, events[..k], events[k].votes, txs[1..], bid);
  }
}
