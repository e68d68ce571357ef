/** A validator set that votes, proposes, validates and finalizes one bid per round. */
module Rounds {
  import opened Types
  import opened Pools
  import opened Nodes
  import opened Proposal
  import opened Provider
  import opened VoteExt
  import Cursors
  import Reports
  import Threshold
  import Votes

  /** `holders` received the transaction before voting at `voteHeight`; `voters` lists whose
      extensions the proposer at `height` collected, in its order. */
  datatype Round = Round(tx: Tx, bid: Bid, holders: set<nat>, proposer: nat, voteHeight: int64,
    height: int64, voters: seq<nat>)

  /** A signed and encodable transaction with exactly one bid, held by the proposer. */
  predicate Good(c: Codec, size: nat, r: Round) {
    && r.height > 2
    && r.proposer < size && r.proposer in r.holders
    && (forall i | 0 <= i < |r.voters| :: r.voters[i] < size)
    && Sender(r.tx).Ok? && BidsOfMsgs(r.tx.msgs) == [r.bid]
    && c.encodeTx(r.tx).Some? && c.marshalBid(r.bid).Some? && Hash(c, r.bid).Some?
  }

  // ----- The calls of a round, validator by validator -----

  function Voted(c: Codec, n: Node, r: Round, i: nat): Node {
    Step(c, if i in r.holders then Step(c, n, Insert(r.tx)) else n, ExtendVote(r.voteHeight))
  }

  function Finalized(c: Codec, n: Node, r: Round, i: nat): Node {
    Step(c, if i == r.proposer then Step(c, n, Prepare) else n, Remove(r.tx))
  }

  function LastExtension(c: Codec, n: Node): Bytes {
    if |n.extensions| == 0 then [] else c.printRecord(n.extensions[|n.extensions| - 1])
  }

  function CollectedVotes(c: Codec, nodes: seq<Node>, r: Round): seq<Bytes>
    requires Good(c, |nodes|, r)
  {
    seq(|r.voters|, i requires 0 <= i < |r.voters| =>
      LastExtension(c, Voted(c, nodes[r.voters[i]], r, r.voters[i])))
  }

  function RoundProposal(c: Codec, nodes: seq<Node>, r: Round, provider: Option<TxProvider>): Outcome<seq<Bytes>>
    requires Good(c, |nodes|, r)
  {
    Prepared(c, provider, r.height, CollectedVotes(c, nodes, r),
             Voted(c, nodes[r.proposer], r, r.proposer).pool.ready)
  }

  function AfterRound(c: Codec, nodes: seq<Node>, r: Round): seq<Node> {
    seq(|nodes|, i requires 0 <= i < |nodes| => Finalized(c, Voted(c, nodes[i], r, i), r, i))
  }

  predicate Fresh(nodes: seq<Node>) {
    forall i | 0 <= i < |nodes| :: nodes[i].alive && nodes[i].pool == EMPTY
  }

  // ----- One validator -----

  lemma {:induction false} NoBidNoReport(c: Codec, msgs: seq<Msg>)
    requires BidsOfMsgs(msgs) == []
    ensures ReportOfMsgs(c, msgs) == []
  {
    if |msgs| > 0 {
      NoBidNoReport(c, msgs[..|msgs| - 1]);
    }
  }

  lemma {:induction false} OneBidOneReport(c: Codec, msgs: seq<Msg>, bid: Bid)
    requires BidsOfMsgs(msgs) == [bid] && c.marshalBid(bid).Some?
    ensures ReportOfMsgs(c, msgs) == [c.marshalBid(bid).value]
  {
    var front, last := msgs[..|msgs| - 1], msgs[|msgs| - 1];
    if last.BidMsg? {
      var before := BidsOfMsgs(front);
      assert |before + [last.bid]| == 1;
      assert before == [] && [last.bid][0] == [bid][0];
      NoBidNoReport(c, front);
      assert ReportOf(c, last) == [c.marshalBid(bid).value];
    } else {
      assert BidsOfMsgs(front) == [bid];
      OneBidOneReport(c, front, bid);
    }
  }

  lemma {:induction false} WalkOfNone()
    ensures WalkReturns(EMPTY.pending) && Visited(EMPTY) == [] && AfterExtendVote(EMPTY) == EMPTY
  {
    assert Readied([]) == [];
    assert RemoveEach([], []) == [];
  }

  lemma {:induction false} ReportedNone(c: Codec)
    ensures Reported(c, []) == []
  {
  }

  lemma {:induction false} VotedNode(c: Codec, size: nat, n: Node, r: Round, i: nat)
    requires Good(c, size, r) && n.alive && n.pool == EMPTY
    ensures var v := Voted(c, n, r, i);
            var entry := ThTx(Sender(r.tx).value, 1, r.tx);
            && v.alive
            && v.pool == Mempool(Pool(0, []), Pool(0, if i in r.holders then [entry] else []))
            && v.extensions == n.extensions + [Record(r.voteHeight,
                 if i in r.holders then [c.marshalBid(r.bid).value] else [])]
  {
    hide Strided, RemoveEach, AfterExtendVote, Visited, WalkReturns, Reported, ReportOfMsgs, BidsOfMsgs;
    if i in r.holders {
      var e := ThTx(Sender(r.tx).value, 0, r.tx);
      assert [] + [e] == [e];
      assert Step(c, n, Insert(r.tx)).pool == Mempool(Pool(0, [e]), Pool(0, []));
      Cursors.WalkOfOne(e, Pool(0, []));
      assert [] + [Stamp(e)] == [Stamp(e)];
      Reports.ReportedOne(c, e);
      OneBidOneReport(c, r.tx.msgs, r.bid);
    } else {
      WalkOfNone();
      ReportedNone(c);
    }
  }

  lemma {:induction false} FinalizedNode(c: Codec, size: nat, n: Node, r: Round, i: nat)
    requires Good(c, size, r) && n.alive && n.pool == EMPTY
    ensures var f := Finalized(c, Voted(c, n, r, i), r, i); f.alive && f.pool == EMPTY
  {
    hide Voted;
    VotedNode(c, size, n, r, i);
    var entry := ThTx(Sender(r.tx).value, 1, r.tx);
    assert FirstMatch([entry], entry) == 0 && Delete([entry], 0) == [];
  }

  lemma {:induction false} AfterRoundFresh(c: Codec, nodes: seq<Node>, r: Round)
    requires Good(c, |nodes|, r) && Fresh(nodes)
    ensures Fresh(AfterRound(c, nodes, r))
  {
    forall i | 0 <= i < |nodes|
      ensures AfterRound(c, nodes, r)[i].alive && AfterRound(c, nodes, r)[i].pool == EMPTY
    {
      FinalizedNode(c, |nodes|, nodes[i], r, i);
    }
  }

  // ----- The special transaction -----

  /** How many of the collected votes report the bid. */
  function HoldersAmong(voters: seq<nat>, holders: set<nat>): nat {
    if |voters| == 0 then 0
    else HoldersAmong(voters[..|voters| - 1], holders)
         + (if voters[|voters| - 1] in holders then 1 else 0)
  }

  function VoteRecords(c: Codec, r: Round, voters: seq<nat>): seq<Record>
    requires c.marshalBid(r.bid).Some?
  {
    seq(|voters|, i requires 0 <= i < |voters| =>
      Record(r.voteHeight, if voters[i] in r.holders then [c.marshalBid(r.bid).value] else []))
  }

  lemma {:induction false} PrintAllAt(c: Codec, records: seq<Record>)
    ensures Votes.PrintAll(c, records) ==
            seq(|records|, i requires 0 <= i < |records| => c.printRecord(records[i]))
  {
    if |records| > 0 {
      PrintAllAt(c, records[..|records| - 1]);
    }
  }

  lemma {:induction false} CollectedAre(c: Codec, nodes: seq<Node>, r: Round)
    requires Good(c, |nodes|, r) && Fresh(nodes)
    ensures CollectedVotes(c, nodes, r) == Votes.PrintAll(c, VoteRecords(c, r, r.voters))
  {
    hide Step, Voted;
    PrintAllAt(c, VoteRecords(c, r, r.voters));
    forall i | 0 <= i < |r.voters|
      ensures CollectedVotes(c, nodes, r)[i] == c.printRecord(VoteRecords(c, r, r.voters)[i])
    {
      VotedNode(c, |nodes|, nodes[r.voters[i]], r, r.voters[i]);
    }
  }

  lemma {:induction false} RecordsBids(c: Codec, r: Round, voters: seq<nat>)
    requires c.marshalBid(r.bid).Some?
    ensures Votes.AllBids(VoteRecords(c, r, voters)) ==
            Votes.Repeat([c.marshalBid(r.bid).value], HoldersAmong(voters, r.holders))
  {
    if |voters| > 0 {
      var front := voters[..|voters| - 1];
      RecordsBids(c, r, front);
      assert VoteRecords(c, r, voters)[..|voters| - 1] == VoteRecords(c, r, front);
    }
  }

  lemma {:induction false} UnmarshalledRepeat(c: Codec, bid: Bid, times: nat)
    requires c.Lawful() && c.marshalBid(bid).Some?
    ensures Unmarshalled(c, Votes.Repeat([c.marshalBid(bid).value], times)) == Votes.Repeat([bid], times)
  {
    if times > 0 {
      var bz := c.marshalBid(bid).value;
      UnmarshalledRepeat(c, bid, times - 1);
      Votes.UnmarshalledAppend(c, Votes.Repeat([bz], times - 1), [bz]);
      assert Unmarshalled(c, [bz]) == [bid];
    }
  }

  /** The special transaction of a round holds the bid once for every holder that voted. */
  lemma {:induction false} SpecialOfRound(c: Codec, nodes: seq<Node>, r: Round)
    requires c.Lawful() && Good(c, |nodes|, r) && Fresh(nodes)
    ensures var st, u := Special(c, CollectedVotes(c, nodes, r)), HoldersAmong(r.voters, r.holders);
            |st.bids| == u && Unmarshalled(c, st.bids) == Votes.Repeat([r.bid], u)
  {
    hide Special, CollectedVotes, Hash, BidsOfMsgs, HoldersAmong, Unmarshalled;
    hide Votes.AllBids, Votes.PrintAll, Votes.TotalReports, Votes.Repeat;
    var u := HoldersAmong(r.voters, r.holders);
    CollectedAre(c, nodes, r);
    Votes.AllDecoded(c, VoteRecords(c, r, r.voters), []);
    RecordsBids(c, r, r.voters);
    UnmarshalledRepeat(c, r.bid, u);
    Votes.RepeatCount([c.marshalBid(r.bid).value], u, []);
  }

  /** `times` reports of one bid endorse a body exactly when they are at most one, or the body
      holds no other bid. */
  lemma {:induction false} EndorsedByOne(c: Codec, bid: Bid, times: nat, body: seq<Bytes>)
    requires c.Lawful() && Hash(c, bid).Some? && Decodable(c, body) && Hashable(c, BidsOfBody(c, body))
    ensures Endorsed(c, Votes.Repeat([bid], times), body) <==>
            times <= 1 || forall b: Bid | b in BidsOfBody(c, body) :: b == bid
  {
    hide Hash, BidsOfBody;
    var reports := Votes.Repeat([bid], times);
    Votes.RepeatHashable(c, [bid], times);
    Threshold.EndorsedIff(c, reports, body);
    forall b: Bid
      ensures multiset(reports)[b] == if b == bid then times else 0
    {
      Votes.RepeatCount([bid], times, b);
      assert multiset([bid])[b] == if b == bid then 1 else 0;
    }
    Votes.RepeatCount([bid], times, bid);
    assert |reports| == times;
  }

  /** The verdict on a proposal of the round, from the bids in its body. */
  lemma {:induction false} VerdictOfRound(c: Codec, nodes: seq<Node>, r: Round, body: seq<Bytes>)
    requires c.Lawful() && Good(c, |nodes|, r) && Fresh(nodes) && Decodable(c, body)
    requires Hashable(c, BidsOfBody(c, body))
    ensures var u := HoldersAmong(r.voters, r.holders);
            Accepts(c, [c.printRecord(Special(c, CollectedVotes(c, nodes, r)))] + body) <==>
            u <= 1 || forall bid: Bid | bid in BidsOfBody(c, body) :: bid == r.bid
  {
    hide Special, CollectedVotes, Hash, HoldersAmong, Endorsed, Accepts;
    var st, u := Special(c, CollectedVotes(c, nodes, r)), HoldersAmong(r.voters, r.holders);
    Votes.AcceptsIffEndorsed(c, st, body);
    SpecialOfRound(c, nodes, r);
    EndorsedByOne(c, r.bid, u, body);
  }

  // ----- Rounds without a provider -----

  lemma {:induction false} ReadyOfOne(e: ThTx)
    ensures ReadyWalkReturns(Pool(0, [e])) && TxsOf(ReadyWalk(Pool(0, [e]))) == [e.tx]
  {
    assert [e][0..] == [e];
  }

  lemma {:induction false} BodyOfOne(c: Codec, tx: Tx)
    requires c.Lawful() && c.encodeTx(tx).Some?
    ensures Encoded(c, [tx]) == [c.encodeTx(tx).value]
    ensures Decodable(c, Encoded(c, [tx]))
    ensures BidsOfBody(c, Encoded(c, [tx])) == BidsOfMsgs(tx.msgs)
  {
    var body := Encoded(c, [tx]);
    assert body == [c.encodeTx(tx).value];
    assert body[..0] == [];
  }

  /** A proposer without a provider offers exactly the special transaction and the bid's
      transaction, and the proposal is accepted. */
  lemma {:induction false} HonestRound(c: Codec, nodes: seq<Node>, r: Round)
    requires c.Lawful() && Good(c, |nodes|, r) && Fresh(nodes)
    ensures var txs := [c.printRecord(Special(c, CollectedVotes(c, nodes, r))), c.encodeTx(r.tx).value];
            RoundProposal(c, nodes, r, None) == Returned(txs) && Accepts(c, txs)
  {
    hide Special, CollectedVotes, Voted, Accepts, Hash, BidsOfMsgs, BidsOfBody;
    VotedNode(c, |nodes|, nodes[r.proposer], r, r.proposer);
    ReadyOfOne(ThTx(Sender(r.tx).value, 1, r.tx));
    BodyOfOne(c, r.tx);
    VerdictOfRound(c, nodes, r, Encoded(c, [r.tx]));
    var st := c.printRecord(Special(c, CollectedVotes(c, nodes, r)));
    assert [st] + [c.encodeTx(r.tx).value] == [st, c.encodeTx(r.tx).value];
  }

  function AfterRounds(c: Codec, nodes: seq<Node>, rounds: seq<Round>): seq<Node> {
    if |rounds| == 0 then nodes
    else AfterRound(c, AfterRounds(c, nodes, rounds[..|rounds| - 1]), rounds[|rounds| - 1])
  }

  lemma {:induction false} RoundsStayFresh(c: Codec, nodes: seq<Node>, rounds: seq<Round>)
    requires c.Lawful() && Fresh(nodes)
    requires forall i | 0 <= i < |rounds| :: Good(c, |nodes|, rounds[i])
    ensures Fresh(AfterRounds(c, nodes, rounds)) && |AfterRounds(c, nodes, rounds)| == |nodes|
  {
    if |rounds| > 0 {
      var front := rounds[..|rounds| - 1];
      RoundsStayFresh(c, nodes, front);
      AfterRoundFresh(c, AfterRounds(c, nodes, front), rounds[|rounds| - 1]);
    }
  }

  /** Over any number of such rounds from empty mempools, each proposal is the special
      transaction and the one bid transaction and is accepted, and after the last `Remove`
      all pools and cursors are back at the start. */
  lemma {:induction false} EveryRoundAccepted(c: Codec, size: nat, rounds: seq<Round>, k: nat)
    requires c.Lawful() && k < |rounds|
    requires forall i | 0 <= i < |rounds| :: Good(c, size, rounds[i])
    ensures var start := seq(size, _ => START);
            var nodes, r := AfterRounds(c, start, rounds[..k]), rounds[k];
            && |nodes| == size
            && var txs := [c.printRecord(Special(c, CollectedVotes(c, nodes, r))), c.encodeTx(r.tx).value];
               RoundProposal(c, nodes, r, None) == Returned(txs) && Accepts(c, txs)
    ensures Fresh(AfterRounds(c, seq(size, _ => START), rounds))
  {
    var start := seq(size, _ => START);
    assert Fresh(start);
    RoundsStayFresh(c, start, rounds[..k]);
    HonestRound(c, AfterRounds(c, start, rounds[..k]), rounds[k]);
    RoundsStayFresh(c, start, rounds);
  }

  // ----- Rounds with a provider -----

  /** A counter-bid is the bid itself only for the provider's own bid of nothing. */
  lemma {:induction false} CounterIsBidIff(p: TxProvider, bid: Bid)
    ensures p.MatchingBid(bid) == bid <==>
            && bid.owner == bid.resolveAddress == p.account
            && forall i | 0 <= i < |bid.amount| :: bid.amount[i].amount == 0
  {
    var doubled := Doubled(bid.amount);
    forall i | 0 <= i < |bid.amount|
      ensures doubled[i] == bid.amount[i] <==> bid.amount[i].amount == 0
    {
      assert doubled[i] == Coin(bid.amount[i].denom, 2 * bid.amount[i].amount);
    }
    if forall i | 0 <= i < |bid.amount| :: bid.amount[i].amount == 0 {
      assert doubled == bid.amount;
    }
  }

  /** The counter-bids of a plan are for the bids of its messages. */
  lemma {:induction false} CountersOf(tx: Tx, msgs: seq<Msg>)
    ensures forall s | s in PlanMsgs(tx, msgs) ::
              (s.Counter? ==> s.bid in BidsOfMsgs(msgs)) && (s.Copy? ==> s.tx == tx)
    ensures forall bid | bid in BidsOfMsgs(msgs) :: Counter(bid) in PlanMsgs(tx, msgs)
    ensures |PlanMsgs(tx, msgs)| >= |msgs|
  {
    if |msgs| > 0 {
      CountersOf(tx, msgs[..|msgs| - 1]);
      var last := msgs[|msgs| - 1];
      if last.BidMsg? {
        assert Counter(last.bid) == SlotsOf(tx, last)[0];
      }
    }
  }

  /** The body a provider makes of a transaction with one bid: it decodes, and its bids are
      that bid and the counter-bid, the latter certainly. */
  lemma {:induction false} SnipedBody(c: Codec, p: TxProvider, tx: Tx, bid: Bid)
    requires c.Lawful() && p.Faithful() && BidsOfMsgs(tx.msgs) == [bid]
    requires c.encodeTx(tx).Some? && c.encodeTx(p.sign(p.MatchingBid(bid))).Some?
    ensures var body := Encoded(c, FillAll(p, Plan([tx])));
            && Decodable(c, body)
            && p.MatchingBid(bid) in BidsOfBody(c, body)
            && forall b: Bid | b in BidsOfBody(c, body) :: b == bid || b == p.MatchingBid(bid)
  {
    hide PlanMsgs, Plan, BidsOfMsgs, BidsOfBody;
    var counter := p.sign(p.MatchingBid(bid));
    var plan := PlanMsgs(tx, tx.msgs);
    PlanOfOne(tx);
    CountersOf(tx, tx.msgs);
    var txs := FillAll(p, plan);
    var body := Encoded(c, txs);
    forall i | 0 <= i < |plan|
      ensures c.decodeTx(body[i]) == Some(txs[i]) && (txs[i] == tx || txs[i] == counter)
    {
      assert plan[i] in plan;
    }
    assert Decodable(c, body);
    BidsOfSingle(counter.msgs, p.MatchingBid(bid));
    forall b: Bid | b in BidsOfBody(c, body) ensures b == bid || b == p.MatchingBid(bid) {
      Threshold.BodyBidIff(c, body, b);
    }
    assert bid in BidsOfMsgs(tx.msgs);
    var k :| 0 <= k < |plan| && plan[k] == Counter(bid);
    assert txs[k] == counter;
    Threshold.BodyBidIff(c, body, p.MatchingBid(bid));
  }

  lemma {:induction false} PlanOfOne(tx: Tx)
    ensures Plan([tx]) == PlanMsgs(tx, tx.msgs)
  {
    assert [tx][..0] == [];
  }

  lemma {:induction false} BidsOfSingle(msgs: seq<Msg>, bid: Bid)
    requires |msgs| == 1 && msgs[0].BidMsg? && msgs[0].bid == bid
    ensures BidsOfMsgs(msgs) == [bid]
  {
    assert msgs[..0] == [];
  }

  /** A proposer that front-runs the bid is rejected exactly when at least two of the collected
      votes report it; only a counter-bid equal to the bid itself would pass. */
  lemma {:induction false} SnipeRejection(c: Codec, nodes: seq<Node>, r: Round, p: TxProvider)
    requires c.Lawful() && Good(c, |nodes|, r) && Fresh(nodes) && p.Faithful()
    requires c.encodeTx(p.sign(p.MatchingBid(r.bid))).Some? && Hash(c, p.MatchingBid(r.bid)).Some?
    ensures var proposal := RoundProposal(c, nodes, r, Some(p));
            && proposal.Returned?
            && (!Accepts(c, proposal.value) <==>
                HoldersAmong(r.voters, r.holders) >= 2 && p.MatchingBid(r.bid) != r.bid)
  {
    hide Special, CollectedVotes, Voted, Accepts, Hash, BidsOfMsgs, BidsOfBody, Plan, FillAll;
    VotedNode(c, |nodes|, nodes[r.proposer], r, r.proposer);
    ReadyOfOne(ThTx(Sender(r.tx).value, 1, r.tx));
    SnipedBody(c, p, r.tx, r.bid);
    var body := Encoded(c, FillAll(p, Plan([r.tx])));
    forall i | 0 <= i < |BidsOfBody(c, body)| ensures Hash(c, BidsOfBody(c, body)[i]).Some? {
      assert BidsOfBody(c, body)[i] in BidsOfBody(c, body);
    }
    VerdictOfRound(c, nodes, r, body);
  }

  /** A bid with a non-zero coin cannot be front-run once two collected votes report it. */
  lemma {:induction false} NonZeroBidIsSafe(c: Codec, nodes: seq<Node>, r: Round, p: TxProvider)
    requires c.Lawful() && Good(c, |nodes|, r) && Fresh(nodes) && p.Faithful()
    requires c.encodeTx(p.sign(p.MatchingBid(r.bid))).Some? && Hash(c, p.MatchingBid(r.bid)).Some?
    requires exists i | 0 <= i < |r.bid.amount| :: r.bid.amount[i].amount != 0
    ensures var proposal := RoundProposal(c, nodes, r, Some(p));
            && proposal.Returned?
            && (!Accepts(c, proposal.value) <==> HoldersAmong(r.voters, r.holders) >= 2)
  {
    hide RoundProposal, Accepts;
    CounterIsBidIff(p, r.bid);
    SnipeRejection(c, nodes, r, p);
  }
}
