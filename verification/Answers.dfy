/** What PrepareProposal and ProcessProposal answer, from the pool entries, the messages and
    the reported byte strings themselves. */
module Answers {
  import opened Types
  import opened Pools
  import opened Proposal
  import opened Provider
  import Threshold

  // ----- ProcessProposal -----

  lemma {:induction false} BidsOfMsgsAppend(a: seq<Msg>, b: seq<Msg>)
    ensures BidsOfMsgs(a + b) == BidsOfMsgs(a) + BidsOfMsgs(b)
  {
    if |b| == 0 {
      assert a + b == a;
    } else {
      BidsOfMsgsAppend(a, b[..|b| - 1]);
      assert (a + b)[..|a + b| - 1] == a + b[..|b| - 1];
    }
  }

  lemma {:induction false} BidsOfOne(msg: Msg)
    ensures BidsOfMsgs([msg]) == if msg.BidMsg? then [msg.bid] else []
  {
    assert [msg][..0] == [];
  }

  /** The bids collected from two bodies put together are those of the first, then those of the
      second; from one transaction they are the bids of its messages. */
  lemma {:induction false} BidsOfBodyAppend(c: Codec, a: seq<Bytes>, b: seq<Bytes>)
    requires Decodable(c, a) && Decodable(c, b)
    ensures Decodable(c, a + b) && BidsOfBody(c, a + b) == BidsOfBody(c, a) + BidsOfBody(c, b)
    ensures |b| == 1 ==> BidsOfBody(c, b) == BidsOfMsgs(c.decodeTx(b[0]).value.msgs)
  {
    if |b| == 0 {
      assert a + b == a;
    } else {
      hide BidsOfMsgs;
      BidsOfBodyAppend(c, a, b[..|b| - 1]);
      assert (a + b)[..|a + b| - 1] == a + b[..|b| - 1];
    }
  }

  lemma {:induction false} BidsOfMsgsIff(msgs: seq<Msg>, bid: Bid)
    ensures bid in BidsOfMsgs(msgs) <==>
            exists j | 0 <= j < |msgs| :: msgs[j].BidMsg? && msgs[j].bid == bid
  {
    if |msgs| > 0 {
      var front, last := msgs[..|msgs| - 1], msgs[|msgs| - 1];
      BidsOfMsgsIff(front, bid);
      assert forall j | 0 <= j < |front| :: msgs[j] == front[j];
    }
  }

  ghost function Positions<T>(s: seq<T>, x: T): set<int> {
    set k | 0 <= k < |s| && s[k] == x
  }

  lemma {:induction false} CountIsMultiplicity<T>(s: seq<T>, x: T)
    ensures multiset(s)[x] == |Positions(s, x)|
  {
    if |s| == 0 {
      assert Positions(s, x) == {};
    } else {
      var front, last := s[..|s| - 1], s[|s| - 1];
      CountIsMultiplicity(front, x);
      assert s == front + [last];
      assert Positions(s, x) == if last == x then Positions(front, x) + {|front|} else Positions(front, x);
    }
  }

  /** How many of the reported byte strings unmarshal to the bid. */
  ghost function ReportCount(c: Codec, reported: seq<Bytes>, bid: Bid): nat {
    |set k | 0 <= k < |reported| && c.unmarshalBid(reported[k]) == bid|
  }

  lemma {:induction false} ReportCountIs(c: Codec, reported: seq<Bytes>, bid: Bid)
    ensures ReportCount(c, reported, bid) == multiset(Unmarshalled(c, reported))[bid]
  {
    var bids := Unmarshalled(c, reported);
    CountIsMultiplicity(bids, bid);
    var positions := set k | 0 <= k < |reported| && c.unmarshalBid(reported[k]) == bid;
    assert forall k | 0 <= k < |bids| :: bids[k] == c.unmarshalBid(reported[k]);
    assert positions == Positions(bids, bid);
  }

  /** The bid has JSON and at least half of the reports are for it. */
  ghost predicate Supported(c: Codec, reported: seq<Bytes>, bid: Bid) {
    c.bidJson(bid).Some? && |reported| / 2 <= ReportCount(c, reported, bid)
  }

  /** Every transaction after the first decodes, every report has JSON, and every bid message
      of the decoded transactions is supported. */
  ghost predicate AllSupported(c: Codec, reported: seq<Bytes>, body: seq<Bytes>) {
    && (forall i | 0 <= i < |body| :: c.decodeTx(body[i]).Some?)
    && (forall k | 0 <= k < |reported| :: c.bidJson(c.unmarshalBid(reported[k])).Some?)
    && (forall i | 0 <= i < |body| :: AllMsgsSupported(c, reported, c.decodeTx(body[i]).value.msgs))
  }

  ghost predicate AllMsgsSupported(c: Codec, reported: seq<Bytes>, msgs: seq<Msg>) {
    forall j | 0 <= j < |msgs| && msgs[j].BidMsg? :: Supported(c, reported, msgs[j].bid)
  }

  lemma {:induction false} MsgsSupportedIff(c: Codec, reported: seq<Bytes>, msgs: seq<Msg>)
    ensures AllMsgsSupported(c, reported, msgs) <==>
            forall bid | bid in BidsOfMsgs(msgs) :: Supported(c, reported, bid)
  {
    hide Supported, BidsOfMsgs;
    forall bid
      ensures bid in BidsOfMsgs(msgs) <==> exists j | 0 <= j < |msgs| :: msgs[j].BidMsg? && msgs[j].bid == bid
    {
      BidsOfMsgsIff(msgs, bid);
    }
  }

  lemma {:induction false} BodySupportedIff(c: Codec, reported: seq<Bytes>, body: seq<Bytes>)
    requires Decodable(c, body)
    ensures (forall i | 0 <= i < |body| :: AllMsgsSupported(c, reported, c.decodeTx(body[i]).value.msgs)) <==>
            forall bid | bid in BidsOfBody(c, body) :: Supported(c, reported, bid)
  {
    hide Supported, BidsOfMsgs, BidsOfBody, AllMsgsSupported;
    forall i | 0 <= i < |body|
      ensures AllMsgsSupported(c, reported, c.decodeTx(body[i]).value.msgs) <==>
              forall bid | bid in BidsOfMsgs(c.decodeTx(body[i]).value.msgs) :: Supported(c, reported, bid)
    {
      MsgsSupportedIff(c, reported, c.decodeTx(body[i]).value.msgs);
    }
    forall bid
      ensures bid in BidsOfBody(c, body) <==>
              exists i | 0 <= i < |body| :: bid in BidsOfMsgs(c.decodeTx(body[i]).value.msgs)
    {
      Threshold.BodyBidIff(c, body, bid);
    }
  }

  lemma {:induction false} EndorsedFromMessages(c: Codec, reported: seq<Bytes>, body: seq<Bytes>)
    requires c.Lawful()
    ensures Endorsed(c, Unmarshalled(c, reported), body) <==> AllSupported(c, reported, body)
  {
    hide BidsOfBody, AllMsgsSupported, ReportCount;
    var reports := Unmarshalled(c, reported);
    assert Hashable(c, reports) <==>
           forall k | 0 <= k < |reported| :: c.bidJson(c.unmarshalBid(reported[k])).Some? by {
      assert forall k | 0 <= k < |reported| :: reports[k] == c.unmarshalBid(reported[k]);
    }
    if Decodable(c, body) && Hashable(c, reports) {
      Threshold.EndorsedIff(c, reports, body);
      BodySupportedIff(c, reported, body);
      forall bid: Bid ensures ReportCount(c, reported, bid) == multiset(reports)[bid] {
        ReportCountIs(c, reported, bid);
      }
    }
  }

  /** ProcessProposal accepts exactly the empty proposal, a proposal whose first entry is not a
      special transaction or holds no bids, and one whose bids are all supported. */
  lemma {:induction false} VerdictFromMessages(c: Codec, txs: seq<Bytes>)
    requires c.Lawful()
    ensures Accepts(c, txs) <==>
            || |txs| == 0
            || c.readRecord(txs[0]).None?
            || c.readRecord(txs[0]).value.bids == []
            || AllSupported(c, c.readRecord(txs[0]).value.bids, txs[1..])
  {
    hide Endorsed, AllSupported;
    if |txs| > 0 && c.readRecord(txs[0]).Some? {
      EndorsedFromMessages(c, c.readRecord(txs[0]).value.bids, txs[1..]);
    }
  }

  /** Whatever follows: without a special transaction in front a proposal is accepted. */
  lemma {:induction false} PlainProposalAccepted(c: Codec, txs: seq<Bytes>)
    requires |txs| > 0 ==> c.readRecord(txs[0]).None?
    ensures Accepts(c, txs)
  {
  }

  // ----- PrepareProposal -----

  /** The bytes of a transaction, or no bytes when it does not encode. */
  function BytesOf(c: Codec, tx: Tx): Bytes {
    match c.encodeTx(tx)
    case Some(bz) => bz
    case None => []
  }

  /** How many entries the walk reads. */
  function WalkLength(ready: Pool): nat {
    if ready.idx < |ready.txs| then |ready.txs| - ready.idx else 0
  }

  /** Without a provider: a panic exactly when the pool is not empty and its cursor is out of
      range. Otherwise the special transaction in front exactly above height 2, and then entry
      for entry the bytes of the ready transactions from the cursor on. */
  lemma {:induction false} ProposalWithoutProvider(c: Codec, height: int64, votes: seq<Bytes>, ready: Pool)
    ensures var answer, front := Prepared(c, None, height, votes, ready), if height > 2 then 1 else 0;
            && (answer.Panicked? <==> ready.txs != [] && ready.idx >= |ready.txs|)
            && (answer.Returned? ==>
                  var txs := answer.value;
                  && |txs| == front + WalkLength(ready)
                  && (height > 2 ==> txs[0] == c.printRecord(Special(c, votes)))
                  && forall i | front <= i < |txs| ::
                       txs[i] == BytesOf(c, ready.txs[ready.idx + i - front].tx))
  {
    hide Special;
  }

  /** With a provider, the entries after the special transaction are the bytes of copies and
      counter-bids: a copy of each ready transaction from the cursor on for each of its messages,
      in order, and before each copy for a bid message, and nowhere else, the provider's signed
      counter-bid to that bid. */
  lemma {:induction false} ProposalWithProvider(c: Codec, p: TxProvider, height: int64, votes: seq<Bytes>,
      ready: Pool) returns (slots: seq<Slot>)
    ensures var answer, front := Prepared(c, Some(p), height, votes, ready), if height > 2 then 1 else 0;
            && (answer.Panicked? <==> ready.txs != [] && ready.idx >= |ready.txs|)
            && (answer.Returned? ==>
                  var txs := answer.value;
                  && Preceded(slots)
                  && Copies(slots) == AllMsgs(TxsOf(ready.txs[|ready.txs| - WalkLength(ready)..]))
                  && |txs| == front + |slots|
                  && (height > 2 ==> txs[0] == c.printRecord(Special(c, votes)))
                  && forall j | 0 <= j < |slots| ::
                       txs[front + j] == BytesOf(c, if slots[j].Copy? then slots[j].tx
                                                    else p.sign(p.MatchingBid(slots[j].bid))))
  {
    hide Special, Plan, Preceded, Copies, AllMsgs;
    var walked := TxsOf(ReadyWalk(ready));
    slots := Plan(walked);
    CounterBidsComeFirst(walked);
    assert ready.txs[|ready.txs| - WalkLength(ready)..] == ReadyWalk(ready);
  }

  // ----- The first heights -----

  /** An encoded transaction never reads as a special transaction. */
  ghost predicate TxsDoNotRead(c: Codec) {
    forall tx: Tx {:trigger c.encodeTx(tx)} ::
      c.encodeTx(tx).Some? ==> c.readRecord(c.encodeTx(tx).value).None?
  }

  /** At heights up to 2, where there are no vote extensions yet, whatever PrepareProposal
      proposes from a ready pool in range is accepted, provider on or off. */
  lemma {:induction false} EarlyProposalAccepted(c: Codec, provider: Option<TxProvider>, height: int64,
      votes: seq<Bytes>, ready: Pool)
    requires c.ReadsRecords() && TxsDoNotRead(c) && height <= 2
    requires ready.txs == [] || ready.idx < |ready.txs|
    ensures var answer := Prepared(c, provider, height, votes, ready);
            answer.Returned? && Accepts(c, answer.value)
  {
    var txs := Prepared(c, provider, height, votes, ready).value;
    var body := Encoded(c, Offered(provider, TxsOf(ReadyWalk(ready))));
    assert txs == body;
    if |txs| > 0 {
      assert c.readRecord(txs[0]).None?;
    }
    PlainProposalAccepted(c, txs);
  }
}
