/** PrepareProposal and ProcessProposal. */
module Proposal {
  import opened Types
  import opened Pools
  import opened ThresholdPool
  import opened Provider
  import Base64

  // ----- The special transaction -----

  /** The last extension among the first `n` votes that decodes. */
  function LastDecodable(c: Codec, votes: seq<Bytes>, n: nat): Option<Record>
    requires n <= |votes|
  {
    if n == 0 then None
    else
      match c.readRecord(votes[n - 1])
      case Some(ve) => Some(ve)
      case None => LastDecodable(c, votes, n - 1)
  }

  /** What vote `i` adds: the bids of the last decodable extension up to and including it. */
  function Contribution(c: Codec, votes: seq<Bytes>, i: nat): seq<Bytes>
    requires i < |votes|
  {
    match LastDecodable(c, votes, i + 1)
    case Some(ve) => ve.bids
    case None => []
  }

  function Contributions(c: Codec, votes: seq<Bytes>, n: nat): seq<Bytes>
    requires n <= |votes|
  {
    if n == 0 then [] else Contributions(c, votes, n - 1) + Contribution(c, votes, n - 1)
  }

  function Special(c: Codec, votes: seq<Bytes>): SpecialTransaction {
    Record(LastDecodable(c, votes, |votes|).GetOr(Record(0, [])).height,
                Contributions(c, votes, |votes|))
  }

  /** `ve` lives outside the loop, so a vote that does not decode repeats the one before. */
  method ProcessVoteExtensions(c: Codec, votes: seq<Bytes>) returns (st: SpecialTransaction)
    ensures st == Special(c, votes)
  {
    st := Record(0, []);
    var ve := Record(0, []);
    for i := 0 to |votes|
      invariant ve == LastDecodable(c, votes, i).GetOr(Record(0, []))
      invariant st == Record(ve.height, Contributions(c, votes, i))
    {
      match c.readRecord(votes[i]) {
        case Some(decoded) => ve := decoded;
        case None =>
      }
      st := st.(height := ve.height);
      for j := 0 to |ve.bids|
        invariant st == Record(ve.height, Contributions(c, votes, i) + ve.bids[..j])
      {
        st := st.(bids := st.bids + [ve.bids[j]]);
      }
      assert ve.bids[..|ve.bids|] == ve.bids;
    }
  }

  // ----- PrepareProposal -----

  function Header(c: Codec, height: int64, votes: seq<Bytes>): seq<Bytes> {
    if height > 2 then [c.printRecord(Special(c, votes))] else []
  }

  function Offered(provider: Option<TxProvider>, txs: seq<Tx>): seq<Tx> {
    match provider
    case None => txs
    case Some(p) => FillAll(p, Plan(txs))
  }

  /** A transaction that does not encode is appended as no bytes at all. */
  function Encoded(c: Codec, txs: seq<Tx>): seq<Bytes> {
    seq(|txs|, i requires 0 <= i < |txs| => c.encodeTx(txs[i]).GetOr([]))
  }

  function Prepared(c: Codec, provider: Option<TxProvider>, height: int64, votes: seq<Bytes>,
      ready: Pool): Outcome<seq<Bytes>>
  {
    if !ReadyWalkReturns(ready) then Panicked
    else Returned(Header(c, height, votes) + Encoded(c, Offered(provider, TxsOf(ReadyWalk(ready)))))
  }

  /** The invariant of the walk over the ready pool; `done` once the iterator is nil. */
  ghost predicate Reading(start: Mempool, txs: seq<Tx>, now: Mempool, done: bool) {
    var from, entries := start.ready.idx, start.ready.txs;
    if done then ReadyWalkReturns(start.ready) && now == AfterReadyWalk(start)
                 && txs == TxsOf(ReadyWalk(start.ready))
    else
      && now == start.(ready := Pool(now.ready.idx, entries))
      && from <= now.ready.idx
      && |entries| > 0
      && if from < |entries| then now.ready.idx < |entries| && txs == TxsOf(entries[from..now.ready.idx])
         else now.ready.idx == from
  }

  function NextReady(m: Mempool): Mempool {
    if |m.ready.txs| == m.ready.idx + 1 then m else m.(ready := m.ready.(idx := m.ready.idx + 1))
  }

  lemma {:induction false} ReadingStarts(start: Mempool)
    ensures Reading(start, [], start, |start.ready.txs| == 0)
  {
  }

  lemma {:induction false} ReadingSteps(start: Mempool, txs: seq<Tx>, now: Mempool)
    requires Reading(start, txs, now, false) && now.ready.idx < |now.ready.txs|
    ensures var txs' := txs + [now.ready.txs[now.ready.idx].tx];
            Reading(start, txs', NextReady(now), NextReady(now) == now)
  {
    var from, i, entries := start.ready.idx, now.ready.idx, start.ready.txs;
    assert entries[from..i + 1] == entries[from..i] + [entries[i]];
    assert TxsOf(entries[from..i + 1]) == TxsOf(entries[from..i]) + [entries[i].tx];
    if i + 1 == |entries| {
      assert entries[from..i + 1] == entries[from..];
    }
  }

  lemma {:induction false} ReadingPanics(start: Mempool, txs: seq<Tx>, now: Mempool)
    requires Reading(start, txs, now, false) && now.ready.idx >= |now.ready.txs|
    ensures !ReadyWalkReturns(start.ready) && now == AfterReadyWalk(start) == start
  {
  }

  lemma {:induction false} ReadingFinished(start: Mempool, txs: seq<Tx>, now: Mempool)
    requires Reading(start, txs, now, true)
    ensures ReadyWalkReturns(start.ready) && now == AfterReadyWalk(start)
    ensures txs == TxsOf(ReadyWalk(start.ready))
  {
  }

  /** The walk over the ready pool, from the saved cursor to the last entry. */
  method WalkReady(m: ThresholdMempool) returns (r: Outcome<seq<Tx>>)
    requires m.Valid()
    modifies m.pool`idx
    ensures m.Valid() && m.State() == AfterReadyWalk(old(m.State()))
    ensures r == if ReadyWalkReturns(old(m.State()).ready)
                 then Returned(TxsOf(ReadyWalk(old(m.State()).ready)))
                 else Panicked
  {
    hide Reading, AfterReadyWalk, ReadyWalk, ReadyWalkReturns;
    ghost var start := m.State();
    ghost var now := start;
    var txs: seq<Tx> := [];
    var itr := m.Select();
    ReadingStarts(start);
    while itr != null
      invariant itr == null || itr == m.pool
      invariant m.Valid() && m.State() == now
      invariant itr != null ==> m.pool.len > 0
      invariant Reading(start, txs, now, itr == null)
      decreases itr != null, m.pool.len - m.pool.idx
    {
      var current := itr.Tx();
      if current.Panicked? {
        ReadingPanics(start, txs, now);
        return Panicked;
      }
      ReadingSteps(start, txs, now);
      txs := txs + [current.value];
      itr := itr.Next();
      now := NextReady(now);
    }
    ReadingFinished(start, txs, now);
    return Returned(txs);
  }

  method EncodeAll(c: Codec, txs: seq<Tx>) returns (body: seq<Bytes>)
    ensures body == Encoded(c, txs)
  {
    body := [];
    for i := 0 to |txs|
      invariant body == Encoded(c, txs[..i])
    {
      assert Encoded(c, txs[..i + 1]) == Encoded(c, txs[..i]) + [c.encodeTx(txs[i]).GetOr([])];
      body := body + [c.encodeTx(txs[i]).GetOr([])];
    }
    assert txs[..|txs|] == txs;
  }

  method PrepareProposal(c: Codec, m: ThresholdMempool, provider: Option<TxProvider>,
      height: int64, votes: seq<Bytes>) returns (r: Outcome<seq<Bytes>>)
    requires m.Valid()
    modifies m.pool`idx
    ensures m.Valid() && m.State() == AfterReadyWalk(old(m.State()))
    ensures r == Prepared(c, provider, height, votes, old(m.State()).ready)
  {
    hide Special, AfterReadyWalk, ReadyWalk, ReadyWalkReturns, Plan, FillAll;
    var proposalTxs: seq<Bytes> := [];
    if height > 2 {
      var st := ProcessVoteExtensions(c, votes);
      proposalTxs := proposalTxs + [c.printRecord(st)];
    }
    assert proposalTxs == Header(c, height, votes);
    var walk := WalkReady(m);
    if walk.Panicked? {
      return Panicked;
    }
    var txs := walk.value;
    match provider {
      case None =>
      case Some(p) => txs := BuildProposal(p, txs);
    }
    var body := EncodeAll(c, txs);
    return Returned(proposalTxs + body);
  }

  // ----- ProcessProposal -----

  /** `Hash`: the base64 text of the bid's JSON. */
  function Hash(c: Codec, bid: Bid): Option<Bytes> {
    match c.bidJson(bid)
    case None => None
    case Some(json) => Some(Base64.Encode(json))
  }

  predicate Hashable(c: Codec, bids: seq<Bid>) {
    forall i | 0 <= i < |bids| :: Hash(c, bids[i]).Some?
  }

  function Keys(c: Codec, bids: seq<Bid>): seq<Bytes>
    requires Hashable(c, bids)
  {
    seq(|bids|, i requires 0 <= i < |bids| => Hash(c, bids[i]).value)
  }

  predicate Decodable(c: Codec, body: seq<Bytes>) {
    forall i | 0 <= i < |body| :: c.decodeTx(body[i]).Some?
  }

  function BidsOfMsgs(msgs: seq<Msg>): seq<Bid> {
    if |msgs| == 0 then []
    else
      var last := msgs[|msgs| - 1];
      BidsOfMsgs(msgs[..|msgs| - 1]) + (if last.BidMsg? then [last.bid] else [])
  }

  function BidsOfBody(c: Codec, body: seq<Bytes>): seq<Bid>
    requires Decodable(c, body)
  {
    if |body| == 0 then []
    else BidsOfBody(c, body[..|body| - 1]) + BidsOfMsgs(c.decodeTx(body[|body| - 1]).value.msgs)
  }

  function Unmarshalled(c: Codec, bids: seq<Bytes>): seq<Bid> {
    seq(|bids|, i requires 0 <= i < |bids| => c.unmarshalBid(bids[i]))
  }

  /** How often a bid is among the reports. */
  ghost function Frequency(c: Codec, reports: seq<Bid>, bid: Bid): nat
    requires Hashable(c, reports) && Hash(c, bid).Some?
  {
    multiset(Keys(c, reports))[Hash(c, bid).value]
  }

  /** Every bid of the body is reported at least half as often as there are reports. */
  ghost predicate Endorsed(c: Codec, reports: seq<Bid>, body: seq<Bytes>) {
    && Decodable(c, body) && Hashable(c, reports) && Hashable(c, BidsOfBody(c, body))
    && forall i | 0 <= i < |BidsOfBody(c, body)| ::
         |reports| / 2 <= Frequency(c, reports, BidsOfBody(c, body)[i])
  }

  ghost predicate Accepts(c: Codec, txs: seq<Bytes>) {
    |txs| == 0 ||
    match c.readRecord(txs[0])
    case None => true
    case Some(st) => |st.bids| == 0 || Endorsed(c, Unmarshalled(c, st.bids), txs[1..])
  }

  method CollectProposalBids(c: Codec, body: seq<Bytes>) returns (bids: Option<seq<Bid>>)
    ensures bids == if Decodable(c, body) then Some(BidsOfBody(c, body)) else None
  {
    var found: seq<Bid> := [];
    for i := 0 to |body|
      invariant Decodable(c, body[..i]) && found == BidsOfBody(c, body[..i])
    {
      assert body[..i + 1][..i] == body[..i];
      match c.decodeTx(body[i]) {
        case None =>
          return None;
        case Some(tx) =>
          for j := 0 to |tx.msgs|
            invariant found == BidsOfBody(c, body[..i]) + BidsOfMsgs(tx.msgs[..j])
          {
            assert tx.msgs[..j + 1][..j] == tx.msgs[..j];
            match tx.msgs[j] {
              case BidMsg(bid, _) => found := found + [bid];
              case OtherMsg(_) =>
            }
          }
          assert tx.msgs[..|tx.msgs|] == tx.msgs;
      }
    }
    assert body[..|body|] == body;
    return Some(found);
  }

  function Lookup(freq: map<Bytes, nat>, key: Bytes): nat {
    if key in freq then freq[key] else 0
  }

  /** The frequency map counts as the multiset of keys does. */
  method CountReports(c: Codec, reports: seq<Bid>) returns (freq: Option<map<Bytes, nat>>)
    ensures freq.Some? <==> Hashable(c, reports)
    ensures freq.Some? ==> forall k :: Lookup(freq.value, k) == multiset(Keys(c, reports))[k]
  {
    var counts: map<Bytes, nat> := map[];
    for i := 0 to |reports|
      invariant Hashable(c, reports[..i])
      invariant forall k :: Lookup(counts, k) == multiset(Keys(c, reports[..i]))[k]
    {
      match Hash(c, reports[i]) {
        case None =>
          return None;
        case Some(key) =>
          assert Keys(c, reports[..i + 1]) == Keys(c, reports[..i]) + [key];
          counts := counts[key := Lookup(counts, key) + 1];
      }
    }
    assert reports[..|reports|] == reports;
    return Some(counts);
  }

  /** None is the error return. */
  method ValidateBids(c: Codec, reports: seq<Bid>, body: seq<Bytes>) returns (ok: Option<bool>)
    ensures ok == Some(true) <==> Endorsed(c, reports, body)
    ensures ok == None <==> !(Decodable(c, body) && Hashable(c, reports) && Hashable(c, BidsOfBody(c, body)))
  {
    var collected := CollectProposalBids(c, body);
    if collected.None? {
      return None;
    }
    var bids := collected.value;
    var counted := CountReports(c, reports);
    if counted.None? {
      return None;
    }
    var threshold := |reports| / 2;
    var valid := true;
    for i := 0 to |bids|
      invariant Hashable(c, bids[..i])
      invariant valid <==> forall j | 0 <= j < i :: threshold <= Frequency(c, reports, bids[j])
    {
      match Hash(c, bids[i]) {
        case None =>
          return None;
        case Some(key) =>
          assert bids[..i + 1] == bids[..i] + [bids[i]];
          if Lookup(counted.value, key) < threshold {
            valid := false;
          }
      }
    }
    assert bids[..|bids|] == bids;
    return Some(valid);
  }

  method ProcessProposal(c: Codec, txs: seq<Bytes>) returns (accept: bool)
    ensures accept <==> Accepts(c, txs)
  {
    if |txs| >= 1 {
      var st := c.readRecord(txs[0]).GetOr(Record(0, []));
      if |st.bids| > 0 {
        var bids: seq<Bid> := [];
        for i := 0 to |st.bids|
          invariant bids == Unmarshalled(c, st.bids[..i])
        {
          bids := bids + [c.unmarshalBid(st.bids[i])];
        }
        assert st.bids[..|st.bids|] == st.bids;
        var ok := ValidateBids(c, bids, txs[1..]);
        return ok == Some(true);
      }
    }
    return true;
  }
}
