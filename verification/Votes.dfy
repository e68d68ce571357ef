/** What `processVoteExtensions` makes of the collected votes. */
module Votes {
  import opened Types
  import opened Proposal
  import Threshold

  // ----- Votes that do not decode -----

  /** The extension that stands in for vote `n - 1` is the latest one that decodes. */
  lemma {:induction false} LastDecodableIs(c: Codec, votes: seq<Bytes>, n: nat, j: nat)
    requires j < n <= |votes| && c.readRecord(votes[j]).Some?
    requires forall k | j < k < n :: c.readRecord(votes[k]).None?
    ensures LastDecodable(c, votes, n) == c.readRecord(votes[j])
    decreases n
  {
    if j < n - 1 {
      LastDecodableIs(c, votes, n - 1, j);
    }
  }

  lemma {:induction false} NoneDecodable(c: Codec, votes: seq<Bytes>, n: nat)
    requires n <= |votes|
    ensures LastDecodable(c, votes, n).None? <==> forall k | 0 <= k < n :: c.readRecord(votes[k]).None?
  {
    if n > 0 {
      NoneDecodable(c, votes, n - 1);
    }
  }

  /** When no vote decodes the special transaction has height 0 and no bids. */
  lemma {:induction false} NoVoteDecodes(c: Codec, votes: seq<Bytes>)
    requires forall i | 0 <= i < |votes| :: c.readRecord(votes[i]).None?
    ensures Special(c, votes) == Record(0, [])
  {
    NoneDecodable(c, votes, |votes|);
    NothingContributed(c, votes, |votes|);
  }

  lemma {:induction false} NothingContributed(c: Codec, votes: seq<Bytes>, n: nat)
    requires n <= |votes| && forall i | 0 <= i < n :: c.readRecord(votes[i]).None?
    ensures Contributions(c, votes, n) == []
  {
    if n > 0 {
      NothingContributed(c, votes, n - 1);
      NoneDecodable(c, votes, n);
    }
  }

  lemma {:induction false} PrefixLastDecodable(c: Codec, votes: seq<Bytes>, more: seq<Bytes>, n: nat)
    requires n <= |votes|
    ensures LastDecodable(c, votes + more, n) == LastDecodable(c, votes, n)
  {
    if n > 0 {
      PrefixLastDecodable(c, votes, more, n - 1);
      assert (votes + more)[n - 1] == votes[n - 1];
    }
  }

  lemma {:induction false} PrefixContributions(c: Codec, votes: seq<Bytes>, more: seq<Bytes>, n: nat)
    requires n <= |votes|
    ensures Contributions(c, votes + more, n) == Contributions(c, votes, n)
  {
    if n > 0 {
      hide LastDecodable;
      PrefixContributions(c, votes, more, n - 1);
      PrefixLastDecodable(c, votes, more, n);
    }
  }

  /** A vote adds its own bids, or the bids of the last decodable extension before it, or
      nothing when there is none. */
  lemma {:induction false} CarryForward(c: Codec, votes: seq<Bytes>, vote: Bytes)
    ensures Special(c, votes + [vote]) ==
            match c.readRecord(vote)
            case Some(ve) => Record(ve.height, Special(c, votes).bids + ve.bids)
            case None =>
              (match LastDecodable(c, votes, |votes|)
               case Some(ve) => Record(ve.height, Special(c, votes).bids + ve.bids)
               case None => Special(c, votes))
  {
    PrefixLastDecodable(c, votes, [vote], |votes|);
    PrefixContributions(c, votes, [vote], |votes|);
    assert (votes + [vote])[|votes|] == vote;
  }

  lemma {:induction false} LastDecodableNext(c: Codec, votes: seq<Bytes>, vote: Bytes)
    ensures LastDecodable(c, votes + [vote], |votes| + 1) ==
            if c.readRecord(vote).Some? then c.readRecord(vote) else LastDecodable(c, votes, |votes|)
  {
    PrefixLastDecodable(c, votes, [vote], |votes|);
    assert (votes + [vote])[|votes|] == vote;
  }

  function Repeat<T>(s: seq<T>, times: nat): seq<T> {
    if times == 0 then [] else Repeat(s, times - 1) + s
  }

  /** The empty extension of an absent validator, `times` times over. */
  function Absent(times: nat): seq<Bytes> {
    Repeat([[]], times)
  }

  lemma {:induction false} AbsentOnce(c: Codec, votes: seq<Bytes>)
    requires c.ReadsRecords() && LastDecodable(c, votes, |votes|).Some?
    ensures var ve := LastDecodable(c, votes, |votes|).value;
            && LastDecodable(c, votes + [[]], |votes| + 1) == Some(ve)
            && Special(c, votes + [[]]).bids == Special(c, votes).bids + ve.bids
  {
    hide Special;
    CarryForward(c, votes, []);
    LastDecodableNext(c, votes, []);
  }

  lemma {:induction false} RepeatFront<T>(s: seq<T>, times: nat)
    requires times > 0
    ensures Repeat(s, times) == s + Repeat(s, times - 1)
  {
    if times > 1 {
      RepeatFront(s, times - 1);
    }
  }

  /** Absent votes repeat the last decodable extension, and so inflate its frequencies. */
  lemma {:induction false} AbsentVotesRepeat(c: Codec, votes: seq<Bytes>, times: nat)
    requires c.ReadsRecords() && LastDecodable(c, votes, |votes|).Some?
    ensures Special(c, votes + Absent(times)).bids ==
            Special(c, votes).bids + Repeat(LastDecodable(c, votes, |votes|).value.bids, times)
    decreases times
  {
    hide LastDecodable, Special;
    if times == 0 {
      assert votes + Absent(0) == votes;
    } else {
      var bids := LastDecodable(c, votes, |votes|).value.bids;
      AbsentOnce(c, votes);
      AbsentVotesRepeat(c, votes + [[]], times - 1);
      RepeatFront<Bytes>([[]], times);
      RepeatFront(bids, times);
      assert votes + Absent(times) == votes + [[]] + Absent(times - 1);
    }
  }

  // ----- Votes that all decode -----

  function PrintAll(c: Codec, extensions: seq<Record>): seq<Bytes> {
    if |extensions| == 0 then []
    else PrintAll(c, extensions[..|extensions| - 1]) + [c.printRecord(extensions[|extensions| - 1])]
  }

  /** All bids in order. */
  function AllBids(extensions: seq<Record>): seq<Bytes> {
    if |extensions| == 0 then []
    else AllBids(extensions[..|extensions| - 1]) + extensions[|extensions| - 1].bids
  }

  function TotalReports(extensions: seq<Record>, bid: Bytes): nat {
    if |extensions| == 0 then 0
    else TotalReports(extensions[..|extensions| - 1], bid)
         + multiset(extensions[|extensions| - 1].bids)[bid]
  }

  /** When every extension decodes, the special transaction concatenates their bids, and a
      bid occurs in it as often as in all of them together. */
  lemma {:induction false} AllDecoded(c: Codec, extensions: seq<Record>, bid: Bytes)
    requires c.ReadsRecords()
    ensures Special(c, PrintAll(c, extensions)).bids == AllBids(extensions)
    ensures multiset(Special(c, PrintAll(c, extensions)).bids)[bid] == TotalReports(extensions, bid)
  {
    if |extensions| > 0 {
      hide Special;
      var front, last := extensions[..|extensions| - 1], extensions[|extensions| - 1];
      AllDecoded(c, front, bid);
      CarryForward(c, PrintAll(c, front), c.printRecord(last));
    }
  }

  /** The bids of the votes that decode, and of no other vote. */
  function Own(c: Codec, votes: seq<Bytes>, n: nat): seq<Bytes>
    requires n <= |votes|
  {
    if n == 0 then []
    else
      Own(c, votes, n - 1)
      + (match c.readRecord(votes[n - 1])
         case Some(ve) => ve.bids
         case None => [])
  }

  /** No vote that fails to decode repeats a bid of an earlier one. */
  ghost predicate NothingRepeated(c: Codec, votes: seq<Bytes>, n: nat)
    requires n <= |votes|
  {
    forall i | 0 <= i < n && c.readRecord(votes[i]).None? :: Contribution(c, votes, i) == []
  }

  lemma {:induction false} OwnWithin(c: Codec, votes: seq<Bytes>, n: nat)
    requires n <= |votes|
    ensures |Own(c, votes, n)| <= |Contributions(c, votes, n)|
    ensures |Own(c, votes, n)| == |Contributions(c, votes, n)| ==> NothingRepeated(c, votes, n)
    ensures NothingRepeated(c, votes, n) ==> Own(c, votes, n) == Contributions(c, votes, n)
  {
    if n > 0 {
      OwnWithin(c, votes, n - 1);
    }
  }

  /** Each vote is counted once exactly when no vote that fails to decode follows, with nothing
      decodable in between, an extension that has bids. Otherwise already the multiplicities
      differ. */
  lemma {:induction false} CountedOnceIff(c: Codec, votes: seq<Bytes>)
    ensures Special(c, votes).bids == Own(c, votes, |votes|) <==> NothingRepeated(c, votes, |votes|)
    ensures multiset(Special(c, votes).bids) == multiset(Own(c, votes, |votes|)) <==>
            NothingRepeated(c, votes, |votes|)
  {
    OwnWithin(c, votes, |votes|);
    SameSize(Special(c, votes).bids, Own(c, votes, |votes|));
  }

  lemma {:induction false} SameSize<T>(a: seq<T>, b: seq<T>)
    ensures multiset(a) == multiset(b) ==> |a| == |b|
  {
    assert |multiset(a)| == |a| && |multiset(b)| == |b|;
  }

  // ----- What the special transaction lets through -----

  lemma {:induction false} AcceptsIffEndorsed(c: Codec, st: Record, body: seq<Bytes>)
    requires c.ReadsRecords()
    ensures Accepts(c, [c.printRecord(st)] + body) <==>
            |st.bids| == 0 || Endorsed(c, Unmarshalled(c, st.bids), body)
  {
    hide Endorsed;
    var txs := [c.printRecord(st)] + body;
    assert txs[0] == c.printRecord(st) && txs[1..] == body;
  }

  /** With n bids in the special transaction, an accepted proposal holds at most two different
      bids if n is 2 or at least 4, and at most three if n is 3. */
  lemma {:induction false} CountingBound(c: Codec, st: Record, body: seq<Bytes>)
    requires c.Lawful() && |st.bids| >= 2 && Accepts(c, [c.printRecord(st)] + body)
    ensures Decodable(c, body)
    ensures |set bid | bid in BidsOfBody(c, body)| <= if |st.bids| == 3 then 3 else 2
  {
    AcceptsIffEndorsed(c, st, body);
    Threshold.EndorsedBound(c, Unmarshalled(c, st.bids), body);
  }

  // ----- Where special bids come from -----

  /** Some vote among the first `n` decodes to an extension with the bid in it. */
  ghost predicate Carried(c: Codec, votes: seq<Bytes>, n: nat, bid: Bytes)
    requires n <= |votes|
  {
    exists i | 0 <= i < n :: c.readRecord(votes[i]).Some? && bid in c.readRecord(votes[i]).value.bids
  }

  lemma {:induction false} LastDecodableFrom(c: Codec, votes: seq<Bytes>, n: nat)
    requires n <= |votes| && LastDecodable(c, votes, n).Some?
    ensures exists i | 0 <= i < n :: c.readRecord(votes[i]) == LastDecodable(c, votes, n)
  {
    if c.readRecord(votes[n - 1]).None? {
      LastDecodableFrom(c, votes, n - 1);
    }
  }

  lemma {:induction false} ContributionCarried(c: Codec, votes: seq<Bytes>, i: nat, bid: Bytes)
    requires i < |votes|
    ensures bid in Contribution(c, votes, i) ==> Carried(c, votes, i + 1, bid)
    ensures Carried(c, votes, i + 1, bid) ==> Carried(c, votes, i, bid) || bid in Contribution(c, votes, i)
    ensures Carried(c, votes, i, bid) ==> Carried(c, votes, i + 1, bid)
  {
    if LastDecodable(c, votes, i + 1).Some? {
      LastDecodableFrom(c, votes, i + 1);
    }
  }

  lemma {:induction false} ContributionsCarried(c: Codec, votes: seq<Bytes>, n: nat, bid: Bytes)
    requires n <= |votes|
    ensures bid in Contributions(c, votes, n) <==> Carried(c, votes, n, bid)
  {
    if n > 0 {
      ContributionsCarried(c, votes, n - 1, bid);
      ContributionCarried(c, votes, n - 1, bid);
    }
  }

  /** A bid in an accepted proposal was carried by one of the votes, if the special
      transaction built from them holds at least two bids. */
  lemma {:induction false} AcceptedWasVoted(c: Codec, votes: seq<Bytes>, body: seq<Bytes>, bid: Bid)
    requires c.Lawful() && |Special(c, votes).bids| >= 2
    requires Accepts(c, [c.printRecord(Special(c, votes))] + body)
    requires Decodable(c, body) && bid in BidsOfBody(c, body)
    ensures exists bz :: Carried(c, votes, |votes|, bz) && c.unmarshalBid(bz) == bid
  {
    hide Contributions, Accepts;
    var st := Special(c, votes);
    AcceptsIffEndorsed(c, st, body);
    var reports := Unmarshalled(c, st.bids);
    Threshold.EndorsedAreReported(c, reports, body, bid);
    var i :| 0 <= i < |reports| && reports[i] == bid;
    ContributionsCarried(c, votes, |votes|, st.bids[i]);
  }

  // ----- Every vote reports the same bids -----

  function Marshalled(c: Codec, bids: seq<Bid>): seq<Bytes>
    requires forall i | 0 <= i < |bids| :: c.marshalBid(bids[i]).Some?
  {
    seq(|bids|, i requires 0 <= i < |bids| => c.marshalBid(bids[i]).value)
  }

  lemma {:induction false} RepeatCount<T>(s: seq<T>, times: nat, x: T)
    ensures |Repeat(s, times)| == times * |s|
    ensures multiset(Repeat(s, times))[x] == times * multiset(s)[x]
  {
    if times > 0 {
      RepeatCount(s, times - 1, x);
      assert times * |s| == (times - 1) * |s| + |s|;
      assert times * multiset(s)[x] == (times - 1) * multiset(s)[x] + multiset(s)[x];
    }
  }

  lemma {:induction false} UnmarshalledAppend(c: Codec, a: seq<Bytes>, b: seq<Bytes>)
    ensures Unmarshalled(c, a + b) == Unmarshalled(c, a) + Unmarshalled(c, b)
  {
  }

  lemma {:induction false} UniformReports(c: Codec, extensions: seq<Record>, bids: seq<Bid>)
    requires c.Lawful()
    requires forall i | 0 <= i < |bids| :: c.marshalBid(bids[i]).Some?
    requires forall j | 0 <= j < |extensions| :: extensions[j].bids == Marshalled(c, bids)
    ensures Unmarshalled(c, AllBids(extensions)) == Repeat(bids, |extensions|)
  {
    if |extensions| > 0 {
      var front, last := extensions[..|extensions| - 1], extensions[|extensions| - 1];
      UniformReports(c, front, bids);
      UnmarshalledAppend(c, AllBids(front), last.bids);
      assert Unmarshalled(c, Marshalled(c, bids)) == bids;
    }
  }

  lemma {:induction false} DistinctCount<T>(s: seq<T>, x: T)
    requires x in s && forall i, j | 0 <= i < j < |s| :: s[i] != s[j]
    ensures multiset(s)[x] == 1
  {
    var i :| 0 <= i < |s| && s[i] == x;
    assert s == s[..i] + [x] + s[i + 1..];
    assert x !in s[..i] && x !in s[i + 1..];
  }

  lemma {:induction false} UniformThreshold(v: nat, k: nat)
    requires v >= 1 && k >= 1
    ensures v * k / 2 <= v <==> k <= 2 || (k == 3 && v == 1)
  {
    if k <= 2 {
      assert v * k <= v * 2;
    } else if k == 3 {
      assert v * k == 3 * v;
    } else {
      assert v * k >= v * 4;
    }
  }

  /** If each of v votes reports the same k different bids, a proposal of some of them is
      accepted exactly when k is 1 or 2, or k is 3 and there is one vote. */
  lemma {:induction false} UniformVerdict(c: Codec, extensions: seq<Record>, bids: seq<Bid>,
      body: seq<Bytes>)
    requires c.Lawful() && |extensions| >= 1 && |bids| >= 1
    requires forall i | 0 <= i < |bids| :: c.marshalBid(bids[i]).Some?
    requires Hashable(c, bids) && forall i, j | 0 <= i < j < |bids| :: bids[i] != bids[j]
    requires forall j | 0 <= j < |extensions| :: extensions[j].bids == Marshalled(c, bids)
    requires Decodable(c, body) && |BidsOfBody(c, body)| >= 1
    requires forall bid: Bid | bid in BidsOfBody(c, body) :: bid in bids
    ensures var k, v := |bids|, |extensions|;
            Accepts(c, [c.printRecord(Special(c, PrintAll(c, extensions)))] + body) <==>
            k <= 2 || (k == 3 && v == 1)
  {
    hide Special, Accepts;
    var k, v := |bids|, |extensions|;
    var st := Special(c, PrintAll(c, extensions));
    AcceptsIffEndorsed(c, st, body);
    AllDecoded(c, extensions, []);
    UniformReports(c, extensions, bids);
    var reports := Unmarshalled(c, st.bids);
    assert reports == Repeat(bids, v);
    RepeatCount(bids, v, bids[0]);
    RepeatHashable(c, bids, v);
    Threshold.EndorsedIff(c, reports, body);
    forall bid: Bid | bid in BidsOfBody(c, body)
      ensures Hash(c, bid).Some? && multiset(reports)[bid] == v
    {
      DistinctCount(bids, bid);
      RepeatCount(bids, v, bid);
    }
    UniformThreshold(v, k);
    assert BidsOfBody(c, body)[0] in BidsOfBody(c, body);
    assert |st.bids| == v * k >= 1;
  }

  lemma {:induction false} RepeatHashable(c: Codec, bids: seq<Bid>, times: nat)
    requires Hashable(c, bids)
    ensures Hashable(c, Repeat(bids, times))
  {
    if times > 0 {
      RepeatHashable(c, bids, times - 1);
    }
  }

  // ----- A proposal of one bid, over any votes that decode -----

  /** How many of the reported byte strings unmarshal to the bid. */
  function ReportsOf(c: Codec, extensions: seq<Record>, bid: Bid): nat {
    if |extensions| == 0 then 0
    else ReportsOf(c, extensions[..|extensions| - 1], bid)
         + multiset(Unmarshalled(c, extensions[|extensions| - 1].bids))[bid]
  }

  lemma {:induction false} ReportsOfCounts(c: Codec, extensions: seq<Record>, bid: Bid)
    ensures multiset(Unmarshalled(c, AllBids(extensions)))[bid] == ReportsOf(c, extensions, bid)
  {
    if |extensions| > 0 {
      var front, last := extensions[..|extensions| - 1], extensions[|extensions| - 1];
      ReportsOfCounts(c, front, bid);
      UnmarshalledAppend(c, AllBids(front), last.bids);
    }
  }

  /** Whatever the votes report: a proposal of one bid is accepted exactly when nothing is
      reported, or all reports hash and half of the reported bids are this one. */
  lemma {:induction false} SoleBidVerdict(c: Codec, extensions: seq<Record>, bid: Bid, body: seq<Bytes>)
    requires c.Lawful() && Hash(c, bid).Some? && Decodable(c, body)
    requires |BidsOfBody(c, body)| >= 1 && forall b: Bid | b in BidsOfBody(c, body) :: b == bid
    ensures var reported := AllBids(extensions);
            Accepts(c, [c.printRecord(Special(c, PrintAll(c, extensions)))] + body) <==>
            || |reported| == 0
            || (Hashable(c, Unmarshalled(c, reported))
                && |reported| / 2 <= ReportsOf(c, extensions, bid))
  {
    hide Special, Accepts, BidsOfBody, Hash;
    var reported := AllBids(extensions);
    var reports := Unmarshalled(c, reported);
    AllDecoded(c, extensions, []);
    ReportsOfCounts(c, extensions, bid);
    AcceptsIffEndorsed(c, Special(c, PrintAll(c, extensions)), body);
    assert BidsOfBody(c, body)[0] in BidsOfBody(c, body);
    if Hashable(c, reports) {
      Threshold.EndorsedIff(c, reports, body);
    }
  }

  /** A report counts for a bid when it is the bid's own marshalled form; other byte strings
      may unmarshal to the bid as well. */
  lemma {:induction false} UnmarshalledCount(c: Codec, bids: seq<Bytes>, bz: Bytes)
    ensures multiset(Unmarshalled(c, bids))[c.unmarshalBid(bz)] >= multiset(bids)[bz]
    ensures (forall b | b in bids && c.unmarshalBid(b) == c.unmarshalBid(bz) :: b == bz) ==>
            multiset(Unmarshalled(c, bids))[c.unmarshalBid(bz)] == multiset(bids)[bz]
  {
    if |bids| > 0 {
      var front, last := bids[..|bids| - 1], bids[|bids| - 1];
      UnmarshalledCount(c, front, bz);
      UnmarshalledAppend(c, front, [last]);
      assert bids == front + [last];
      assert Unmarshalled(c, [last]) == [c.unmarshalBid(last)];
    }
  }

  /** Every reported byte string is the marshalled form of the bid it unmarshals to. */
  ghost predicate Canonical(c: Codec, bids: seq<Bytes>) {
    forall bz | bz in bids :: c.marshalBid(c.unmarshalBid(bz)) == Some(bz)
  }

  lemma {:induction false} ReportsAgainstTotal(c: Codec, extensions: seq<Record>, bid: Bid)
    requires c.Lawful() && c.marshalBid(bid).Some?
    ensures ReportsOf(c, extensions, bid) >= TotalReports(extensions, c.marshalBid(bid).value)
    ensures Canonical(c, AllBids(extensions)) ==>
            ReportsOf(c, extensions, bid) == TotalReports(extensions, c.marshalBid(bid).value)
  {
    var bz := c.marshalBid(bid).value;
    AllDecoded(c, extensions, bz);
    ReportsOfCounts(c, extensions, bid);
    UnmarshalledCount(c, AllBids(extensions), bz);
  }

  /** For votes of canonical bids the count is the documented one, bids in vote extensions. */
  lemma {:induction false} SoleBidVerdictByVotes(c: Codec, extensions: seq<Record>, bid: Bid,
      body: seq<Bytes>)
    requires c.Lawful() && c.marshalBid(bid).Some? && Hash(c, bid).Some? && Decodable(c, body)
    requires |BidsOfBody(c, body)| >= 1 && forall b: Bid | b in BidsOfBody(c, body) :: b == bid
    requires Canonical(c, AllBids(extensions)) && Hashable(c, Unmarshalled(c, AllBids(extensions)))
    ensures Accepts(c, [c.printRecord(Special(c, PrintAll(c, extensions)))] + body) <==>
            |AllBids(extensions)| / 2 <= TotalReports(extensions, c.marshalBid(bid).value)
  {
    hide Special, Accepts, BidsOfBody, Hash;
    SoleBidVerdict(c, extensions, bid, body);
    ReportsAgainstTotal(c, extensions, bid);
  }

  lemma {:induction false} AtMostOneEach(extensions: seq<Record>)
    requires forall j | 0 <= j < |extensions| :: |extensions[j].bids| <= 1
    ensures |AllBids(extensions)| <= |extensions|
  {
    if |extensions| > 0 {
      AtMostOneEach(extensions[..|extensions| - 1]);
    }
  }

  /** The documented promise, a threshold over validators, holds while no vote carries more
      than one bid: a bid that at least half of the votes report is then accepted. */
  lemma {:induction false} MajorityAccepted(c: Codec, extensions: seq<Record>, bid: Bid,
      body: seq<Bytes>)
    requires c.Lawful() && c.marshalBid(bid).Some? && Hash(c, bid).Some?
    requires forall j | 0 <= j < |extensions| :: |extensions[j].bids| <= 1
    requires TotalReports(extensions, c.marshalBid(bid).value) >= |extensions| / 2
    requires Hashable(c, Unmarshalled(c, AllBids(extensions))) && Decodable(c, body)
    requires forall b: Bid | b in BidsOfBody(c, body) :: b == bid
    ensures Accepts(c, [c.printRecord(Special(c, PrintAll(c, extensions)))] + body)
  {
    hide Special, Accepts, BidsOfBody, Hash;
    AtMostOneEach(extensions);
    ReportsAgainstTotal(c, extensions, bid);
    if |BidsOfBody(c, body)| >= 1 {
      SoleBidVerdict(c, extensions, bid, body);
    } else {
      AllDecoded(c, extensions, []);
      AcceptsIffEndorsed(c, Special(c, PrintAll(c, extensions)), body);
    }
  }
}
