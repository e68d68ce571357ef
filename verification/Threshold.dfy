/** What the frequency threshold of `ValidateBids` means. */
module Threshold {
  import opened Types
  import opened Proposal
  import Base64

  // ----- Frequencies are multiplicities -----

  /** `Hash` succeeds exactly when the bid has JSON, and its text is the base64 of that JSON. */
  lemma {:induction false} HashIsJson(c: Codec, bid: Bid)
    ensures Hash(c, bid).Some? <==> c.bidJson(bid).Some?
    ensures Hash(c, bid).Some? ==> Base64.Decode(Hash(c, bid).value) == c.bidJson(bid)
  {
    if c.bidJson(bid).Some? {
      Base64.DecodeIffEncoded(Hash(c, bid).value, c.bidJson(bid).value);
    }
  }

  lemma {:induction false} HashInjective(c: Codec, a: Bid, b: Bid)
    requires c.Lawful() && Hash(c, a).Some? && Hash(c, a) == Hash(c, b)
    ensures a == b
  {
    Base64.EncodeInjective(c.bidJson(a).value, c.bidJson(b).value);
    assert c.bidJson(a) == c.bidJson(b);
  }

  lemma {:induction false} KeysNext(c: Codec, reports: seq<Bid>)
    requires Hashable(c, reports) && |reports| > 0
    ensures var front, last := reports[..|reports| - 1], reports[|reports| - 1];
            && Hashable(c, front) && Hash(c, last).Some?
            && Keys(c, reports) == Keys(c, front) + [Hash(c, last).value]
  {
  }

  /** The frequency of a bid is its multiplicity among the reported bids. */
  lemma {:induction false} FrequencyIsMultiplicity(c: Codec, reports: seq<Bid>, bid: Bid)
    requires c.Lawful() && Hashable(c, reports) && Hash(c, bid).Some?
    ensures Frequency(c, reports, bid) == multiset(reports)[bid]
  {
    if |reports| > 0 {
      var front, last := reports[..|reports| - 1], reports[|reports| - 1];
      KeysNext(c, reports);
      FrequencyIsMultiplicity(c, front, bid);
      assert reports == front + [last];
      if Hash(c, last) == Hash(c, bid) {
        HashInjective(c, last, bid);
      }
    }
  }

  /** The verdict on the bids of a body, member by member. */
  lemma {:induction false} EndorsedIff(c: Codec, reports: seq<Bid>, body: seq<Bytes>)
    requires c.Lawful() && Decodable(c, body) && Hashable(c, reports)
    ensures Endorsed(c, reports, body) <==>
            forall bid: Bid | bid in BidsOfBody(c, body) ::
              Hash(c, bid).Some? && |reports| / 2 <= multiset(reports)[bid]
  {
    var bids := BidsOfBody(c, body);
    if Hashable(c, bids) {
      forall i | 0 <= i < |bids|
        ensures Frequency(c, reports, bids[i]) == multiset(reports)[bids[i]]
      {
        FrequencyIsMultiplicity(c, reports, bids[i]);
      }
    }
  }

  // ----- How many different bids fit -----

  /** The multiplicities of a set of elements add up to at most the size of the multiset. */
  lemma {:induction false} Crowding<T>(m: multiset<T>, s: set<T>, least: nat)
    requires forall x | x in s :: m[x] >= least
    ensures |s| * least <= |m|
    decreases |s|
  {
    if s != {} {
      var x :| x in s;
      var rest := m[x := 0];
      assert |m| == |rest| + m[x];
      forall y | y in s - {x} ensures rest[y] >= least {
      }
      Crowding(rest, s - {x}, least);
      assert |s| == |s - {x}| + 1;
      assert |s| * least == |s - {x}| * least + least;
    }
  }

  lemma {:induction false} HalvesExceed(k: nat, n: nat)
    requires n >= 2 && k > if n == 3 then 3 else 2
    ensures k * (n / 2) > n
  {
    var half := n / 2;
    if n == 3 {
      assert half == 1;
    } else {
      assert k * half >= 3 * half;
    }
  }

  lemma {:induction false} EndorsedBound(c: Codec, reports: seq<Bid>, body: seq<Bytes>)
    requires c.Lawful() && |reports| >= 2 && Endorsed(c, reports, body)
    ensures |set bid | bid in BidsOfBody(c, body)| <= if |reports| == 3 then 3 else 2
  {
    var distinct := set bid | bid in BidsOfBody(c, body);
    EndorsedIff(c, reports, body);
    Crowding(multiset(reports), distinct, |reports| / 2);
    if |distinct| > if |reports| == 3 then 3 else 2 {
      HalvesExceed(|distinct|, |reports|);
    }
  }

  /** The threshold keeps unreported bids out exactly when there are at least two reports. */
  lemma {:induction false} UnreportedBid(c: Codec, reports: seq<Bid>, body: seq<Bytes>, bid: Bid)
    requires c.Lawful() && Decodable(c, body) && Hashable(c, reports)
    requires Hashable(c, BidsOfBody(c, body)) && bid in BidsOfBody(c, body) && bid !in reports
    requires forall other: Bid | other in BidsOfBody(c, body) && other != bid ::
               |reports| / 2 <= multiset(reports)[other]
    ensures Endorsed(c, reports, body) <==> |reports| < 2
  {
    EndorsedIff(c, reports, body);
    assert multiset(reports)[bid] == 0;
  }

  lemma {:induction false} EndorsedAreReported(c: Codec, reports: seq<Bid>, body: seq<Bytes>, bid: Bid)
    requires c.Lawful() && Endorsed(c, reports, body) && |reports| >= 2
    requires bid in BidsOfBody(c, body)
    ensures bid in reports
  {
    EndorsedIff(c, reports, body);
  }

  // ----- Stability -----

  lemma {:induction false} WithoutOne<T>(front: seq<T>, x: T, l: seq<T>, r: seq<T>)
    requires multiset(front + [x]) == multiset(l + [x] + r)
    ensures multiset(front) == multiset(l + r)
  {
    assert multiset(front) == multiset(front + [x]) - multiset{x};
    assert multiset(l + r) == multiset(l + [x] + r) - multiset{x};
  }

  lemma {:induction false} SplitAtLast<T>(a: seq<T>, b: seq<T>) returns (l: seq<T>, r: seq<T>)
    requires multiset(a) == multiset(b) && |a| > 0
    ensures b == l + [a[|a| - 1]] + r && multiset(a[..|a| - 1]) == multiset(l + r)
  {
    var front, x := a[..|a| - 1], a[|a| - 1];
    assert a == front + [x];
    assert x in multiset(b);
    var j :| 0 <= j < |b| && b[j] == x;
    l, r := b[..j], b[j + 1..];
    assert b == l + [x] + r;
    WithoutOne(front, x, l, r);
  }

  lemma {:induction false} KeysSplit(c: Codec, l: seq<Bid>, x: Bid, r: seq<Bid>)
    requires Hashable(c, l + r) && Hash(c, x).Some?
    ensures Hashable(c, l + [x] + r)
    ensures multiset(Keys(c, l + [x] + r)) == multiset(Keys(c, l + r)) + multiset{Hash(c, x).value}
  {
    assert forall i | 0 <= i < |l| :: l[i] == (l + r)[i];
    assert forall i | 0 <= i < |r| :: r[i] == (l + r)[|l| + i];
    assert Hashable(c, l) && Hashable(c, r);
    assert Keys(c, l + r) == Keys(c, l) + Keys(c, r);
    assert Keys(c, l + [x] + r) == Keys(c, l) + [Hash(c, x).value] + Keys(c, r);
  }

  lemma {:induction false} PermutedKeys(c: Codec, a: seq<Bid>, b: seq<Bid>)
    requires multiset(a) == multiset(b) && Hashable(c, a)
    ensures Hashable(c, b) && multiset(Keys(c, a)) == multiset(Keys(c, b)) && |a| == |b|
    decreases |a|
  {
    if |a| == 0 {
      assert |b| == |multiset(b)| == |multiset(a)| == 0;
    } else {
      var l, r := SplitAtLast(a, b);
      KeysNext(c, a);
      PermutedKeys(c, a[..|a| - 1], l + r);
      KeysSplit(c, l, a[|a| - 1], r);
    }
  }

  /** The order of the reports does not matter. */
  lemma {:induction false} ReportOrderIrrelevant(c: Codec, a: seq<Bid>, b: seq<Bid>, body: seq<Bytes>)
    requires multiset(a) == multiset(b)
    ensures Endorsed(c, a, body) <==> Endorsed(c, b, body)
  {
    if Hashable(c, a) {
      PermutedKeys(c, a, b);
    }
    if Hashable(c, b) {
      PermutedKeys(c, b, a);
    }
  }

  lemma {:induction false} BodyBidIff(c: Codec, body: seq<Bytes>, bid: Bid)
    requires Decodable(c, body)
    ensures bid in BidsOfBody(c, body) <==>
            exists i | 0 <= i < |body| :: bid in BidsOfMsgs(c.decodeTx(body[i]).value.msgs)
  {
    if |body| > 0 {
      var front := body[..|body| - 1];
      BodyBidIff(c, front, bid);
      if i :| 0 <= i < |body| && bid in BidsOfMsgs(c.decodeTx(body[i]).value.msgs) {
        if i < |front| {
          assert front[i] == body[i];
        }
      }
      if bid in BidsOfBody(c, front) {
        var i :| 0 <= i < |front| && bid in BidsOfMsgs(c.decodeTx(front[i]).value.msgs);
        assert body[i] == front[i];
      }
    }
  }

  lemma {:induction false} SameTransactionsSameBids(c: Codec, a: seq<Bytes>, b: seq<Bytes>)
    requires forall t: Bytes :: t in a ==> t in b
    requires Decodable(c, b)
    ensures Decodable(c, a)
    ensures forall bid: Bid | bid in BidsOfBody(c, a) :: bid in BidsOfBody(c, b)
  {
    forall i | 0 <= i < |a| ensures c.decodeTx(a[i]).Some? {
      assert a[i] in b;
    }
    forall bid: Bid | bid in BidsOfBody(c, a) ensures bid in BidsOfBody(c, b) {
      BodyBidIff(c, a, bid);
      BodyBidIff(c, b, bid);
      var i :| 0 <= i < |a| && bid in BidsOfMsgs(c.decodeTx(a[i]).value.msgs);
      assert a[i] in b;
      var j :| 0 <= j < |b| && b[j] == a[i];
    }
  }

  /** Reordering or repeating the body's transactions does not change the verdict. */
  lemma {:induction false} BodyOrderIrrelevant(c: Codec, reports: seq<Bid>, a: seq<Bytes>, b: seq<Bytes>)
    requires c.Lawful() && Endorsed(c, reports, a)
    requires forall t: Bytes :: t in a <==> t in b
    ensures Endorsed(c, reports, b)
  {
    SameTransactionsSameBids(c, b, a);
    EndorsedIff(c, reports, a);
    EndorsedIff(c, reports, b);
  }

  /** One more report of the only bid in the body never turns acceptance into rejection. */
  lemma {:induction false} OneMoreReport(c: Codec, reports: seq<Bid>, body: seq<Bytes>, bid: Bid)
    requires c.Lawful() && Endorsed(c, reports, body) && Hash(c, bid).Some?
    requires forall other: Bid | other in BidsOfBody(c, body) :: other == bid
    ensures Endorsed(c, reports + [bid], body)
  {
    assert Hashable(c, reports + [bid]);
    EndorsedIff(c, reports, body);
    EndorsedIff(c, reports + [bid], body);
    assert multiset(reports + [bid])[bid] == multiset(reports)[bid] + 1;
  }
}
