/** What a node reports against what it makes ready, over any run in the app. */
module Reports {
  import opened Types
  import opened Pools
  import opened VoteExt
  import opened Nodes
  import Votes

  lemma {:induction false} ReportedAppend(c: Codec, a: seq<ThTx>, b: seq<ThTx>)
    ensures Reported(c, a + b) == Reported(c, a) + Reported(c, b)
  {
    hide ReportOfMsgs;
    if |b| == 0 {
      assert a + b == a && Reported(c, b) == [];
    } else {
      var front, last := b[..|b| - 1], b[|b| - 1];
      ReportedAppend(c, a, front);
      assert a + b == (a + front) + [last];
      ReportedNext(c, a + front, last);
      ReportedNext(c, front, last);
      assert b == front + [last];
    }
  }

  lemma {:induction false} ReportedReadied(c: Codec, entries: seq<ThTx>)
    ensures Reported(c, Readied(entries)) == Reported(c, entries)
  {
    if |entries| > 0 {
      var front := entries[..|entries| - 1];
      ReportedReadied(c, front);
      assert Readied(entries)[..|entries| - 1] == Readied(front);
    }
  }

  lemma {:induction false} AllBidsNext(extensions: seq<Record>, r: Record)
    ensures Votes.AllBids(extensions + [r]) == Votes.AllBids(extensions) + r.bids
  {
    assert (extensions + [r])[..|extensions|] == extensions;
  }

  /** The published bids are the bids of the readied transactions, in order; after a panic
      some readied transactions have not been published. */
  ghost predicate Matched(c: Codec, n: Node) {
    && Votes.AllBids(n.extensions) <= Reported(c, n.readied)
    && (n.alive ==> Votes.AllBids(n.extensions) == Reported(c, n.readied))
  }

  lemma {:induction false} StepMatched(c: Codec, n: Node, op: Op)
    requires Matched(c, n) && !op.Update?
    ensures Matched(c, Step(c, n, op))
  {
    hide Reported, Votes.AllBids, AfterExtendVote, Visited, WalkReturns, Readied;
    if n.alive && op.ExtendVote? {
      var visited := Visited(n.pool);
      ReportedAppend(c, n.readied, Readied(visited));
      ReportedReadied(c, visited);
      AllBidsNext(n.extensions, Record(op.height, Reported(c, visited)));
    }
  }

  /** In every run the bids in a node's vote extensions, put end to end, are exactly the bids
      of the transactions it made ready, in the same order. */
  lemma {:induction false} ReportReadyAgreement(c: Codec, ops: seq<Op>)
    requires InApp(ops)
    ensures Matched(c, Run(c, ops))
  {
    if |ops| > 0 {
      ReportReadyAgreement(c, ops[..|ops| - 1]);
      StepMatched(c, Run(c, ops[..|ops| - 1]), ops[|ops| - 1]);
    }
  }

  // ----- The order of the reports -----

  /** A message contributes its marshalled bid, or nothing if it has none that marshals. */
  predicate Marshals(c: Codec, msg: Msg) {
    msg.BidMsg? && c.marshalBid(msg.bid).Some?
  }

  lemma {:induction false} ReportOfOne(c: Codec, msg: Msg)
    ensures ReportOfMsgs(c, [msg]) == if Marshals(c, msg) then [c.marshalBid(msg.bid).value] else []
  {
    assert [msg][..0] == [];
  }

  lemma {:induction false} ReportOfMsgsAppend(c: Codec, a: seq<Msg>, b: seq<Msg>)
    ensures ReportOfMsgs(c, a + b) == ReportOfMsgs(c, a) + ReportOfMsgs(c, b)
  {
    if |b| == 0 {
      assert a + b == a;
    } else {
      hide ReportOf;
      ReportOfMsgsAppend(c, a, b[..|b| - 1]);
      assert (a + b)[..|a + b| - 1] == a + b[..|b| - 1];
    }
  }

  /** The messages of the entries, in order. */
  function Messages(entries: seq<ThTx>): seq<Msg> {
    if |entries| == 0 then [] else entries[0].tx.msgs + Messages(entries[1..])
  }

  lemma {:induction false} ReportedIsOfMessages(c: Codec, entries: seq<ThTx>)
    ensures Reported(c, entries) == ReportOfMsgs(c, Messages(entries))
  {
    if |entries| > 0 {
      hide ReportOfMsgs;
      var first, rest := entries[0], entries[1..];
      ReportedIsOfMessages(c, rest);
      assert entries == [first] + rest;
      ReportedFront(c, first, rest);
      ReportOfMsgsAppend(c, first.tx.msgs, Messages(rest));
    }
  }

  ghost predicate Increasing(at: seq<nat>) {
    forall k, l | 0 <= k < l < |at| :: at[k] < at[l]
  }

  ghost predicate AllMarshal(c: Codec, msgs: seq<Msg>, at: seq<nat>) {
    forall k | 0 <= k < |at| :: at[k] < |msgs| && Marshals(c, msgs[at[k]])
  }

  ghost predicate NoneMissing(c: Codec, msgs: seq<Msg>, at: seq<nat>) {
    forall i: nat | i < |msgs| && Marshals(c, msgs[i]) :: i in at
  }

  /** `at` lists, in increasing order, exactly the positions of the messages that marshal. */
  ghost predicate Enumerates(c: Codec, msgs: seq<Msg>, at: seq<nat>) {
    Increasing(at) && AllMarshal(c, msgs, at) && NoneMissing(c, msgs, at)
  }

  /** `published` holds, at k, the marshalled bid of the k-th message that marshals. */
  ghost predicate InMessageOrder(c: Codec, msgs: seq<Msg>, at: seq<nat>, published: seq<Bytes>) {
    && Enumerates(c, msgs, at) && |published| == |at|
    && forall k | 0 <= k < |at| :: published[k] == c.marshalBid(msgs[at[k]].bid).value
  }

  lemma {:induction false} AllMarshalNext(c: Codec, front: seq<Msg>, last: Msg, at: seq<nat>)
    requires AllMarshal(c, front, at)
    ensures AllMarshal(c, front + [last], at)
    ensures Marshals(c, last) ==> AllMarshal(c, front + [last], at + [|front|])
  {
    hide Marshals;
    var msgs := front + [last];
    forall k | 0 <= k < |at| ensures at[k] < |msgs| && Marshals(c, msgs[at[k]]) {
      assert msgs[at[k]] == front[at[k]];
    }
  }

  lemma {:induction false} IncreasingNext(c: Codec, front: seq<Msg>, at: seq<nat>)
    requires Increasing(at) && AllMarshal(c, front, at)
    ensures Increasing(at + [|front|])
  {
    hide Marshals;
  }

  lemma {:induction false} NoneMissingNext(c: Codec, front: seq<Msg>, last: Msg, at: seq<nat>)
    requires NoneMissing(c, front, at)
    ensures !Marshals(c, last) ==> NoneMissing(c, front + [last], at)
    ensures NoneMissing(c, front + [last], at + [|front|])
  {
    hide Marshals;
    var msgs, more := front + [last], at + [|front|];
    forall i: nat | i < |front| && Marshals(c, msgs[i]) ensures i in at {
      assert msgs[i] == front[i];
    }
    assert more[|at|] == |front|;
    forall i | i in at ensures i in more {
      var k :| 0 <= k < |at| && at[k] == i;
      assert more[k] == i;
    }
  }

  lemma {:induction false} EnumeratesNext(c: Codec, front: seq<Msg>, last: Msg, at: seq<nat>)
    requires Enumerates(c, front, at)
    ensures Enumerates(c, front + [last], if Marshals(c, last) then at + [|front|] else at)
  {
    hide Increasing, AllMarshal, NoneMissing, Marshals;
    AllMarshalNext(c, front, last, at);
    IncreasingNext(c, front, at);
    NoneMissingNext(c, front, last, at);
  }

  lemma {:induction false} SameValues(c: Codec, front: seq<Msg>, last: Msg, at: seq<nat>, published: seq<Bytes>)
    requires InMessageOrder(c, front, at, published)
    ensures forall k | 0 <= k < |at| ::
              at[k] < |front| && Marshals(c, (front + [last])[at[k]])
              && published[k] == c.marshalBid((front + [last])[at[k]].bid).value
  {
    hide Increasing, NoneMissing;
    forall k | 0 <= k < |at|
      ensures at[k] < |front| && (front + [last])[at[k]] == front[at[k]] && Marshals(c, front[at[k]])
    {
    }
  }

  lemma {:induction false} NextInOrder(c: Codec, front: seq<Msg>, last: Msg, at: seq<nat>, published: seq<Bytes>)
    requires InMessageOrder(c, front, at, published)
    ensures if Marshals(c, last)
            then InMessageOrder(c, front + [last], at + [|front|], published + [c.marshalBid(last.bid).value])
            else InMessageOrder(c, front + [last], at, published)
  {
    EnumeratesNext(c, front, last, at);
    SameValues(c, front, last, at, published);
    if Marshals(c, last) {
      var msgs := front + [last];
      var at', published' := at + [|front|], published + [c.marshalBid(last.bid).value];
      hide Increasing, NoneMissing, AllMarshal, Marshals;
      forall k | 0 <= k < |at'|
        ensures at'[k] < |msgs| && msgs[at'[k]].BidMsg? && c.marshalBid(msgs[at'[k]].bid).Some?
        ensures published'[k] == c.marshalBid(msgs[at'[k]].bid).value
      {
        OneMore(c, msgs, at, published, |front|, k);
      }
    }
  }

  lemma {:induction false} OneMore(c: Codec, msgs: seq<Msg>, at: seq<nat>, published: seq<Bytes>, next: nat, k: nat)
    requires |published| == |at| && next < |msgs| && Marshals(c, msgs[next]) && k <= |at|
    requires forall l | 0 <= l < |at| ::
               at[l] < next && Marshals(c, msgs[at[l]]) && published[l] == c.marshalBid(msgs[at[l]].bid).value
    ensures var i := (at + [next])[k];
            i < |msgs| && Marshals(c, msgs[i])
            && (published + [c.marshalBid(msgs[next].bid).value])[k] == c.marshalBid(msgs[i].bid).value
  {
    if k < |at| {
      assert (at + [next])[k] == at[k];
    }
  }

  lemma {:induction false} ReportPositions(c: Codec, msgs: seq<Msg>) returns (at: seq<nat>)
    ensures InMessageOrder(c, msgs, at, ReportOfMsgs(c, msgs))
  {
    at := [];
    if |msgs| > 0 {
      hide ReportOfMsgs, InMessageOrder;
      var front, last := msgs[..|msgs| - 1], msgs[|msgs| - 1];
      assert msgs == front + [last];
      at := ReportPositions(c, front);
      NextInOrder(c, front, last, at, ReportOfMsgs(c, front));
      ReportOfMsgsAppend(c, front, [last]);
      ReportOfOne(c, last);
      assert ReportOfMsgs(c, front) + [] == ReportOfMsgs(c, front);
      if Marshals(c, last) {
        at := at + [|front|];
      }
    }
  }

  /** The k-th byte string ExtendVote publishes is the marshalled form of the k-th bid that
      marshals among the messages of the transactions it visits, in visiting order. */
  lemma {:induction false} PublishedInOrder(c: Codec, m: Mempool) returns (at: seq<nat>)
    ensures InMessageOrder(c, Messages(Visited(m)), at, Reported(c, Visited(m)))
  {
    ReportedIsOfMessages(c, Visited(m));
    at := ReportPositions(c, Messages(Visited(m)));
  }

  // ----- Does a vote report all pending bids? -----

  /** A transaction without a bid that could be reported. */
  ghost predicate Silent(c: Codec, e: ThTx) {
    ReportOfMsgs(c, e.tx.msgs) == []
  }

  lemma {:induction false} NothingReportedIff(c: Codec, entries: seq<ThTx>)
    ensures Reported(c, entries) == [] <==> forall i | 0 <= i < |entries| :: Silent(c, entries[i])
  {
    if |entries| > 0 {
      NothingReportedIff(c, entries[..|entries| - 1]);
    }
  }

  lemma {:induction false} ReportedOne(c: Codec, e: ThTx)
    ensures Reported(c, [e]) == ReportOfMsgs(c, e.tx.msgs)
  {
    assert [e][..0] == [];
  }

  lemma {:induction false} ReportedFront(c: Codec, e: ThTx, rest: seq<ThTx>)
    ensures Reported(c, [e] + rest) == ReportOfMsgs(c, e.tx.msgs) + Reported(c, rest)
  {
    ReportedAppend(c, [e], rest);
    ReportedOne(c, e);
  }

  /** The entries that the stride from `at` leaves out are silent. */
  ghost predicate SkippedSilent(c: Codec, entries: seq<ThTx>, at: nat)
    decreases |entries| - at
  {
    at + 1 < |entries| ==> Silent(c, entries[at + 1]) && SkippedSilent(c, entries, at + 2)
  }

  lemma {:induction false} SkippedSilentIff(c: Codec, entries: seq<ThTx>, at: nat)
    ensures SkippedSilent(c, entries, at) <==>
            forall i | at <= i < |entries| && (i - at) % 2 == 1 :: Silent(c, entries[i])
    decreases |entries| - at
  {
    hide Silent;
    if at + 1 < |entries| {
      SkippedSilentIff(c, entries, at + 2);
    }
  }

  lemma {:induction false} StrideReportsAllIff(c: Codec, entries: seq<ThTx>, at: nat)
    requires at <= |entries|
    ensures var walked, all := Reported(c, Strided(entries, at)), Reported(c, entries[at..]);
            |walked| <= |all| && (walked == all <==> SkippedSilent(c, entries, at))
    decreases |entries| - at
  {
    hide ReportOfMsgs, Reported;
    if at + 1 < |entries| {
      StrideStep(c, entries, at);
      StrideReportsAllIff(c, entries, at + 2);
      SameTail(ReportOfMsgs(c, entries[at].tx.msgs), Reported(c, Strided(entries, at + 2)),
               ReportOfMsgs(c, entries[at + 1].tx.msgs), Reported(c, entries[at + 2..]));
    } else if at < |entries| {
      assert entries[at..] == [entries[at]] && Strided(entries, at) == [entries[at]];
    } else {
      assert entries[at..] == [];
    }
  }

  lemma {:induction false} StrideStep(c: Codec, entries: seq<ThTx>, at: nat)
    requires at + 1 < |entries|
    ensures Reported(c, Strided(entries, at)) ==
            ReportOfMsgs(c, entries[at].tx.msgs) + Reported(c, Strided(entries, at + 2))
    ensures Reported(c, entries[at..]) ==
            ReportOfMsgs(c, entries[at].tx.msgs)
            + (ReportOfMsgs(c, entries[at + 1].tx.msgs) + Reported(c, entries[at + 2..]))
  {
    hide ReportOfMsgs, Reported;
    var e, next, rest := entries[at], entries[at + 1], entries[at + 2..];
    assert entries[at..] == [e] + ([next] + rest);
    ReportedFront(c, e, [next] + rest);
    ReportedFront(c, next, rest);
    ReportedFront(c, e, Strided(entries, at + 2));
  }

  lemma {:induction false} SameTail(head: seq<Bytes>, short: seq<Bytes>, between: seq<Bytes>, long: seq<Bytes>)
    requires |short| <= |long|
    ensures head + short == head + (between + long) <==> between == [] && short == long
  {
    if head + short == head + (between + long) {
      assert |between| == 0;
      assert (head + short)[|head|..] == short;
      assert (head + (between + long))[|head|..] == between + long;
    }
  }

  /** ExtendVote reports the bids of all pending transactions exactly when those it leaves out,
      before the cursor or at odd distance from it, carry none. */
  lemma {:induction false} ReportsAllBidsIff(c: Codec, m: Mempool)
    ensures var p := m.pending;
            Reported(c, Visited(m)) == Reported(c, p.txs) <==>
            forall i | 0 <= i < |p.txs| && (i < p.idx || (i - p.idx) % 2 == 1) :: Silent(c, p.txs[i])
  {
    hide Silent, Reported;
    var txs := m.pending.txs;
    var at := if m.pending.idx <= |txs| then m.pending.idx else |txs|;
    ReportsAllFrom(c, txs, at);
    SkippedSilentIff(c, txs, at);
    if m.pending.idx > |txs| {
      assert Strided(txs, at) == Strided(txs, m.pending.idx);
    }
  }

  lemma {:induction false} ReportsAllFrom(c: Codec, txs: seq<ThTx>, at: nat)
    requires at <= |txs|
    ensures Reported(c, Strided(txs, at)) == Reported(c, txs) <==>
            (forall i | 0 <= i < at :: Silent(c, txs[i])) && SkippedSilent(c, txs, at)
  {
    hide Silent, Reported, SkippedSilent, Strided;
    var before := txs[..at];
    assert txs == before + txs[at..];
    ReportedAppend(c, before, txs[at..]);
    NothingReportedIff(c, before);
    StrideReportsAllIff(c, txs, at);
    SameTail([], Reported(c, Strided(txs, at)), Reported(c, before), Reported(c, txs[at..]));
    assert [] + Reported(c, Strided(txs, at)) == Reported(c, Strided(txs, at));
    assert [] + Reported(c, txs) == Reported(c, txs);
    assert forall i | 0 <= i < at :: before[i] == txs[i];
  }

  // ----- Bids of one transaction -----

  lemma {:induction false} ReportOfMsgsIff(c: Codec, msgs: seq<Msg>, bz: Bytes)
    ensures bz in ReportOfMsgs(c, msgs) <==>
            exists msg | msg in msgs :: msg.BidMsg? && c.marshalBid(msg.bid) == Some(bz)
  {
    if |msgs| > 0 {
      var front, last := msgs[..|msgs| - 1], msgs[|msgs| - 1];
      ReportOfMsgsIff(c, front, bz);
      assert msgs == front + [last];
    }
  }

  lemma {:induction false} ReportedIff(c: Codec, entries: seq<ThTx>, bz: Bytes)
    ensures bz in Reported(c, entries) <==>
            exists e | e in entries :: bz in ReportOfMsgs(c, e.tx.msgs)
  {
    if |entries| > 0 {
      var front, last := entries[..|entries| - 1], entries[|entries| - 1];
      ReportedIff(c, front, bz);
      assert entries == front + [last];
    }
  }

  lemma {:induction false} AllBidsIff(extensions: seq<Record>, bz: Bytes)
    ensures bz in Votes.AllBids(extensions) <==> exists r | r in extensions :: bz in r.bids
  {
    if |extensions| > 0 {
      var front, last := extensions[..|extensions| - 1], extensions[|extensions| - 1];
      AllBidsIff(front, bz);
      assert extensions == front + [last];
    }
  }

  // ----- Readied transactions were inserted -----

  ghost predicate Sourced(n: Node) {
    && (forall e | e in n.pool.pending.txs :: e in n.inserted)
    && (forall e | e in n.readied :: e.(priority := 0) in n.inserted)
    && (forall e | e in n.pool.ready.txs :: e in n.readied)
  }

  lemma {:induction false} RemoveFirstFrom(entries: seq<ThTx>, e: ThTx)
    ensures forall x | x in RemoveFirst(entries, e) :: x in entries
  {
  }

  lemma {:induction false} StepSourced(c: Codec, n: Node, op: Op)
    requires Sourced(n) && WellFormed(n.pool) && !op.Update?
    ensures Sourced(Step(c, n, op))
  {
    if n.alive {
      var m := n.pool;
      if op.ExtendVote? {
        RemoveEachFrom(m.pending.txs, Visited(m));
        StridedFrom(m.pending.txs, m.pending.idx);
        forall e | e in Readied(Visited(m)) ensures e.(priority := 0) in n.inserted {
          var i :| 0 <= i < |Visited(m)| && e == Stamp(Visited(m)[i]);
          assert Visited(m)[i] in m.pending.txs by {
            assert Visited(m)[i] in Strided(m.pending.txs, m.pending.idx);
          }
          var j :| 0 <= j < |m.pending.txs| && m.pending.txs[j] == Visited(m)[i];
          assert e.(priority := 0) == m.pending.txs[j];
        }
      } else if op.Remove? && LookupError(m.ready.txs, op.tx).None? {
        RemoveFirstFrom(m.ready.txs, ThTx(Sender(op.tx).value, 1, op.tx));
      }
    }
  }

  /** In every run each ready transaction is one that was inserted before. */
  lemma {:induction false} ReadyWereInserted(c: Codec, ops: seq<Op>)
    requires InApp(ops)
    ensures Sourced(Run(c, ops))
  {
    if |ops| > 0 {
      ReadyWereInserted(c, ops[..|ops| - 1]);
      Priorities(c, ops[..|ops| - 1]);
      StepSourced(c, Run(c, ops[..|ops| - 1]), ops[|ops| - 1]);
    }
  }

  /** PrepareProposal offers only transactions that an ExtendVote of the same node has walked
      over, and that CheckTx had inserted before. */
  lemma {:induction false} OnlyVotedTxsOffered(c: Codec, ops: seq<Op>, e: ThTx)
    requires InApp(ops) && e in ReadyWalk(Run(c, ops).pool.ready)
    ensures e in Run(c, ops).readied && e.(priority := 0) in Run(c, ops).inserted
  {
    ReadyWereInserted(c, ops);
  }

  /** Each marshallable bid in the ready pool of a live node is in one of its extensions. */
  lemma {:induction false} ReadyWasReported(c: Codec, ops: seq<Op>, e: ThTx, msg: Msg)
    requires InApp(ops) && Run(c, ops).alive && e in Run(c, ops).pool.ready.txs
    requires msg in e.tx.msgs && msg.BidMsg? && c.marshalBid(msg.bid).Some?
    ensures exists r | r in Run(c, ops).extensions :: c.marshalBid(msg.bid).value in r.bids
  {
    var n, bz := Run(c, ops), c.marshalBid(msg.bid).value;
    ReportReadyAgreement(c, ops);
    ReadyWereInserted(c, ops);
    ReportOfMsgsIff(c, e.tx.msgs, bz);
    ReportedIff(c, n.readied, bz);
    AllBidsIff(n.extensions, bz);
  }
}
