/** The transaction provider, which front-runs every bid with a doubled bid of its own. */
module Provider {
  import opened Types

  /** `sign` builds and signs a transaction for a bid from the provider's account. */
  datatype TxProvider = TxProvider(account: string, sign: Bid -> Tx) {
    /** The signed transaction carries exactly the bid it was asked for. */
    ghost predicate Faithful() {
      forall bid: Bid {:trigger sign(bid)} ::
        |sign(bid).msgs| == 1 && sign(bid).msgs[0].BidMsg? && sign(bid).msgs[0].bid == bid
    }

    function MatchingBid(bid: Bid): Bid {
      Bid(bid.name, account, account, Doubled(bid.amount))
    }
  }

  function Doubled(coins: seq<Coin>): seq<Coin> {
    seq(|coins|, i requires 0 <= i < |coins| => Coin(coins[i].denom, 2 * coins[i].amount))
  }

  /** How much of a denomination a list of coins offers. */
  function Offers(coins: seq<Coin>, denom: string): nat {
    if |coins| == 0 then 0
    else
      var last := coins[|coins| - 1];
      Offers(coins[..|coins| - 1], denom) + (if last.denom == denom then last.amount else 0)
  }

  lemma {:induction false} DoubledOffers(coins: seq<Coin>, denom: string)
    ensures Offers(Doubled(coins), denom) == 2 * Offers(coins, denom)
  {
    if |coins| > 0 {
      DoubledOffers(coins[..|coins| - 1], denom);
      assert Doubled(coins)[..|coins| - 1] == Doubled(coins[..|coins| - 1]);
    }
  }

  /** The counter-bid bids for the same name and sends it to the provider. In every denomination
      it offers twice as much, which is strictly more exactly where the bid offers anything. */
  lemma {:induction false} MatchingBidOutbids(p: TxProvider, bid: Bid, denom: string)
    ensures var counter := p.MatchingBid(bid);
            && counter.name == bid.name
            && counter.owner == counter.resolveAddress == p.account
            && Offers(counter.amount, denom) == 2 * Offers(bid.amount, denom)
            && (Offers(counter.amount, denom) > Offers(bid.amount, denom) <==> Offers(bid.amount, denom) > 0)
    ensures forall i | 0 <= i < |bid.amount| ::
              var counter := p.MatchingBid(bid).amount[i];
              && counter.denom == bid.amount[i].denom
              && (counter.amount > bid.amount[i].amount <==> bid.amount[i].amount != 0)
  {
    DoubledOffers(bid.amount, denom);
  }

  /** One entry of a rewritten proposal: a counter-bid, or a copy made for a message. */
  datatype Slot = Counter(bid: Bid) | Copy(tx: Tx, msg: Msg)

  function SlotsOf(tx: Tx, msg: Msg): seq<Slot> {
    if msg.BidMsg? then [Counter(msg.bid), Copy(tx, msg)] else [Copy(tx, msg)]
  }

  function PlanMsgs(tx: Tx, msgs: seq<Msg>): seq<Slot> {
    if |msgs| == 0 then []
    else PlanMsgs(tx, msgs[..|msgs| - 1]) + SlotsOf(tx, msgs[|msgs| - 1])
  }

  function Plan(txs: seq<Tx>): seq<Slot> {
    if |txs| == 0 then []
    else Plan(txs[..|txs| - 1]) + PlanMsgs(txs[|txs| - 1], txs[|txs| - 1].msgs)
  }

  function Fill(p: TxProvider, slot: Slot): Tx {
    match slot
    case Counter(bid) => p.sign(p.MatchingBid(bid))
    case Copy(tx, _) => tx
  }

  function FillAll(p: TxProvider, slots: seq<Slot>): seq<Tx> {
    seq(|slots|, i requires 0 <= i < |slots| => Fill(p, slots[i]))
  }

  lemma {:induction false} FillAppend(p: TxProvider, a: seq<Slot>, b: seq<Slot>)
    ensures FillAll(p, a + b) == FillAll(p, a) + FillAll(p, b)
  {
  }

  lemma {:induction false} FillNone(p: TxProvider)
    ensures FillAll(p, []) == []
  {
  }

  lemma {:induction false} PlanMsgsNone(tx: Tx)
    ensures PlanMsgs(tx, []) == []
  {
  }

  /** What the inner loop of `BuildProposal` appends for message `j`. */
  lemma {:induction false} FillNext(p: TxProvider, plan: seq<Slot>, tx: Tx, j: nat)
    requires j < |tx.msgs|
    ensures FillAll(p, plan + PlanMsgs(tx, tx.msgs[..j + 1])) ==
            FillAll(p, plan + PlanMsgs(tx, tx.msgs[..j])) +
            (if tx.msgs[j].BidMsg? then [p.sign(p.MatchingBid(tx.msgs[j].bid)), tx] else [tx])
  {
    var before, slots := PlanMsgs(tx, tx.msgs[..j]), SlotsOf(tx, tx.msgs[j]);
    assert tx.msgs[..j + 1][..j] == tx.msgs[..j];
    assert plan + (before + slots) == plan + before + slots;
    FillAppend(p, plan + before, slots);
  }

  method BuildProposal(p: TxProvider, txs: seq<Tx>) returns (out: seq<Tx>)
    ensures out == FillAll(p, Plan(txs))
  {
    hide FillAll, PlanMsgs;
    out := [];
    assert out == FillAll(p, Plan(txs[..0])) by {
      FillNone(p);
    }
    for i := 0 to |txs|
      invariant out == FillAll(p, Plan(txs[..i]))
    {
      var tx := txs[i];
      ghost var plan := Plan(txs[..i]);
      PlanMsgsNone(tx);
      assert plan + [] == plan;
      for j := 0 to |tx.msgs|
        invariant out == FillAll(p, plan + PlanMsgs(tx, tx.msgs[..j]))
      {
        FillNext(p, plan, tx, j);
        match tx.msgs[j] {
          case BidMsg(bid, _) =>
            var newTx := p.sign(p.MatchingBid(bid));
            out := out + [newTx];
            out := out + [tx];
          case OtherMsg(_) =>
            out := out + [tx];
        }
      }
      assert tx.msgs[..|tx.msgs|] == tx.msgs;
      assert txs[..i + 1][..i] == txs[..i];
    }
    assert txs[..|txs|] == txs;
  }

  // ----- What the rewriting keeps -----

  /** Dropping the counter-bids from a plan. */
  function Erase(slots: seq<Slot>): seq<Tx> {
    if |slots| == 0 then []
    else
      var last := slots[|slots| - 1];
      Erase(slots[..|slots| - 1]) + (if last.Copy? then [last.tx] else [])
  }

  /** Every transaction, once for each of its messages. */
  function OncePerMsg(txs: seq<Tx>): seq<Tx> {
    if |txs| == 0 then []
    else
      var tx := txs[|txs| - 1];
      OncePerMsg(txs[..|txs| - 1]) + seq(|tx.msgs|, _ => tx)
  }

  function MsgCount(txs: seq<Tx>): nat {
    if |txs| == 0 then 0 else MsgCount(txs[..|txs| - 1]) + |txs[|txs| - 1].msgs|
  }

  function BidMsgs(msgs: seq<Msg>): nat {
    if |msgs| == 0 then 0
    else BidMsgs(msgs[..|msgs| - 1]) + (if msgs[|msgs| - 1].BidMsg? then 1 else 0)
  }

  function BidMsgCount(txs: seq<Tx>): nat {
    if |txs| == 0 then 0 else BidMsgCount(txs[..|txs| - 1]) + BidMsgs(txs[|txs| - 1].msgs)
  }

  lemma {:induction false} EraseAppend(a: seq<Slot>, b: seq<Slot>)
    ensures Erase(a + b) == Erase(a) + Erase(b)
  {
    if |b| == 0 {
      assert a + b == a;
    } else {
      EraseAppend(a, b[..|b| - 1]);
      assert (a + b)[..|a + b| - 1] == a + b[..|b| - 1];
    }
  }

  lemma {:induction false} EraseSlots(tx: Tx, msg: Msg)
    ensures Erase(SlotsOf(tx, msg)) == [tx]
  {
    assert Erase([Copy(tx, msg)]) == [tx];
    if msg.BidMsg? {
      EraseAppend([Counter(msg.bid)], [Copy(tx, msg)]);
      assert Erase([Counter(msg.bid)]) == [];
    }
  }

  lemma {:induction false} PlanMsgsLength(tx: Tx, msgs: seq<Msg>)
    ensures |PlanMsgs(tx, msgs)| == |msgs| + BidMsgs(msgs)
  {
    if |msgs| > 0 {
      PlanMsgsLength(tx, msgs[..|msgs| - 1]);
    }
  }

  lemma {:induction false} PlanMsgsErased(tx: Tx, msgs: seq<Msg>)
    ensures Erase(PlanMsgs(tx, msgs)) == seq(|msgs|, _ => tx)
  {
    if |msgs| > 0 {
      hide SlotsOf, Erase;
      var front, last := msgs[..|msgs| - 1], msgs[|msgs| - 1];
      PlanMsgsErased(tx, front);
      EraseAppend(PlanMsgs(tx, front), SlotsOf(tx, last));
      EraseSlots(tx, last);
      assert seq(|msgs|, _ => tx) == seq(|front|, _ => tx) + [tx];
    }
  }

  /** Without its counter-bids the proposal is the input in order, each transaction once per
      message; the number of entries is total messages plus total bid messages. */
  lemma {:induction false} RewritingKeepsOrder(txs: seq<Tx>)
    ensures Erase(Plan(txs)) == OncePerMsg(txs)
    ensures |Plan(txs)| == MsgCount(txs) + BidMsgCount(txs)
  {
    if |txs| > 0 {
      var front, tx := txs[..|txs| - 1], txs[|txs| - 1];
      RewritingKeepsOrder(front);
      PlanMsgsErased(tx, tx.msgs);
      PlanMsgsLength(tx, tx.msgs);
      EraseAppend(Plan(front), PlanMsgs(tx, tx.msgs));
    }
  }

  /** Erasing the counter-bids of single-message transactions gives the input back. */
  lemma {:induction false} RewritingUndone(txs: seq<Tx>)
    requires forall i | 0 <= i < |txs| :: |txs[i].msgs| == 1
    ensures Erase(Plan(txs)) == txs
  {
    RewritingKeepsOrder(txs);
    OncePerMsgSingle(txs);
  }

  lemma {:induction false} OncePerMsgSingle(txs: seq<Tx>)
    requires forall i | 0 <= i < |txs| :: |txs[i].msgs| == 1
    ensures OncePerMsg(txs) == txs
  {
    if |txs| > 0 {
      OncePerMsgSingle(txs[..|txs| - 1]);
      assert txs == txs[..|txs| - 1] + [txs[|txs| - 1]];
    }
  }

  /** A copy made for a bid message, and only such a copy, follows the counter-bid to it. */
  predicate Preceded(slots: seq<Slot>) {
    && (forall i | 0 <= i < |slots| && slots[i].Counter? ::
          i + 1 < |slots| && slots[i + 1].Copy?
          && slots[i + 1].msg.BidMsg? && slots[i + 1].msg.bid == slots[i].bid)
    && (forall i | 0 <= i < |slots| && slots[i].Copy? && slots[i].msg.BidMsg? ::
          i > 0 && slots[i - 1] == Counter(slots[i].msg.bid))
  }

  lemma {:induction false} PrecededAppend(a: seq<Slot>, b: seq<Slot>)
    requires Preceded(a) && Preceded(b)
    ensures Preceded(a + b)
  {
    var s := a + b;
    forall i | 0 <= i < |s| && s[i].Counter?
      ensures i + 1 < |s| && s[i + 1].Copy? && s[i + 1].msg.BidMsg? && s[i + 1].msg.bid == s[i].bid
    {
      if i >= |a| {
        assert s[i] == b[i - |a|] && s[i + 1] == b[i - |a| + 1];
      }
    }
    forall i | 0 <= i < |s| && s[i].Copy? && s[i].msg.BidMsg?
      ensures i > 0 && s[i - 1] == Counter(s[i].msg.bid)
    {
      if i >= |a| {
        assert s[i] == b[i - |a|] && s[i - 1] == b[i - |a| - 1];
      }
    }
  }

  lemma {:induction false} PlanMsgsPreceded(tx: Tx, msgs: seq<Msg>)
    ensures Preceded(PlanMsgs(tx, msgs))
  {
    if |msgs| > 0 {
      PlanMsgsPreceded(tx, msgs[..|msgs| - 1]);
      PrecededAppend(PlanMsgs(tx, msgs[..|msgs| - 1]), SlotsOf(tx, msgs[|msgs| - 1]));
    }
  }

  /** The copies of a plan, each with the message it was made for. */
  function Copies(slots: seq<Slot>): seq<(Tx, Msg)> {
    if |slots| == 0 then []
    else
      var last := slots[|slots| - 1];
      Copies(slots[..|slots| - 1]) + (if last.Copy? then [(last.tx, last.msg)] else [])
  }

  function MsgsOf(tx: Tx): seq<(Tx, Msg)> {
    seq(|tx.msgs|, i requires 0 <= i < |tx.msgs| => (tx, tx.msgs[i]))
  }

  /** Every message of every transaction, in order. */
  function AllMsgs(txs: seq<Tx>): seq<(Tx, Msg)> {
    if |txs| == 0 then [] else AllMsgs(txs[..|txs| - 1]) + MsgsOf(txs[|txs| - 1])
  }

  lemma {:induction false} CopiesAppend(a: seq<Slot>, b: seq<Slot>)
    ensures Copies(a + b) == Copies(a) + Copies(b)
  {
    if |b| == 0 {
      assert a + b == a;
    } else {
      CopiesAppend(a, b[..|b| - 1]);
      assert (a + b)[..|a + b| - 1] == a + b[..|b| - 1];
    }
  }

  lemma {:induction false} CopiesOfSlots(tx: Tx, msg: Msg)
    ensures Copies(SlotsOf(tx, msg)) == [(tx, msg)]
  {
    assert Copies([Copy(tx, msg)]) == [(tx, msg)];
    if msg.BidMsg? {
      CopiesAppend([Counter(msg.bid)], [Copy(tx, msg)]);
      assert Copies([Counter(msg.bid)]) == [];
    }
  }

  lemma {:induction false} MsgsOfNext(tx: Tx, n: nat)
    requires 0 < n <= |tx.msgs|
    ensures MsgsOf(tx)[..n] == MsgsOf(tx)[..n - 1] + [(tx, tx.msgs[n - 1])]
  {
  }

  lemma {:induction false} PlanMsgsNext(tx: Tx, n: nat)
    requires 0 < n <= |tx.msgs|
    ensures PlanMsgs(tx, tx.msgs[..n]) == PlanMsgs(tx, tx.msgs[..n - 1]) + SlotsOf(tx, tx.msgs[n - 1])
  {
    assert tx.msgs[..n][..n - 1] == tx.msgs[..n - 1];
  }

  lemma {:induction false} PlanMsgsCopies(tx: Tx, n: nat)
    requires n <= |tx.msgs|
    ensures Copies(PlanMsgs(tx, tx.msgs[..n])) == MsgsOf(tx)[..n]
  {
    if n > 0 {
      hide SlotsOf, Copies, PlanMsgs, MsgsOf;
      PlanMsgsCopies(tx, n - 1);
      PlanMsgsNext(tx, n);
      MsgsOfNext(tx, n);
      CopiesAppend(PlanMsgs(tx, tx.msgs[..n - 1]), SlotsOf(tx, tx.msgs[n - 1]));
      CopiesOfSlots(tx, tx.msgs[n - 1]);
    }
  }

  /** The plan copies each transaction for each of its messages in order, and a copy for a bid
      message, and only such a copy, directly follows the counter-bid to that message's bid. */
  lemma {:induction false} CounterBidsComeFirst(txs: seq<Tx>)
    ensures Preceded(Plan(txs)) && Copies(Plan(txs)) == AllMsgs(txs)
  {
    if |txs| > 0 {
      hide Preceded, Copies, MsgsOf;
      var tx := txs[|txs| - 1];
      CounterBidsComeFirst(txs[..|txs| - 1]);
      PlanMsgsPreceded(tx, tx.msgs);
      PrecededAppend(Plan(txs[..|txs| - 1]), PlanMsgs(tx, tx.msgs));
      PlanMsgsCopies(tx, |tx.msgs|);
      assert tx.msgs[..|tx.msgs|] == tx.msgs;
      AllOfMsgs(tx);
      CopiesAppend(Plan(txs[..|txs| - 1]), PlanMsgs(tx, tx.msgs));
    }
  }

  lemma {:induction false} AllOfMsgs(tx: Tx)
    ensures MsgsOf(tx)[..|tx.msgs|] == MsgsOf(tx)
  {
  }

  // ----- The rewriting is determined by that -----

  /** The slots before the last copy and its counter-bid, if it has one. */
  function BeforeLast(slots: seq<Slot>): seq<Slot>
    requires |slots| > 0 && Preceded(slots)
  {
    var last := slots[|slots| - 1];
    if last.Copy? && last.msg.BidMsg? then slots[..|slots| - 2] else slots[..|slots| - 1]
  }

  lemma {:induction false} PrecededLast(slots: seq<Slot>)
    requires |slots| > 0 && Preceded(slots)
    ensures var last, before := slots[|slots| - 1], BeforeLast(slots);
            && last.Copy? && Preceded(before)
            && slots == before + SlotsOf(last.tx, last.msg)
            && Copies(slots) == Copies(before) + [(last.tx, last.msg)]
  {
    var last, before := slots[|slots| - 1], BeforeLast(slots);
    assert last.Copy?;
    assert slots == before + SlotsOf(last.tx, last.msg);
    CopiesAppend(before, SlotsOf(last.tx, last.msg));
    CopiesOfSlots(last.tx, last.msg);
    forall i | 0 <= i < |before| && before[i].Counter? ensures i + 1 < |before| {
      assert slots[i] == before[i] && slots[i + 1].Copy?;
    }
  }

  /** Only the plan has these two properties. */
  lemma {:induction false} PlanIsDetermined(a: seq<Slot>, b: seq<Slot>)
    requires Preceded(a) && Preceded(b) && Copies(a) == Copies(b)
    ensures a == b
    decreases |a|
  {
    if |a| > 0 && |b| > 0 {
      hide Copies, Preceded;
      PrecededLast(a);
      PrecededLast(b);
      var x, y := a[|a| - 1], b[|b| - 1];
      SameFront(Copies(BeforeLast(a)), (x.tx, x.msg), Copies(BeforeLast(b)), (y.tx, y.msg));
      PlanIsDetermined(BeforeLast(a), BeforeLast(b));
    } else if |a| > 0 {
      PrecededLast(a);
    } else if |b| > 0 {
      PrecededLast(b);
    }
  }

  lemma {:induction false} SameFront<T>(a: seq<T>, x: T, b: seq<T>, y: T)
    requires a + [x] == b + [y]
    ensures a == b && x == y
  {
    assert |a + [x]| == |b + [y]|;
    assert (a + [x])[..|a|] == a && (b + [y])[..|a|] == b;
    assert (a + [x])[|a|] == x && (b + [y])[|a|] == y;
  }
}
