/** One validator as a state machine: the mempool, the handlers that touch it, and a log of
    what went in and out. A run is any sequence of calls. */
module Nodes {
  import opened Types
  import opened Pools
  import opened VoteExt

  datatype Op =
    | Insert(tx: Tx)
    | Update(tx: Tx)
    | Remove(tx: Tx)
    | ExtendVote(height: int64)
    | Prepare

  /** `inserted`, `readied` and `removed` list the entries that entered the pending pool,
      entered the ready pool and left the ready pool; `walks` what each PrepareProposal read;
      `alive` is false after a panic. */
  datatype Node = Node(pool: Mempool, inserted: seq<ThTx>, readied: seq<ThTx>, removed: seq<ThTx>,
    extensions: seq<Record>, walks: seq<seq<ThTx>>, alive: bool)

  const START := Node(EMPTY, [], [], [], [], [], true)

  function Step(c: Codec, n: Node, op: Op): Node {
    if !n.alive then n
    else
      var m := n.pool;
      match op
      case Insert(tx) =>
        (match Sender(tx)
         case Err(_) => n
         case Ok(sender) =>
           n.(pool := Inserted(m, tx), inserted := n.inserted + [ThTx(sender, 0, tx)]))
      case Update(tx) =>
        if LookupError(m.pending.txs, tx).Some? then n
        else n.(pool := Updated(m, tx), readied := n.readied + [ThTx(Sender(tx).value, 1, tx)])
      case Remove(tx) =>
        if LookupError(m.ready.txs, tx).Some? then n
        else
          var i := FirstMatch(m.ready.txs, ThTx(Sender(tx).value, 1, tx));
          n.(pool := Removed(m, tx), removed := n.removed + [m.ready.txs[i]])
      case ExtendVote(height) =>
        var walked := n.(pool := AfterExtendVote(m), readied := n.readied + Readied(Visited(m)));
        if WalkReturns(m.pending)
        then walked.(extensions := n.extensions + [Record(height, Reported(c, Visited(m)))])
        else walked.(alive := false)
      case Prepare =>
        if ReadyWalkReturns(m.ready)
        then n.(pool := AfterReadyWalk(m), walks := n.walks + [ReadyWalk(m.ready)])
        else n.(alive := false)
  }

  function Run(c: Codec, ops: seq<Op>): Node {
    if |ops| == 0 then START else Step(c, Run(c, ops[..|ops| - 1]), ops[|ops| - 1])
  }

  lemma {:induction false} DeadStaysDead(c: Codec, n: Node, op: Op)
    requires !n.alive
    ensures Step(c, n, op) == n
  {
  }

  /** `Update` is called by ExtendVote only. */
  predicate InApp(ops: seq<Op>) {
    forall i | 0 <= i < |ops| :: !ops[i].Update?
  }

  // ----- Entries stay stamped -----

  lemma {:induction false} RemoveEachFrom(entries: seq<ThTx>, visited: seq<ThTx>)
    ensures forall e | e in RemoveEach(entries, visited) :: e in entries
  {
    if |visited| > 0 {
      RemoveEachFrom(entries, visited[..|visited| - 1]);
    }
  }

  lemma {:induction false} StridedFrom<T>(s: seq<T>, c: nat)
    ensures forall e | e in Strided(s, c) :: e in s
    decreases |s| - c
  {
    if c < |s| {
      StridedFrom(s, c + 2);
    }
  }

  lemma {:induction false} StampedSubset(part: seq<ThTx>, whole: seq<ThTx>, priority: int64)
    requires Stamped(whole, priority) && forall e | e in part :: e in whole
    ensures Stamped(part, priority)
  {
    forall i | 0 <= i < |part|
      ensures part[i].priority == priority && Sender(part[i].tx) == Ok(part[i].address)
    {
      assert part[i] in whole;
      var j :| 0 <= j < |whole| && whole[j] == part[i];
    }
  }

  lemma {:induction false} VoteStamped(m: Mempool)
    requires WellFormed(m)
    ensures WellFormed(AfterExtendVote(m))
  {
    var visited := Visited(m);
    RemoveEachFrom(m.pending.txs, visited);
    StridedFrom(m.pending.txs, m.pending.idx);
    StampedSubset(RemoveEach(m.pending.txs, visited), m.pending.txs, 0);
    StampedSubset(visited, m.pending.txs, 0);
  }

  lemma {:induction false} StepStamped(c: Codec, n: Node, op: Op)
    requires WellFormed(n.pool)
    ensures WellFormed(Step(c, n, op).pool)
  {
    hide Stamped, AfterExtendVote, Inserted, Updated, Removed;
    match op
    case Insert(tx) => InsertedWellFormed(n.pool, tx);
    case Update(tx) => UpdatedWellFormed(n.pool, tx);
    case Remove(tx) => RemovedWellFormed(n.pool, tx);
    case ExtendVote(_) => VoteStamped(n.pool);
    case Prepare =>
  }

  /** In every run pending entries have priority 0 and ready entries priority 1. */
  lemma {:induction false} Priorities(c: Codec, ops: seq<Op>)
    ensures WellFormed(Run(c, ops).pool)
  {
    if |ops| > 0 {
      Priorities(c, ops[..|ops| - 1]);
      StepStamped(c, Run(c, ops[..|ops| - 1]), ops[|ops| - 1]);
    }
  }

  // ----- Conservation -----

  type Tally = multiset<(string, seq<string>)>

  ghost function Tallied(entries: seq<ThTx>): Tally {
    multiset(Classes(entries))
  }

  lemma {:induction false} TalliedAppend(a: seq<ThTx>, b: seq<ThTx>)
    ensures Tallied(a + b) == Tallied(a) + Tallied(b)
  {
    assert Classes(a + b) == Classes(a) + Classes(b);
  }

  lemma {:induction false} TalliedOne(e: ThTx)
    ensures Tallied([e]) == multiset{e.Class()}
  {
    assert Classes([e]) == [e.Class()];
  }

  lemma {:induction false} TalliedNone(entries: seq<ThTx>)
    requires |entries| == 0
    ensures Tallied(entries) == multiset{}
  {
  }

  lemma {:induction false} TalliedReadied(entries: seq<ThTx>)
    ensures Tallied(Readied(entries)) == Tallied(entries)
  {
    assert Classes(Readied(entries)) == Classes(entries);
  }

  lemma {:induction false} TalliedDelete(entries: seq<ThTx>, i: nat)
    requires i < |entries|
    ensures Tallied(entries) == Tallied(Delete(entries, i)) + multiset{entries[i].Class()}
  {
    assert entries == entries[..i] + [entries[i]] + entries[i + 1..];
    assert Classes(entries) == Classes(entries[..i]) + [entries[i].Class()] + Classes(entries[i + 1..]);
    assert Classes(Delete(entries, i)) == Classes(entries[..i]) + Classes(entries[i + 1..]);
  }

  /** Removing the first match takes exactly one entry of the class, if there is one. */
  lemma {:induction false} TalliedRemoveFirst(entries: seq<ThTx>, e: ThTx)
    requires e.Class() in Tallied(entries)
    ensures FirstMatch(entries, e) < |entries|
    ensures Tallied(entries) == Tallied(RemoveFirst(entries, e)) + multiset{e.Class()}
  {
    assert e.Class() in Classes(entries);
    var j :| 0 <= j < |entries| && Classes(entries)[j] == e.Class();
    EqualIsSameClass(entries[j], e);
    var i := FirstMatch(entries, e);
    EqualIsSameClass(entries[i], e);
    TalliedDelete(entries, i);
  }

  lemma {:induction false} TalliedRemoveEach(entries: seq<ThTx>, visited: seq<ThTx>)
    requires Tallied(visited) <= Tallied(entries)
    ensures Tallied(entries) == Tallied(RemoveEach(entries, visited)) + Tallied(visited)
  {
    hide Tallied;
    if |visited| == 0 {
      TalliedNone(visited);
    } else {
      var front, last := visited[..|visited| - 1], visited[|visited| - 1];
      assert visited == front + [last];
      TalliedAppend(front, [last]);
      TalliedOne(last);
      TalliedRemoveEach(entries, front);
      var x := last.Class();
      assert Stamp(last).Class() == x;
      assert Tallied(front)[x] + 1 == Tallied(visited)[x] <= Tallied(entries)[x];
      TalliedRemoveFirst(RemoveEach(entries, front), Stamp(last));
    }
  }

  lemma {:induction false} HeadOf<T>(s: seq<T>, c: nat)
    requires c < |s|
    ensures multiset(s[c..]) == multiset{s[c]} + multiset(s[c + 1..])
  {
    assert s[c..] == [s[c]] + s[c + 1..];
  }

  lemma {:induction false} StridedWithin<T>(s: seq<T>, c: nat)
    requires c <= |s|
    ensures multiset(Strided(s, c)) <= multiset(s[c..])
    decreases |s| - c
  {
    if c < |s| {
      HeadOf(s, c);
      if c + 1 < |s| {
        HeadOf(s, c + 1);
        StridedWithin(s, c + 2);
      }
    }
  }

  lemma {:induction false} StridedClasses(entries: seq<ThTx>, c: nat)
    ensures Classes(Strided(entries, c)) == Strided(Classes(entries), c)
    decreases |entries| - c
  {
    if c < |entries| {
      StridedClasses(entries, c + 2);
      assert Classes([entries[c]] + Strided(entries, c + 2)) ==
             [entries[c].Class()] + Classes(Strided(entries, c + 2));
    }
  }

  lemma {:induction false} VisitedWithin(p: Pool)
    ensures Tallied(Strided(p.txs, p.idx)) <= Tallied(p.txs)
  {
    if p.idx <= |p.txs| {
      var all := Classes(p.txs);
      StridedClasses(p.txs, p.idx);
      StridedWithin(all, p.idx);
      assert all == all[..p.idx] + all[p.idx..];
    }
  }

  ghost predicate Balanced(n: Node) {
    Tallied(n.inserted) ==
    Tallied(n.pool.pending.txs) + Tallied(n.pool.ready.txs) + Tallied(n.removed)
  }

  lemma {:induction false} LookupTally(entries: seq<ThTx>, tx: Tx)
    requires LookupError(entries, tx).None?
    ensures var e := ThTx(Sender(tx).value, 1, tx);
            var i := FirstMatch(entries, e);
            && entries[i].Class() == e.Class()
            && Tallied(entries) == Tallied(RemoveFirst(entries, e)) + multiset{e.Class()}
  {
    var e := ThTx(Sender(tx).value, 1, tx);
    var i := FirstMatch(entries, e);
    EqualIsSameClass(entries[i], e);
    TalliedDelete(entries, i);
  }

  lemma {:induction false} StepBalanced(c: Codec, n: Node, op: Op)
    requires Balanced(n)
    ensures Balanced(Step(c, n, op))
  {
    hide Classes, Tallied, RemoveFirst, RemoveEach, Strided, FirstMatch;
    if n.alive {
      var m := n.pool;
      match op
      case Insert(tx) =>
        if Sender(tx).Ok? {
          var e := ThTx(Sender(tx).value, 0, tx);
          TalliedAppend(m.pending.txs, [e]);
          TalliedAppend(n.inserted, [e]);
        }
      case Update(tx) =>
        if LookupError(m.pending.txs, tx).None? {
          var e := ThTx(Sender(tx).value, 1, tx);
          LookupTally(m.pending.txs, tx);
          TalliedAppend(m.ready.txs, [e]);
          TalliedOne(e);
        }
      case Remove(tx) =>
        if LookupError(m.ready.txs, tx).None? {
          var e := m.ready.txs[FirstMatch(m.ready.txs, ThTx(Sender(tx).value, 1, tx))];
          LookupTally(m.ready.txs, tx);
          TalliedAppend(n.removed, [e]);
          TalliedOne(e);
        }
      case ExtendVote(_) =>
        VisitedWithin(m.pending);
        TalliedRemoveEach(m.pending.txs, Visited(m));
        TalliedReadied(Visited(m));
        TalliedAppend(m.ready.txs, Readied(Visited(m)));
      case Prepare =>
    }
  }

  /** For each `Equal` class, in every run: inserted = pending + ready + removed. */
  lemma {:induction false} Conservation(c: Codec, ops: seq<Op>)
    ensures Balanced(Run(c, ops))
  {
    if |ops| > 0 {
      Conservation(c, ops[..|ops| - 1]);
      StepBalanced(c, Run(c, ops[..|ops| - 1]), ops[|ops| - 1]);
    }
  }

  /** Identity is weaker: `Update` keeps the transactions themselves, and not just their
      classes, exactly when the first match is the transaction that was passed in. */
  lemma {:induction false} UpdateKeepsIdentity(m: Mempool, tx: Tx)
    requires LookupError(m.pending.txs, tx).None?
    ensures var after := Updated(m, tx);
            multiset(TxsOf(after.pending.txs)) + multiset(TxsOf(after.ready.txs)) ==
            multiset(TxsOf(m.pending.txs)) + multiset(TxsOf(m.ready.txs))
            <==> m.pending.txs[FirstMatch(m.pending.txs, ThTx(Sender(tx).value, 1, tx))].tx == tx
  {
    var e := ThTx(Sender(tx).value, 1, tx);
    var txs, i := m.pending.txs, FirstMatch(m.pending.txs, e);
    assert TxsOf(txs) == TxsOf(txs[..i]) + [txs[i].tx] + TxsOf(txs[i + 1..]);
    assert TxsOf(Delete(txs, i)) == TxsOf(txs[..i]) + TxsOf(txs[i + 1..]);
    assert TxsOf(m.ready.txs + [e]) == TxsOf(m.ready.txs) + [tx];
    var rest := multiset(TxsOf(Delete(txs, i))) + multiset(TxsOf(m.ready.txs));
    assert multiset(TxsOf(txs)) + multiset(TxsOf(m.ready.txs)) == rest + multiset{txs[i].tx};
    assert multiset(TxsOf(Updated(m, tx).pending.txs)) + multiset(TxsOf(Updated(m, tx).ready.txs)) ==
           rest + multiset{tx};
    if txs[i].tx != tx {
      assert (rest + multiset{tx})[tx] == rest[tx] + 1;
      assert (rest + multiset{txs[i].tx})[tx] == rest[tx];
    }
  }
}
