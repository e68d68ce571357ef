/** First in, first out: order in the pools over any run of one node. */
module Order {
  import opened Types
  import opened Pools
  import opened Nodes

  /** `a` is what is left of `b` after deleting some of its elements. */
  ghost predicate Subsequence<T>(a: seq<T>, b: seq<T>) {
    |a| == 0 ||
    (|b| > 0 &&
     ((a[|a| - 1] == b[|b| - 1] && Subsequence(a[..|a| - 1], b[..|b| - 1]))
      || Subsequence(a, b[..|b| - 1])))
  }

  lemma {:induction false} SubsequenceAppend<T>(a: seq<T>, b: seq<T>, more: seq<T>)
    requires Subsequence(a, b)
    ensures Subsequence(a + more, b + more)
  {
    if |more| == 0 {
      assert a + more == a && b + more == b;
    } else {
      var front := more[..|more| - 1];
      SubsequenceAppend(a, b, front);
      assert (a + more)[..|a + more| - 1] == a + front;
      assert (b + more)[..|b + more| - 1] == b + front;
    }
  }

  lemma {:induction false} SubsequenceDelete<T>(a: seq<T>, b: seq<T>, i: nat)
    requires Subsequence(a, b) && i < |a|
    ensures Subsequence(Delete(a, i), b)
    decreases |b|
  {
    var a', b' := a[..|a| - 1], b[..|b| - 1];
    if a[|a| - 1] == b[|b| - 1] && Subsequence(a', b') {
      if i == |a| - 1 {
        assert Delete(a, i) == a';
      } else {
        SubsequenceDelete(a', b', i);
        var d := Delete(a, i);
        assert d[..|d| - 1] == Delete(a', i) && d[|d| - 1] == b[|b| - 1];
      }
    } else {
      SubsequenceDelete(a, b', i);
    }
  }

  lemma {:induction false} SubsequenceRemoveEach(entries: seq<ThTx>, visited: seq<ThTx>, log: seq<ThTx>)
    requires Subsequence(entries, log)
    ensures Subsequence(RemoveEach(entries, visited), log)
  {
    if |visited| > 0 {
      SubsequenceRemoveEach(entries, visited[..|visited| - 1], log);
      SubsequenceRemoveFirst(RemoveEach(entries, visited[..|visited| - 1]),
                             Stamp(visited[|visited| - 1]), log);
    }
  }

  lemma {:induction false} SubsequenceRemoveFirst(entries: seq<ThTx>, e: ThTx, log: seq<ThTx>)
    requires Subsequence(entries, log)
    ensures Subsequence(RemoveFirst(entries, e), log)
  {
    if FirstMatch(entries, e) < |entries| {
      SubsequenceDelete(entries, log, FirstMatch(entries, e));
    }
  }

  ghost predicate InOrder(n: Node) {
    Subsequence(n.pool.pending.txs, n.inserted) && Subsequence(n.pool.ready.txs, n.readied)
  }

  lemma {:induction false} StepInOrder(c: Codec, n: Node, op: Op)
    requires InOrder(n)
    ensures InOrder(Step(c, n, op))
  {
    hide Subsequence, RemoveFirst, RemoveEach, Strided;
    if n.alive {
      var m := n.pool;
      match op
      case Insert(tx) =>
        if Sender(tx).Ok? {
          SubsequenceAppend(m.pending.txs, n.inserted, [ThTx(Sender(tx).value, 0, tx)]);
        }
      case Update(tx) =>
        if LookupError(m.pending.txs, tx).None? {
          var e := ThTx(Sender(tx).value, 1, tx);
          SubsequenceRemoveFirst(m.pending.txs, e, n.inserted);
          SubsequenceAppend(m.ready.txs, n.readied, [e]);
        }
      case Remove(tx) =>
        if LookupError(m.ready.txs, tx).None? {
          SubsequenceRemoveFirst(m.ready.txs, ThTx(Sender(tx).value, 1, tx), n.readied);
        }
      case ExtendVote(_) =>
        SubsequenceRemoveEach(m.pending.txs, Visited(m), n.inserted);
        SubsequenceAppend(m.ready.txs, n.readied, Readied(Visited(m)));
      case Prepare =>
    }
  }

  /** In every run pending keeps the order of insertion and ready the order of `Update`. */
  lemma {:induction false} FirstInFirstOut(c: Codec, ops: seq<Op>)
    ensures InOrder(Run(c, ops))
  {
    if |ops| > 0 {
      FirstInFirstOut(c, ops[..|ops| - 1]);
      StepInOrder(c, Run(c, ops[..|ops| - 1]), ops[|ops| - 1]);
    }
  }
}
