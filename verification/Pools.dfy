/** The mempool as a value: what `Insert`, `Update`, `Remove` and the two iterator walks
    do to the pools, each in closed form. The class in Mempool.dfy is proved against
    these functions. */
module Pools {
  import opened Types

  datatype ThTx = ThTx(address: string, priority: int64, tx: Tx) {
    /** Same sender and same message strings; identity and priority are ignored. */
    predicate Equal(other: ThTx) {
      && address == other.address
      && |tx.msgs| == |other.tx.msgs|
      && forall i | 0 <= i < |tx.msgs| :: tx.msgs[i].text == other.tx.msgs[i].text
    }

    /** The `Equal` class of an entry. */
    function Class(): (string, seq<string>) {
      (address, Texts(tx.msgs))
    }
  }

  function Texts(msgs: seq<Msg>): seq<string> {
    seq(|msgs|, i requires 0 <= i < |msgs| => msgs[i].text)
  }

  function Classes(entries: seq<ThTx>): seq<(string, seq<string>)> {
    seq(|entries|, i requires 0 <= i < |entries| => entries[i].Class())
  }

  /** `Equal` holds exactly within a class, so it is an equivalence relation. */
  lemma {:induction false} EqualIsSameClass(a: ThTx, b: ThTx)
    ensures a.Equal(b) <==> a.Class() == b.Class()
  {
    if a.Class() == b.Class() {
      forall i | 0 <= i < |a.tx.msgs|
        ensures a.tx.msgs[i].text == b.tx.msgs[i].text
      {
        assert Texts(a.tx.msgs)[i] == Texts(b.tx.msgs)[i];
      }
    }
    if a.Equal(b) {
      assert Texts(a.tx.msgs) == Texts(b.tx.msgs);
    }
  }

  /** One pool together with the cursor that is saved in it. */
  datatype Pool = Pool(idx: nat, txs: seq<ThTx>)

  datatype Mempool = Mempool(pending: Pool, ready: Pool)

  const EMPTY := Mempool(Pool(0, []), Pool(0, []))

  /** Every entry carries its transaction's sender and the given priority. */
  predicate Stamped(entries: seq<ThTx>, priority: int64) {
    forall i | 0 <= i < |entries| ::
      entries[i].priority == priority && Sender(entries[i].tx) == Ok(entries[i].address)
  }

  predicate WellFormed(m: Mempool) {
    Stamped(m.pending.txs, 0) && Stamped(m.ready.txs, 1)
  }

  function Delete<T>(s: seq<T>, i: nat): seq<T>
    requires i < |s|
  {
    s[..i] + s[i + 1..]
  }

  /** The position of the first entry `Equal` to `e`, or the length when there is none. */
  function FirstMatch(entries: seq<ThTx>, e: ThTx): (i: nat)
    ensures i <= |entries|
    ensures forall j | 0 <= j < i :: !entries[j].Equal(e)
    ensures i < |entries| ==> entries[i].Equal(e)
  {
    if |entries| == 0 || entries[0].Equal(e) then 0 else 1 + FirstMatch(entries[1..], e)
  }

  function RemoveFirst(entries: seq<ThTx>, e: ThTx): seq<ThTx> {
    var i := FirstMatch(entries, e);
    if i < |entries| then Delete(entries, i) else entries
  }

  function Inserted(m: Mempool, tx: Tx): Mempool {
    match Sender(tx)
    case Err(_) => m
    case Ok(sender) => m.(pending := m.pending.(txs := m.pending.txs + [ThTx(sender, 0, tx)]))
  }

  function InsertError(tx: Tx): Option<Error> {
    match Sender(tx)
    case Err(e) => Some(e)
    case Ok(_) => None
  }

  /** Whether a lookup for `tx` finds an entry, and the error returned when it does not. */
  function LookupError(entries: seq<ThTx>, tx: Tx): Option<Error> {
    match Sender(tx)
    case Err(e) => Some(e)
    case Ok(sender) =>
      if FirstMatch(entries, ThTx(sender, 1, tx)) < |entries| then None else Some(TxNotFound)
  }

  /** `Update`: the first match leaves pending, the transaction passed in becomes ready. */
  function Updated(m: Mempool, tx: Tx): Mempool {
    if LookupError(m.pending.txs, tx).Some? then m
    else
      var e := ThTx(Sender(tx).value, 1, tx);
      Mempool(m.pending.(txs := RemoveFirst(m.pending.txs, e)),
              m.ready.(txs := m.ready.txs + [e]))
  }

  /** `Remove`: the first match leaves the ready pool; the cursors stay. */
  function Removed(m: Mempool, tx: Tx): Mempool {
    if LookupError(m.ready.txs, tx).Some? then m
    else m.(ready := m.ready.(txs := RemoveFirst(m.ready.txs, ThTx(Sender(tx).value, 1, tx))))
  }

  // ----- The calls, from the transaction's own signatures and messages -----

  /** The same first signer and the same message strings. */
  predicate SameKind(a: Tx, b: Tx) {
    && a.signatures.Signers? && |a.signatures.addresses| > 0
    && b.signatures.Signers? && |b.signatures.addresses| > 0
    && a.signatures.addresses[0] == b.signatures.addresses[0]
    && |a.msgs| == |b.msgs|
    && forall i | 0 <= i < |a.msgs| :: a.msgs[i].text == b.msgs[i].text
  }

  /** Reading the signers fails, or finds none, or finds a first one. */
  function SignatureError(tx: Tx): Option<Error> {
    match tx.signatures
    case Unreadable => Some(SignaturesUnreadable)
    case Signers(addresses) => if addresses == [] then Some(Unsigned) else None
  }

  /** `Insert` fails exactly when the transaction has no readable signer, and then changes
      nothing; otherwise pending gains the transaction at its end, under its first signer. */
  lemma {:induction false} InsertMeaning(m: Mempool, tx: Tx)
    ensures InsertError(tx) == SignatureError(tx)
    ensures Inserted(m, tx) ==
            if SignatureError(tx).Some? then m
            else
              var e := ThTx(tx.signatures.addresses[0], 0, tx);
              Mempool(Pool(m.pending.idx, m.pending.txs + [e]), m.ready)
  {
    match tx.signatures
    case Unreadable =>
    case Signers(addresses) =>
  }

  /** A lookup answers the signature error, or the first entry of the same kind, or that no
      entry is of that kind. */
  lemma {:induction false} LookupMeaning(entries: seq<ThTx>, priority: int64, tx: Tx) returns (i: nat)
    requires Stamped(entries, priority)
    ensures SignatureError(tx).Some? ==> LookupError(entries, tx) == SignatureError(tx)
    ensures LookupError(entries, tx) == Some(TxNotFound) <==>
            SignatureError(tx).None? && forall k | 0 <= k < |entries| :: !SameKind(entries[k].tx, tx)
    ensures LookupError(entries, tx).None? ==>
              && SignatureError(tx).None?
              && i < |entries| && SameKind(entries[i].tx, tx)
              && (forall k | 0 <= k < i :: !SameKind(entries[k].tx, tx))
              && RemoveFirst(entries, ThTx(tx.signatures.addresses[0], 1, tx)) ==
                 entries[..i] + entries[i + 1..]
  {
    i := 0;
    if Sender(tx).Ok? {
      var e := ThTx(tx.signatures.addresses[0], 1, tx);
      i := FirstMatch(entries, e);
      forall k | 0 <= k < |entries| ensures entries[k].Equal(e) <==> SameKind(entries[k].tx, tx) {
        assert Sender(entries[k].tx) == Ok(entries[k].address);
      }
    }
  }

  /** `Update` fails on a signature error or when no pending transaction is of the same kind,
      and then changes nothing; otherwise the first of that kind leaves pending, and the
      transaction passed in is appended to ready. Cursors stay. */
  lemma {:induction false} UpdateMeaning(m: Mempool, tx: Tx) returns (i: nat)
    requires WellFormed(m)
    ensures var error := LookupError(m.pending.txs, tx);
            && (SignatureError(tx).Some? ==> error == SignatureError(tx))
            && (error == Some(TxNotFound) <==>
                  SignatureError(tx).None?
                  && forall k | 0 <= k < |m.pending.txs| :: !SameKind(m.pending.txs[k].tx, tx))
            && (error.Some? ==> Updated(m, tx) == m)
    ensures LookupError(m.pending.txs, tx).None? ==>
              && SignatureError(tx).None?
              && i < |m.pending.txs| && SameKind(m.pending.txs[i].tx, tx)
              && (forall k | 0 <= k < i :: !SameKind(m.pending.txs[k].tx, tx))
              && Updated(m, tx) ==
                 Mempool(Pool(m.pending.idx, m.pending.txs[..i] + m.pending.txs[i + 1..]),
                         Pool(m.ready.idx, m.ready.txs + [ThTx(tx.signatures.addresses[0], 1, tx)]))
  {
    hide Stamped, SameKind, RemoveFirst;
    i := LookupMeaning(m.pending.txs, 0, tx);
  }

  /** `Remove` likewise, on the ready pool; the cursors and the pending pool stay. */
  lemma {:induction false} RemoveMeaning(m: Mempool, tx: Tx) returns (i: nat)
    requires WellFormed(m)
    ensures var error := LookupError(m.ready.txs, tx);
            && (SignatureError(tx).Some? ==> error == SignatureError(tx))
            && (error == Some(TxNotFound) <==>
                  SignatureError(tx).None?
                  && forall k | 0 <= k < |m.ready.txs| :: !SameKind(m.ready.txs[k].tx, tx))
            && (error.Some? ==> Removed(m, tx) == m)
    ensures LookupError(m.ready.txs, tx).None? ==>
              && SignatureError(tx).None?
              && i < |m.ready.txs| && SameKind(m.ready.txs[i].tx, tx)
              && (forall k | 0 <= k < i :: !SameKind(m.ready.txs[k].tx, tx))
              && Removed(m, tx) ==
                 Mempool(m.pending, Pool(m.ready.idx, m.ready.txs[..i] + m.ready.txs[i + 1..]))
  {
    hide Stamped, SameKind, RemoveFirst;
    i := LookupMeaning(m.ready.txs, 1, tx);
  }

  // ----- The calls keep the entries stamped -----

  lemma {:induction false} StampedDelete(entries: seq<ThTx>, i: nat, priority: int64)
    requires Stamped(entries, priority) && i < |entries|
    ensures Stamped(Delete(entries, i), priority)
  {
  }

  lemma {:induction false} StampedAppend(entries: seq<ThTx>, e: ThTx, priority: int64)
    requires Stamped(entries, priority) && e.priority == priority && Sender(e.tx) == Ok(e.address)
    ensures Stamped(entries + [e], priority)
  {
  }

  lemma {:induction false} InsertedWellFormed(m: Mempool, tx: Tx)
    requires WellFormed(m)
    ensures WellFormed(Inserted(m, tx))
  {
    hide Stamped;
    if Sender(tx).Ok? {
      StampedAppend(m.pending.txs, ThTx(Sender(tx).value, 0, tx), 0);
    }
  }

  lemma {:induction false} UpdatedWellFormed(m: Mempool, tx: Tx)
    requires WellFormed(m)
    ensures WellFormed(Updated(m, tx))
  {
    hide Stamped;
    if LookupError(m.pending.txs, tx).None? {
      var e := ThTx(Sender(tx).value, 1, tx);
      StampedDelete(m.pending.txs, FirstMatch(m.pending.txs, e), 0);
      StampedAppend(m.ready.txs, e, 1);
    }
  }

  lemma {:induction false} RemovedWellFormed(m: Mempool, tx: Tx)
    requires WellFormed(m)
    ensures WellFormed(Removed(m, tx))
  {
    hide Stamped;
    if LookupError(m.ready.txs, tx).None? {
      StampedDelete(m.ready.txs, FirstMatch(m.ready.txs, ThTx(Sender(tx).value, 1, tx)), 1);
    }
  }

  // ----- The walk of ExtendVote -----

  /** Entries at positions c, c + 2, c + 4, ... */
  function Strided<T>(s: seq<T>, c: nat): seq<T>
    decreases |s| - c
  {
    if c >= |s| then [] else [s[c]] + Strided(s, c + 2)
  }

  lemma {:induction false} StridedLength<T>(s: seq<T>, c: nat)
    ensures |Strided(s, c)| == if c < |s| then (|s| - c + 1) / 2 else 0
    decreases |s| - c
  {
    if c < |s| {
      StridedLength(s, c + 2);
    }
  }

  lemma {:induction false} StridedAt<T>(s: seq<T>, c: nat, k: nat)
    requires k < |Strided(s, c)|
    ensures c + 2 * k < |s| && Strided(s, c)[k] == s[c + 2 * k]
    decreases k
  {
    if k > 0 {
      StridedAt(s, c + 2, k - 1);
    }
  }

  function Stamp(e: ThTx): ThTx {
    e.(priority := 1)
  }

  function Readied(entries: seq<ThTx>): seq<ThTx> {
    seq(|entries|, i requires 0 <= i < |entries| => Stamp(entries[i]))
  }

  /** Removing, for each of `visited` in turn, the first entry `Equal` to it. */
  function RemoveEach(entries: seq<ThTx>, visited: seq<ThTx>): seq<ThTx> {
    if |visited| == 0 then entries
    else RemoveFirst(RemoveEach(entries, visited[..|visited| - 1]), Stamp(visited[|visited| - 1]))
  }

  /** When the walk ends by `Next` returning nil rather than by the panic in `Tx`. */
  predicate WalkReturns(p: Pool) {
    |p.txs| == 0 ||
    (p.idx < |p.txs| && ((|p.txs| - p.idx) % 2 == 0 || (p.idx == 0 && |p.txs| == 1)))
  }

  /** Where the walk leaves the cursor. */
  function CursorAfterWalk(p: Pool): nat {
    var L := |p.txs|;
    if L <= p.idx then p.idx
    else if L == 1 then 0
    else if (L - p.idx) % 2 == 0 then p.idx + (L - p.idx) / 2 - 1
    else p.idx + (L - p.idx + 1) / 2
  }

  function Visited(m: Mempool): seq<ThTx> {
    Strided(m.pending.txs, m.pending.idx)
  }

  function AfterExtendVote(m: Mempool): Mempool {
    Mempool(Pool(CursorAfterWalk(m.pending), RemoveEach(m.pending.txs, Visited(m))),
            m.ready.(txs := m.ready.txs + Readied(Visited(m))))
  }

  // ----- The walk of PrepareProposal -----

  predicate ReadyWalkReturns(p: Pool) {
    |p.txs| == 0 || p.idx < |p.txs|
  }

  function ReadyWalk(p: Pool): seq<ThTx> {
    if p.idx < |p.txs| then p.txs[p.idx..] else []
  }

  function AfterReadyWalk(m: Mempool): Mempool {
    if m.ready.idx < |m.ready.txs| then m.(ready := m.ready.(idx := |m.ready.txs| - 1)) else m
  }

  function TxsOf(entries: seq<ThTx>): seq<Tx> {
    seq(|entries|, i requires 0 <= i < |entries| => entries[i].tx)
  }
}
