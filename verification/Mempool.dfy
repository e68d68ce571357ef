/** The app-side mempool: two slice-backed pools, each of which is its own iterator. */
module ThresholdPool {
  import opened Types
  import opened Pools

  /** A slice with its saved cursor. The slice is the first `len` cells of `buffer`. */
  class ThTxs {
    var idx: nat
    var buffer: array<ThTx>
    var len: nat

    ghost predicate Valid()
      reads this
    {
      len <= buffer.Length
    }

    ghost function Txs(): seq<ThTx>
      reads this, buffer
      requires Valid()
    {
      buffer[..len]
    }

    ghost function Value(): Pool
      reads this, buffer
      requires Valid()
    {
      Pool(idx, Txs())
    }

    constructor ()
      ensures Valid() && fresh(buffer) && Value() == Pool(0, [])
    {
      idx, len := 0, 0;
      buffer := new ThTx[0];
    }

    /** `append` of one entry: in place while there is room, else into a larger array. */
    method Append(e: ThTx)
      requires Valid()
      modifies this, buffer
      ensures Valid() && (buffer == old(buffer) || fresh(buffer))
      ensures Value() == Pool(old(idx), old(Txs()) + [e])
    {
      if len == buffer.Length {
        var larger := new ThTx[2 * len + 1](_ => e);
        forall i | 0 <= i < len {
          larger[i] := buffer[i];
        }
        buffer := larger;
      }
      buffer[len] := e;
      len := len + 1;
    }

    /** `removeAtIndex`: the tail is copied one cell down inside the shared backing array. */
    method RemoveAtIndex(index: nat)
      requires Valid() && index < len
      modifies this`len, buffer
      ensures Valid() && buffer == old(buffer)
      ensures Value() == Pool(idx, Delete(old(Txs()), index))
    {
      ghost var was := Txs();
      var i := index;
      while i + 1 < len
        invariant index <= i < len
        invariant Valid() && len == |was|
        invariant buffer[..i] == Delete(was, index)[..i]
        invariant buffer[i + 1..len] == was[i + 1..]
      {
        assert buffer[i + 1] == was[i + 1] == Delete(was, index)[i];
        buffer[i] := buffer[i + 1];
        i := i + 1;
      }
      len := len - 1;
    }

    /** Nil at the last entry or on an empty pool, else the pool itself, one further. */
    method Next() returns (itr: ThTxs?)
      requires Valid()
      modifies this`idx
      ensures itr == (if len == 0 || len == old(idx) + 1 then null else this)
      ensures idx == if itr == null then old(idx) else old(idx) + 1
    {
      if len == 0 {
        return null;
      }
      if len == idx + 1 {
        return null;
      }
      idx := idx + 1;
      return this;
    }

    /** The transaction under the cursor; a cursor out of range is the panic. */
    method Tx() returns (r: Outcome<Tx>)
      requires Valid()
      ensures r == if idx < len then Returned(Txs()[idx].tx) else Panicked
    {
      if idx >= len {
        return Panicked;
      }
      return Returned(buffer[idx].tx);
    }

    /** The scan shared by `Update` and `Remove`. */
    method Find(e: ThTx) returns (i: nat)
      requires Valid()
      ensures i == FirstMatch(Txs(), e)
    {
      i := 0;
      while i < len && !buffer[i].Equal(e)
        invariant i <= len
        invariant forall j | 0 <= j < i :: !Txs()[j].Equal(e)
      {
        i := i + 1;
      }
      FirstMatchIs(Txs(), e, i);
    }
  }

  lemma {:induction false} FirstMatchIs(entries: seq<ThTx>, e: ThTx, i: nat)
    requires i <= |entries|
    requires forall j | 0 <= j < i :: !entries[j].Equal(e)
    requires i < |entries| ==> entries[i].Equal(e)
    ensures i == FirstMatch(entries, e)
  {
  }

  class ThresholdMempool {
    const pendingPool: ThTxs
    const pool: ThTxs

    ghost function Repr(): set<object>
      reads pendingPool, pool
    {
      {pendingPool, pool, pendingPool.buffer, pool.buffer}
    }

    ghost predicate Valid()
      reads pendingPool, pool, pendingPool.buffer, pool.buffer
    {
      && pendingPool != pool && pendingPool.buffer != pool.buffer
      && pendingPool.Valid() && pool.Valid()
      && WellFormed(State())
    }

    ghost function State(): Mempool
      reads pendingPool, pool, pendingPool.buffer, pool.buffer
      requires pendingPool.Valid() && pool.Valid()
    {
      Mempool(pendingPool.Value(), pool.Value())
    }

    constructor ()
      ensures Valid() && fresh(Repr()) && State() == EMPTY
    {
      pendingPool := new ThTxs();
      pool := new ThTxs();
    }

    method Insert(tx: Tx) returns (err: Option<Error>)
      requires Valid()
      modifies pendingPool, pendingPool.buffer
      ensures Valid() && fresh(Repr() - old(Repr()))
      ensures State() == Inserted(old(State()), tx)
      ensures err == InsertError(tx)
    {
      hide WellFormed;
      InsertedWellFormed(State(), tx);
      match Sender(tx) {
        case Err(e) =>
          return Some(e);
        case Ok(sender) =>
          pendingPool.Append(ThTx(sender, 0, tx));
          return None;
      }
    }

    /** Nil on an empty pool, else the pool itself with whatever cursor it holds. */
    method Select() returns (itr: ThTxs?)
      requires Valid()
      ensures itr == if |State().ready.txs| == 0 then null else pool
    {
      if pool.len == 0 {
        return null;
      }
      return pool;
    }

    method SelectPending() returns (itr: ThTxs?)
      requires Valid()
      ensures itr == if |State().pending.txs| == 0 then null else pendingPool
    {
      if pendingPool.len == 0 {
        return null;
      }
      return pendingPool;
    }

    /** Moves a transaction from pending to ready. */
    method Update(tx: Tx) returns (err: Option<Error>)
      requires Valid()
      modifies Repr()
      ensures Valid() && fresh(Repr() - old(Repr()))
      ensures State() == Updated(old(State()), tx)
      ensures err == LookupError(old(State()).pending.txs, tx)
    {
      hide WellFormed;
      UpdatedWellFormed(State(), tx);
      match Sender(tx) {
        case Err(e) =>
          return Some(e);
        case Ok(sender) =>
          var e := ThTx(sender, 1, tx);
          var i := pendingPool.Find(e);
          if i < pendingPool.len {
            pendingPool.RemoveAtIndex(i);
            pool.Append(e);
            return None;
          }
          return Some(TxNotFound);
      }
    }

    method CountTx() returns (n: nat)
      requires Valid()
      ensures n == |State().pending.txs|
    {
      n := pendingPool.len;
    }

    /** Drops a finalized transaction from the ready pool. */
    method Remove(tx: Tx) returns (err: Option<Error>)
      requires Valid()
      modifies Repr()
      ensures Valid() && fresh(Repr() - old(Repr()))
      ensures State() == Removed(old(State()), tx)
      ensures err == LookupError(old(State()).ready.txs, tx)
    {
      hide WellFormed;
      RemovedWellFormed(State(), tx);
      match Sender(tx) {
        case Err(e) =>
          return Some(e);
        case Ok(sender) =>
          var i := pool.Find(ThTx(sender, 1, tx));
          if i < pool.len {
            pool.RemoveAtIndex(i);
            return None;
          }
          return Some(TxNotFound);
      }
    }
  }
}
