/** Values that pass through the mempool and the ABCI handlers. */
module Types {

  datatype Option<+T> = None | Some(value: T) {
    function GetOr(default: T): T {
      match this
      case Some(v) => v
      case None => default
    }
  }

  /** The errors the mempool returns: the signature list cannot be read, it is empty,
      or no entry matches. */
  datatype Error = SignaturesUnreadable | Unsigned | TxNotFound

  datatype Result<+T> = Ok(value: T) | Err(error: Error)

  /** How a handler ends. `Panicked` is the out-of-range panic of `thTxs.Tx`. */
  datatype Outcome<+T> = Returned(value: T) | Panicked

  type byte = b: int | 0 <= b < 256
  type Bytes = seq<byte>
  type int64 = n: int | -0x8000_0000_0000_0000 <= n < 0x8000_0000_0000_0000

  datatype Coin = Coin(denom: string, amount: nat)

  datatype Bid = Bid(name: string, resolveAddress: string, owner: string, amount: seq<Coin>)

  /** `text` is what the message's `String()` prints. Nothing is assumed about how it
      depends on the message, so `Equal` may confuse different messages. */
  datatype Msg = BidMsg(bid: Bid, text: string) | OtherMsg(text: string)

  datatype Signatures = Unreadable | Signers(addresses: seq<string>)

  /** `id` stands for everything `thTx.Equal` does not look at: memo, fee, sequence,
      signature bytes. */
  datatype Tx = Tx(id: nat, signatures: Signatures, msgs: seq<Msg>)

  /** The account address of the first signer, as `Insert`, `Update` and `Remove` compute it. */
  function Sender(tx: Tx): Result<string> {
    match tx.signatures
    case Unreadable => Err(SignaturesUnreadable)
    case Signers(addresses) => if |addresses| == 0 then Err(Unsigned) else Ok(addresses[0])
  }

  /** What a vote extension and a special transaction both hold. */
  datatype Record = Record(height: int64, bids: seq<Bytes>)
  type AppVoteExtension = Record
  type SpecialTransaction = Record

  /** The encodings, which belong to other libraries. Encoding a transaction or a bid may fail;
      decoding a bid never does, because the caller ignores its error. `readRecord` is any
      decoder that reads an extension or special transaction as a whole or not at all; the
      printed form and a reader for it are in Json.dfy. */
  datatype Codec = Codec(
    printRecord: Record -> Bytes,
    readRecord: Bytes -> Option<Record>,
    encodeTx: Tx -> Option<Bytes>,
    decodeTx: Bytes -> Option<Tx>,
    marshalBid: Bid -> Option<Bytes>,
    unmarshalBid: Bytes -> Bid,
    bidJson: Bid -> Option<Bytes>)
  {
    /** What was printed reads back; the empty extension of an absent vote does not read. */
    ghost predicate ReadsRecords() {
      && (forall r: Record {:trigger printRecord(r)} :: readRecord(printRecord(r)) == Some(r))
      && readRecord([]) == None
    }

    /** Decoding undoes encoding, and two bids never have the same JSON. */
    ghost predicate Lawful() {
      && ReadsRecords()
      && (forall tx: Tx {:trigger encodeTx(tx)} ::
            encodeTx(tx).Some? ==> decodeTx(encodeTx(tx).value) == Some(tx))
      && (forall bid: Bid {:trigger marshalBid(bid)} ::
            marshalBid(bid).Some? ==> unmarshalBid(marshalBid(bid).value) == bid)
      && (forall a: Bid, b: Bid {:trigger bidJson(a), bidJson(b)} ::
            bidJson(a).Some? && bidJson(a) == bidJson(b) ==> a == b)
    }
  }
}
