/** The serialized forms of blocks, undo blocks and transactions, and their hash, as parameters of the ledger. */
module Codec {
  import opened Types
  import opened Primitives
  import CryptCrypto

  datatype UndoCoinRecord = UndoCoinRecord(
    version: uint8, utxo: seq<uint32>, amounts: seq<uint32>, publicKeys: seq<uint32>)

  datatype UndoBlock = UndoBlock(transactionHashes: seq<uint32>, undoCoinRecords: seq<UndoCoinRecord>)

  predicate RecordInRange(r: UndoCoinRecord) {
    |r.utxo| <= |r.amounts| && |r.utxo| <= |r.publicKeys|
  }

  /** Serializing a record reads as many amounts and keys as it has indices; this is when they are all there. */
  predicate InRange(undo: UndoBlock) {
    forall i | 0 <= i < |undo.undoCoinRecords| :: RecordInRange(undo.undoCoinRecords[i])
  }

  /** What the serialized form keeps of an undo block: amounts and keys beyond the number of indices are dropped. */
  function Kept(undo: UndoBlock): UndoBlock
    requires InRange(undo)
  {
    undo.(undoCoinRecords := seq(|undo.undoCoinRecords|, i requires 0 <= i < |undo.undoCoinRecords| =>
      var r := undo.undoCoinRecords[i];
      r.(amounts := r.amounts[..|r.utxo|], publicKeys := r.publicKeys[..|r.utxo|])))
  }

  datatype Codec = Codec(
    encodeBlock: Block -> seq<byte>,
    decodeBlock: seq<byte> -> Option<Block>,
    encodeUndoBlock: UndoBlock -> seq<byte>,
    decodeUndoBlock: seq<byte> -> UndoBlock,
    encodeTransaction: Transaction -> seq<byte>,
    hash: seq<byte> -> uint32)
  {
    /** Whether the encoder takes the block; for one that is too large it gives the empty text. */
    predicate Encodes(b: Block) {
      encodeBlock(b) != []
    }

    predicate EncodesUndo(undo: UndoBlock) {
      undo.transactionHashes == [] || encodeUndoBlock(undo) != []
    }

    /**
     * All that is assumed of the encoding: what the encoder takes survives, undo blocks as far as they are kept; the
     * empty text is no block, and an undo block without transactions.
     */
    ghost predicate RoundTrips() {
      && decodeBlock([]) == None && decodeUndoBlock([]) == UndoBlock([], [])
      && (forall b: Block | Encodes(b) :: decodeBlock(encodeBlock(b)) == Some(b))
      && forall u: UndoBlock | InRange(u) && |u.transactionHashes| == |u.undoCoinRecords| && EncodesUndo(u) ::
          decodeUndoBlock(encodeUndoBlock(u)) == Kept(u)
    }

    /** The hash is the byte-sum digest of SHA-256; it is named here so that proofs need not look inside. */
    ghost predicate HashesByDigest() {
      forall m: seq<byte> {:trigger CryptCrypto.Digest(m)} :: hash(m) == CryptCrypto.Digest(m)
    }
  }

  /** The hash under which a block is known. */
  function BlockHash(codec: Codec, b: Block): uint32 {
    codec.hash(codec.encodeBlock(b))
  }

  function TransactionHash(codec: Codec): Transaction -> uint32 {
    (t: Transaction) => codec.hash(codec.encodeTransaction(t))
  }
}
