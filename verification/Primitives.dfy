/** Transactions and blocks as the ledger stores them. */
module Primitives {
  import opened Types

  datatype TransactionInput = TransactionInput(referenceTransactionHash: uint32, utxoIndex: uint8, signature: uint32)

  datatype TransactionOutput = TransactionOutput(amount: uint32, publicKey: uint32)

  datatype Transaction = Transaction(
    inputs: seq<TransactionInput>, outputs: seq<TransactionOutput>, version: uint8, lockTime: uint32)

  datatype BlockHeader = BlockHeader(
    version: uint8, previousBlockHash: uint32, merkleRoot: uint32, difficultyTarget: uint32, nonce: uint32,
    timestamp: uint32)

  datatype Block = Block(header: BlockHeader, transactions: seq<Transaction>)
  {
    /** The copies handed to the coin database: version and lock time fall back to zero. */
    function GetTransactions(): (r: seq<Transaction>)
      ensures |r| == |transactions|
      ensures forall i | 0 <= i < |r| ::
                && r[i].inputs == transactions[i].inputs && r[i].outputs == transactions[i].outputs
                && r[i].version == 0 && r[i].lockTime == 0
    {
      seq(|transactions|, i requires 0 <= i < |transactions| =>
        Transaction(transactions[i].inputs, transactions[i].outputs, 0, 0))
    }
  }

  /** The copies of a block do not depend on the versions and lock times of its transactions. */
  lemma CopiesForget(b: Block, c: Block)
    requires |b.transactions| == |c.transactions|
    requires forall k | 0 <= k < |b.transactions| ::
               && b.transactions[k].inputs == c.transactions[k].inputs
               && b.transactions[k].outputs == c.transactions[k].outputs
    ensures b.GetTransactions() == c.GetTransactions()
  {
    forall k | 0 <= k < |b.transactions|
      ensures b.GetTransactions()[k] == c.GetTransactions()[k]
    {
      var t := b.transactions[k];
      assert b.GetTransactions()[k] == Transaction(t.inputs, t.outputs, 0, 0);
    }
  }
}
