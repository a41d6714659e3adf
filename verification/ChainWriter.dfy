/** The chain writer: appends serialized blocks and undo blocks to the log and reads them back. */
module ChainWriter {
  import opened Types
  import opened Primitives
  import opened Codec
  import opened BlockLog

  datatype BlockRecord = BlockRecord(
    header: BlockHeader, numTransactions: uint32, height: uint32, blockInfo: FileInfo, undoInfo: FileInfo)

  // ----- Undo blocks -----

  function IndicesOf(inputs: seq<TransactionInput>): (r: seq<uint32>)
    ensures |r| == |inputs|
  {
    seq(|inputs|, i requires 0 <= i < |inputs| => inputs[i].utxoIndex)
  }

  function AmountsOf(outputs: seq<TransactionOutput>): (r: seq<uint32>)
    ensures |r| == |outputs|
  {
    seq(|outputs|, i requires 0 <= i < |outputs| => outputs[i].amount)
  }

  function KeysOf(outputs: seq<TransactionOutput>): (r: seq<uint32>)
    ensures |r| == |outputs|
  {
    seq(|outputs|, i requires 0 <= i < |outputs| => outputs[i].publicKey)
  }

  /** The inputs and outputs of a run of transactions, one after the other. */
  function AllInputs(ts: seq<Transaction>): seq<TransactionInput> {
    if ts == [] then [] else AllInputs(ts[..|ts| - 1]) + ts[|ts| - 1].inputs
  }

  function AllOutputs(ts: seq<Transaction>): seq<TransactionOutput> {
    if ts == [] then [] else AllOutputs(ts[..|ts| - 1]) + ts[|ts| - 1].outputs
  }

  function UndoRecord(version: uint8, inputs: seq<TransactionInput>, outputs: seq<TransactionOutput>): UndoCoinRecord {
    UndoCoinRecord(version, IndicesOf(inputs), AmountsOf(outputs), KeysOf(outputs))
  }

  /** The vectors are not cleared between transactions, so record i covers transactions 0 to i. */
  function UndoOf(ts: seq<Transaction>, hashOf: Transaction -> uint32): UndoBlock {
    UndoBlock(seq(|ts|, i requires 0 <= i < |ts| => hashOf(ts[i])),
              seq(|ts|, i requires 0 <= i < |ts| =>
                UndoRecord(ts[i].version, AllInputs(ts[..i + 1]), AllOutputs(ts[..i + 1]))))
  }

  // ----- What an undo block lists -----

  function InputCount(ts: seq<Transaction>, m: nat): nat
    requires m <= |ts|
  {
    if m == 0 then 0 else InputCount(ts, m - 1) + |ts[m - 1].inputs|
  }

  function OutputCount(ts: seq<Transaction>, m: nat): nat
    requires m <= |ts|
  {
    if m == 0 then 0 else OutputCount(ts, m - 1) + |ts[m - 1].outputs|
  }

  /**
   * Entry i has the hash and the version of transaction i, and the indices, amounts and keys of the transactions up to
   * it, each behind those of the transactions before.
   */
  ghost predicate Lists(undo: UndoBlock, ts: seq<Transaction>, hashOf: Transaction -> uint32) {
    && |undo.transactionHashes| == |undo.undoCoinRecords| == |ts|
    && (forall i | 0 <= i < |ts| ::
          && undo.transactionHashes[i] == hashOf(ts[i]) && undo.undoCoinRecords[i].version == ts[i].version
          && |undo.undoCoinRecords[i].utxo| == InputCount(ts, i + 1))
    && (forall i, m, j | 0 <= m <= i < |ts| && 0 <= j < |ts[m].inputs| ::
          ListsInput(undo.undoCoinRecords[i], InputCount(ts, m) + j, ts[m].inputs[j]))
    && forall i, m, j | 0 <= m <= i < |ts| && 0 <= j < |ts[m].outputs| ::
        ListsOutput(undo.undoCoinRecords[i], OutputCount(ts, m) + j, ts[m].outputs[j])
  }

  predicate ListsInput(r: UndoCoinRecord, p: nat, input: TransactionInput) {
    p < |r.utxo| && r.utxo[p] == input.utxoIndex
  }

  /** As far as the record goes. */
  predicate ListsOutput(r: UndoCoinRecord, p: nat, output: TransactionOutput) {
    (p < |r.amounts| ==> r.amounts[p] == output.amount) && (p < |r.publicKeys| ==> r.publicKeys[p] == output.publicKey)
  }

  /** It goes all the way. */
  ghost predicate ListsAll(undo: UndoBlock, ts: seq<Transaction>) {
    && |undo.undoCoinRecords| == |ts|
    && forall i | 0 <= i < |ts| ::
        |undo.undoCoinRecords[i].amounts| == |undo.undoCoinRecords[i].publicKeys| == OutputCount(ts, i + 1)
  }

  lemma {:induction false} InputPlace(ts: seq<Transaction>, n: nat, m: nat, j: nat)
    requires n <= |ts|
    ensures |AllInputs(ts[..n])| == InputCount(ts, n)
    ensures m < n && j < |ts[m].inputs| ==>
              InputCount(ts, m) + j < InputCount(ts, n) && AllInputs(ts[..n])[InputCount(ts, m) + j] == ts[m].inputs[j]
  {
    if n > 0 {
      assert ts[..n][..n - 1] == ts[..n - 1];
      InputPlace(ts, n - 1, m, j);
    }
  }

  lemma {:induction false} OutputPlace(ts: seq<Transaction>, n: nat, m: nat, j: nat)
    requires n <= |ts|
    ensures |AllOutputs(ts[..n])| == OutputCount(ts, n)
    ensures m < n && j < |ts[m].outputs| ==>
              && OutputCount(ts, m) + j < OutputCount(ts, n)
              && AllOutputs(ts[..n])[OutputCount(ts, m) + j] == ts[m].outputs[j]
  {
    if n > 0 {
      assert ts[..n][..n - 1] == ts[..n - 1];
      OutputPlace(ts, n - 1, m, j);
    }
  }

  lemma UndoLists(ts: seq<Transaction>, hashOf: Transaction -> uint32)
    ensures Lists(UndoOf(ts, hashOf), ts, hashOf) && ListsAll(UndoOf(ts, hashOf), ts)
  {
    hide InputCount, OutputCount, AllInputs, AllOutputs;
    var undo := UndoOf(ts, hashOf);
    forall i | 0 <= i < |ts|
      ensures |undo.undoCoinRecords[i].utxo| == InputCount(ts, i + 1)
      ensures |undo.undoCoinRecords[i].amounts| == |undo.undoCoinRecords[i].publicKeys| == OutputCount(ts, i + 1)
    {
      InputPlace(ts, i + 1, 0, 0);
      OutputPlace(ts, i + 1, 0, 0);
    }
    forall i, m, j | 0 <= m <= i < |ts| && 0 <= j < |ts[m].inputs|
      ensures ListsInput(undo.undoCoinRecords[i], InputCount(ts, m) + j, ts[m].inputs[j])
    {
      InputPlace(ts, i + 1, m, j);
    }
    forall i, m, j | 0 <= m <= i < |ts| && 0 <= j < |ts[m].outputs|
      ensures ListsOutput(undo.undoCoinRecords[i], OutputCount(ts, m) + j, ts[m].outputs[j])
    {
      OutputPlace(ts, i + 1, m, j);
    }
  }

  /** So does what serializing keeps, with as many amounts and keys as indices. */
  lemma KeptLists(undo: UndoBlock, ts: seq<Transaction>, hashOf: Transaction -> uint32)
    requires Lists(undo, ts, hashOf) && InRange(undo)
    ensures Lists(Kept(undo), ts, hashOf)
    ensures forall i | 0 <= i < |ts| ::
              var r := Kept(undo).undoCoinRecords[i];
              |r.amounts| == |r.publicKeys| == |r.utxo|
  {
    hide InputCount, OutputCount;
    var kept := Kept(undo);
    forall i | 0 <= i < |ts|
      ensures var r, full := kept.undoCoinRecords[i], undo.undoCoinRecords[i];
              && r.utxo == full.utxo && r.version == full.version
              && r.amounts == full.amounts[..|r.utxo|] && r.publicKeys == full.publicKeys[..|r.utxo|]
    {
      assert RecordInRange(undo.undoCoinRecords[i]);
    }
    hide Kept;
  }

  method PushIndices(utxoIndex: seq<uint32>, inputs: seq<TransactionInput>) returns (r: seq<uint32>)
    ensures r == utxoIndex + IndicesOf(inputs)
  {
    r := utxoIndex;
    for j := 0 to |inputs|
      invariant r == utxoIndex + IndicesOf(inputs)[..j]
    {
      r := r + [inputs[j].utxoIndex];
    }
  }

  method PushOutputs(amounts: seq<uint32>, publicKeys: seq<uint32>, outputs: seq<TransactionOutput>)
    returns (a: seq<uint32>, p: seq<uint32>)
    ensures a == amounts + AmountsOf(outputs) && p == publicKeys + KeysOf(outputs)
  {
    a, p := amounts, publicKeys;
    for j := 0 to |outputs|
      invariant a == amounts + AmountsOf(outputs)[..j] && p == publicKeys + KeysOf(outputs)[..j]
    {
      a := a + [outputs[j].amount];
      p := p + [outputs[j].publicKey];
    }
  }

  lemma AllNext(ts: seq<Transaction>, i: nat)
    requires i < |ts|
    ensures AllInputs(ts[..i + 1]) == AllInputs(ts[..i]) + ts[i].inputs
    ensures AllOutputs(ts[..i + 1]) == AllOutputs(ts[..i]) + ts[i].outputs
    ensures IndicesOf(AllInputs(ts[..i + 1])) == IndicesOf(AllInputs(ts[..i])) + IndicesOf(ts[i].inputs)
    ensures AmountsOf(AllOutputs(ts[..i + 1])) == AmountsOf(AllOutputs(ts[..i])) + AmountsOf(ts[i].outputs)
    ensures KeysOf(AllOutputs(ts[..i + 1])) == KeysOf(AllOutputs(ts[..i])) + KeysOf(ts[i].outputs)
  {
    assert ts[..i + 1][..i] == ts[..i];
  }

  method MakeUndoBlock(block: Block, hashOf: Transaction -> uint32) returns (undo: UndoBlock)
    ensures undo == UndoOf(block.transactions, hashOf)
    ensures Lists(undo, block.transactions, hashOf) && ListsAll(undo, block.transactions)
  {
    UndoLists(block.transactions, hashOf);
    hide IndicesOf, AmountsOf, KeysOf, Lists, ListsAll;
    var ts := block.transactions;
    var hashes: seq<uint32>, records: seq<UndoCoinRecord> := [], [];
    var utxoIndex: seq<uint32>, amounts: seq<uint32>, publicKeys: seq<uint32> := [], [], [];
    for i := 0 to |ts|
      invariant hashes == UndoOf(ts, hashOf).transactionHashes[..i]
      invariant records == UndoOf(ts, hashOf).undoCoinRecords[..i]
      invariant utxoIndex == IndicesOf(AllInputs(ts[..i]))
      invariant amounts == AmountsOf(AllOutputs(ts[..i])) && publicKeys == KeysOf(AllOutputs(ts[..i]))
    {
      AllNext(ts, i);
      hashes := hashes + [hashOf(ts[i])];
      utxoIndex := PushIndices(utxoIndex, ts[i].inputs);
      amounts, publicKeys := PushOutputs(amounts, publicKeys, ts[i].outputs);
      records := records + [UndoCoinRecord(ts[i].version, utxoIndex, amounts, publicKeys)];
    }
    undo := UndoBlock(hashes, records);
  }

  /** The first n transactions have at least as many outputs as inputs. */
  predicate OutputsCover(ts: seq<Transaction>, n: nat)
    requires n <= |ts|
  {
    |AllInputs(ts[..n])| <= |AllOutputs(ts[..n])|
  }

  lemma InRangeIff(ts: seq<Transaction>, hashOf: Transaction -> uint32)
    ensures InRange(UndoOf(ts, hashOf)) <==> forall n | 0 < n <= |ts| :: OutputsCover(ts, n)
  {
    var records := UndoOf(ts, hashOf).undoCoinRecords;
    forall i | 0 <= i < |ts|
      ensures RecordInRange(records[i]) <==> OutputsCover(ts, i + 1)
    {
    }
    if InRange(UndoOf(ts, hashOf)) {
      forall n | 0 < n <= |ts|
        ensures OutputsCover(ts, n)
      {
        assert RecordInRange(records[n - 1]);
      }
    }
  }

  /** A record describes its own transaction exactly when every transaction before it is empty. */
  lemma OwnRecordIff(ts: seq<Transaction>, hashOf: Transaction -> uint32, i: nat)
    requires i < |ts|
    ensures UndoOf(ts, hashOf).undoCoinRecords[i] == UndoRecord(ts[i].version, ts[i].inputs, ts[i].outputs) <==>
            forall j | 0 <= j < i :: ts[j].inputs == [] && ts[j].outputs == []
  {
    AllNext(ts, i);
    EmptyPrefixIff(ts[..i]);
    if AllInputs(ts[..i]) != [] {
      assert |UndoOf(ts, hashOf).undoCoinRecords[i].utxo| > |ts[i].inputs|;
    }
    if AllOutputs(ts[..i]) != [] {
      assert |UndoOf(ts, hashOf).undoCoinRecords[i].amounts| > |ts[i].outputs|;
    }
  }

  lemma {:induction false} EmptyPrefixIff(ts: seq<Transaction>)
    ensures AllInputs(ts) == [] && AllOutputs(ts) == [] <==>
            forall j | 0 <= j < |ts| :: ts[j].inputs == [] && ts[j].outputs == []
  {
    if ts != [] {
      EmptyPrefixIff(ts[..|ts| - 1]);
    }
  }

  // ----- Storing a block -----

  function UndoText(codec: Codec, b: Block): seq<byte> {
    codec.encodeUndoBlock(UndoOf(b.transactions, TransactionHash(codec)))
  }

  /** The log after a block and its undo block were written, and the record that says where they are. */
  function Store(codec: Codec, log: Log, b: Block, height: uint32): (Log, BlockRecord) {
    var (written, blockInfo) := Write(log, Blocks, codec.encodeBlock(b));
    var (both, undoInfo) := Write(written, Undos, UndoText(codec, b));
    (both, BlockRecord(b.header, Low32(|b.transactions|), height, blockInfo, undoInfo))
  }

  /** Whether the undo block of a block can be serialized at all. */
  predicate Undoable(codec: Codec, b: Block) {
    InRange(UndoOf(b.transactions, TransactionHash(codec)))
  }

  predicate BlockFits(codec: Codec, log: Log, b: Block) {
    codec.Encodes(b) && Fits(log, Blocks, codec.encodeBlock(b))
  }

  predicate UndoFits(codec: Codec, log: Log, b: Block) {
    codec.EncodesUndo(UndoOf(b.transactions, TransactionHash(codec))) && Fits(log, Undos, UndoText(codec, b))
  }

  /** There is room for the block and, if it gets that far, for its undo block. */
  predicate StoreFits(codec: Codec, log: Log, b: Block) {
    BlockFits(codec, log, b) && (Undoable(codec, b) ==> UndoFits(codec, log, b))
  }

  /** What storing a block writes: the undo block only if it can be serialized. */
  function Requests(codec: Codec, b: Block): seq<Request> {
    [Request(Blocks, codec.encodeBlock(b))] + if Undoable(codec, b) then [Request(Undos, UndoText(codec, b))] else []
  }

  lemma UndoKept(codec: Codec, b: Block)
    requires codec.RoundTrips() && Undoable(codec, b)
    requires codec.EncodesUndo(UndoOf(b.transactions, TransactionHash(codec)))
    ensures var undo := codec.decodeUndoBlock(UndoText(codec, b));
            && undo == Kept(UndoOf(b.transactions, TransactionHash(codec)))
            && |undo.transactionHashes| == |b.transactions|
  {
  }

  lemma RunMore(requests: seq<Request>, more: Request)
    ensures Run(requests + [more]) == Write(Run(requests), more.kind, more.text).0
    ensures AllFit(requests + [more]) <==> AllFit(requests) && Fits(Run(requests), more.kind, more.text)
  {
    hide Write, Fits;
    assert (requests + [more])[..|requests|] == requests;
  }

  /** A log in which everything fitted, and then a block with its undo block, or alone. */
  lemma StoreFitsAll(codec: Codec, requests: seq<Request>, b: Block)
    requires AllFit(requests)
    ensures StoreFits(codec, Run(requests), b) ==> AllFit(requests + Requests(codec, b))
    ensures BlockFits(codec, Run(requests), b) ==> AllFit(requests + [Request(Blocks, codec.encodeBlock(b))])
  {
    hide Write, Fits, UndoOf, InRange, UndoText, Run, AllFit;
    var block, undo := Request(Blocks, codec.encodeBlock(b)), Request(Undos, UndoText(codec, b));
    RunMore(requests, block);
    RunMore(requests + [block], undo);
    FitsOther(Run(requests), Blocks, block.text, Undos, undo.text);
    if Undoable(codec, b) {
      assert requests + Requests(codec, b) == requests + [block] + [undo];
    } else {
      assert requests + Requests(codec, b) == requests + [block];
    }
  }

  /** Blocks within the limits of the log, in files that are within its budget, always fit. */
  lemma SmallBlockFits(codec: Codec, requests: seq<Request>, b: Block)
    requires codec.Encodes(b) && codec.EncodesUndo(UndoOf(b.transactions, TransactionHash(codec)))
    requires var all := requests + Requests(codec, b);
             && (forall i | 0 <= i < |all| :: |all[i].text| + 1 <= Limit(all[i].kind))
             && BytesOf(all, Blocks) <= BUDGET && BytesOf(all, Undos) <= BUDGET
    ensures StoreFits(codec, Run(requests), b)
  {
    hide Write, Fits, Limit, UndoOf, InRange, UndoText, BytesOf, Run, AllFit;
    var block, undo := Request(Blocks, codec.encodeBlock(b)), Request(Undos, UndoText(codec, b));
    SmallRunFits(requests + Requests(codec, b));
    RunMore(requests, block);
    if Undoable(codec, b) {
      RunMore(requests + [block], undo);
      assert requests + Requests(codec, b) == requests + [block] + [undo];
      FitsOther(Run(requests), Blocks, block.text, Undos, undo.text);
    } else {
      assert requests + Requests(codec, b) == requests + [block];
    }
  }

  method RecordReads(r: UndoCoinRecord) returns (defined: bool)
    ensures defined <==> RecordInRange(r)
  {
    for j := 0 to |r.utxo|
      invariant j <= |r.amounts| && j <= |r.publicKeys|
    {
      if At(r.amounts, j).None? || At(r.publicKeys, j).None? {
        return false;
      }
    }
    defined := true;
  }

  /** Copies an undo block out for the encoder. There is no text when that reads past the end of a vector. */
  method SerializeUndoBlock(undo: UndoBlock, codec: Codec) returns (text: Option<seq<byte>>)
    requires |undo.transactionHashes| == |undo.undoCoinRecords|
    ensures text == if InRange(undo) then Some(codec.encodeUndoBlock(undo)) else None
  {
    for i := 0 to |undo.transactionHashes|
      invariant forall k | 0 <= k < i :: RecordInRange(undo.undoCoinRecords[k])
    {
      var defined := RecordReads(undo.undoCoinRecords[i]);
      if !defined {
        return None;
      }
    }
    text := Some(codec.encodeUndoBlock(undo));
  }

  // ----- The writer -----

  class ChainWriter {
    var disk: Disk
    var blockFileNumber: uint16
    var blockOffset: uint16
    var undoFileNumber: uint16
    var undoOffset: uint16

    /** What was written so far. */
    ghost var written: seq<Request>

    /** The state is that of a log after everything that was written. */
    ghost predicate Logged()
      reads this
    {
      State() == Run(written)
    }

    function State(): Log
      reads this
    {
      Log(disk, Stream(blockFileNumber, blockOffset), Stream(undoFileNumber, undoOffset))
    }

    constructor ()
      ensures State() == EMPTY && written == [] && Logged()
    {
      written := [];
      disk := map[];
      blockFileNumber, blockOffset, undoFileNumber, undoOffset := 0, 0, 0, 0;
    }

    method AppendToFile(path: string, data: seq<byte>)
      modifies this`disk
      ensures disk == Appended(old(disk), path, data)
    {
      if path !in disk {
        disk := disk[path := []];
      }
      disk := disk[path := disk[path] + data];
    }

    method WriteBlock(text: seq<byte>) returns (info: FileInfo)
      modifies this
      ensures (State(), info) == Write(old(State()), Blocks, text)
      ensures written == old(written) + [Request(Blocks, text)] && (old(Logged()) ==> Logged())
      ensures BlockPlaced(old(State()), text, State(), info)
    {
      hide Run, Path, BlockPlaced;
      BlockGoes(State(), text);
      RunMore(written, Request(Blocks, text));
      written := written + [Request(Blocks, text)];
      var n := Low32(|text| + 1);
      if Low32(MAX_FILE_SIZE - blockOffset) <= n {
        blockOffset := 0;
        blockFileNumber := Low16(blockFileNumber + 1);
      }
      var path := Path(Blocks, blockFileNumber);
      AppendToFile(path, (text + [0])[..n]);
      var start, end := blockOffset, Low16(blockOffset + n);
      blockOffset := end;
      info := FileInfo(path, start, end);
    }

    method WriteUndoBlock(text: seq<byte>) returns (info: FileInfo)
      modifies this
      ensures (State(), info) == Write(old(State()), Undos, text)
      ensures written == old(written) + [Request(Undos, text)] && (old(Logged()) ==> Logged())
      ensures UndoPlaced(old(State()), text, State(), info)
    {
      hide Run, Path, UndoPlaced;
      UndoGoes(State(), text);
      RunMore(written, Request(Undos, text));
      written := written + [Request(Undos, text)];
      var n := Low32(|text| + 1);
      if Low32(MAX_FILE_SIZE - undoOffset) < n {
        undoOffset := 0;
        undoFileNumber := Low16(undoFileNumber + 1);
      }
      var path := Path(Undos, undoFileNumber);
      AppendToFile(path, (text + [0])[..n]);
      var start, end := undoOffset, Low16(undoOffset + n);
      undoOffset := end;
      info := FileInfo(path, start, end);
    }

    /** A location in a missing file reads as the empty text. */
    method ReadBlock(info: FileInfo) returns (text: seq<byte>)
      requires Readable(disk, info)
      ensures text == Read(disk, info)
    {
      if info.fileName in disk {
        var length := info.end - info.start;
        var buffer := disk[info.fileName][info.start..][..length];
        text := buffer[..length - 1];
      } else {
        text := [];
      }
    }

    /**
     * Writes a block and then its undo block. It is defined exactly when the undo block can be serialized; when it can
     * not, the block is in the log all the same.
     */
    method StoreBlock(block: Block, height: uint32, codec: Codec) returns (record: Option<BlockRecord>)
      modifies this
      ensures record.Some? <==> Undoable(codec, block)
      ensures record.Some? ==> (State(), record.value) == Store(codec, old(State()), block, height)
      ensures record.None? ==> State() == Write(old(State()), Blocks, codec.encodeBlock(block)).0
      ensures written == old(written) + Requests(codec, block) && (old(Logged()) ==> Logged())
    {
      hide Write, InRange, Run;
      var undo := MakeUndoBlock(block, TransactionHash(codec));
      assert |undo.transactionHashes| == |undo.undoCoinRecords|;
      hide UndoOf;
      var blockInfo := WriteBlock(codec.encodeBlock(block));
      var undoText := SerializeUndoBlock(undo, codec);
      if undoText.None? {
        return None;
      }
      var undoInfo := WriteUndoBlock(undoText.value);
      record := Some(BlockRecord(block.header, Low32(|block.transactions|), height, blockInfo, undoInfo));
    }
  }
}
