/**
 * The block index: a store of block records, and what it means for it to describe the blocks that were accepted, at
 * their heights, where the log keeps them.
 */
module BlockIndex {
  import opened Types
  import opened Primitives
  import opened Codec
  import opened BlockLog
  import opened ChainWriter
  import ForkChoice
  import Database
  import Decimal

  type Index = map<string, BlockRecord>
  type Accepted = map<uint32, Block>

  const NO_FILE := FileInfo("", 0, 0)

  /** The record that the empty string deserializes to. */
  const NO_RECORD := BlockRecord(BlockHeader(0, 0, 0, 0, 0, 0), 0, 0, NO_FILE, NO_FILE)

  function RecordOf(index: Index, h: uint32): BlockRecord {
    Database.LookupIn(index, Decimal.ToString(h), NO_RECORD)
  }

  /** The record has the header and height of the block, and its locations read back the block and its undo block. */
  ghost predicate Describes(codec: Codec, r: BlockRecord, b: Block, height: nat, disk: Disk) {
    && r.header == b.header && r.height == height && r.numTransactions == Low32(|b.transactions|)
    && codec.Encodes(b) && ReadsAs(disk, r.blockInfo, codec.encodeBlock(b))
    && (r.undoInfo != NO_FILE ==> UndoDescribed(codec, r, b, disk))
  }

  ghost predicate UndoDescribed(codec: Codec, r: BlockRecord, b: Block, disk: Disk) {
    && Undoable(codec, b) && codec.EncodesUndo(UndoOf(b.transactions, TransactionHash(codec)))
    && ReadsAs(disk, r.undoInfo, UndoText(codec, b))
  }

  /** The index describes exactly the accepted blocks; every other hash reads as the empty record. */
  ghost predicate Indexed(codec: Codec, index: Index, disk: Disk, blocks: Accepted, tree: ForkChoice.Tree) {
    && blocks.Keys == tree.Keys
    && (forall h | h in blocks ::
          BlockHash(codec, blocks[h]) == h && tree[h].parent == blocks[h].header.previousBlockHash)
    && forall h: uint32 ::
        if h in blocks then Describes(codec, RecordOf(index, h), blocks[h], tree[h].height, disk)
        else RecordOf(index, h) == NO_RECORD
  }

  /** Whether the index locates an undo block for a hash. */
  predicate HasUndo(index: Index, h: uint32) {
    RecordOf(index, h).undoInfo != NO_FILE
  }

  /** Whether every block of a path but the first has an undo block with a transaction in it. */
  predicate UndoReady(index: Index, blocks: Accepted, p: seq<uint32>) {
    forall i | 1 <= i < |p| :: HasUndo(index, p[i]) && p[i] in blocks && blocks[p[i]].transactions != []
  }

  lemma OtherRecord(index: Index, h: uint32, r: BlockRecord, k: uint32)
    ensures RecordOf(index[Decimal.ToString(h) := r], k) == if k == h then r else RecordOf(index, k)
  {
    if Decimal.ToString(h) == Decimal.ToString(k) {
      Decimal.ToStringInjective(h, k);
    }
  }

  lemma DescribesLater(codec: Codec, r: BlockRecord, b: Block, height: nat, disk: Disk, later: Disk)
    requires Describes(codec, r, b, height, disk) && Extends(disk, later)
    ensures Describes(codec, r, b, height, later)
  {
    ReadsLater(disk, later, r.blockInfo);
    if r.undoInfo != NO_FILE {
      ReadsLater(disk, later, r.undoInfo);
    }
  }

  /** The index keeps describing the blocks while the log grows. */
  lemma IndexedLater(codec: Codec, index: Index, disk: Disk, later: Disk, blocks: Accepted, tree: ForkChoice.Tree)
    requires Indexed(codec, index, disk, blocks, tree) && Extends(disk, later)
    ensures Indexed(codec, index, later, blocks, tree)
  {
    hide Describes, RecordOf, BlockHash;
    forall h | h in blocks
      ensures Describes(codec, RecordOf(index, h), blocks[h], tree[h].height, later)
    {
      DescribesLater(codec, RecordOf(index, h), blocks[h], tree[h].height, disk, later);
    }
  }

  /** Accepting one more block, or the same one again, while the log grows. */
  lemma AcceptBlock(codec: Codec, index: Index, disk: Disk, later: Disk, blocks: Accepted, tree: ForkChoice.Tree,
                    h: uint32, b: Block, r: BlockRecord, height: nat)
    requires Indexed(codec, index, disk, blocks, tree) && Extends(disk, later)
    requires h == BlockHash(codec, b) && Describes(codec, r, b, height, later)
    ensures Indexed(codec, index[Decimal.ToString(h) := r], later, blocks[h := b],
                    tree[h := ForkChoice.Node(b.header.previousBlockHash, height)])
  {
    hide Describes, RecordOf, BlockHash;
    var after := index[Decimal.ToString(h) := r];
    forall k: uint32
      ensures RecordOf(after, k) == if k == h then r else RecordOf(index, k)
      ensures k in blocks ==> Describes(codec, RecordOf(index, k), blocks[k], tree[k].height, later)
    {
      OtherRecord(index, h, r, k);
      if k in blocks {
        DescribesLater(codec, RecordOf(index, k), blocks[k], tree[k].height, disk, later);
      }
    }
  }

  /** Reading the record of an accepted block leaves the index as it is; reading any other adds an empty record. */
  lemma ReadKeepsIndexed(codec: Codec, index: Index, disk: Disk, blocks: Accepted, tree: ForkChoice.Tree, h: uint32)
    requires Indexed(codec, index, disk, blocks, tree)
    ensures Indexed(codec, index[Decimal.ToString(h) := RecordOf(index, h)], disk, blocks, tree)
    ensures forall k: uint32 :: RecordOf(index[Decimal.ToString(h) := RecordOf(index, h)], k) == RecordOf(index, k)
  {
    hide Describes, RecordOf, BlockHash;
    forall k: uint32
      ensures RecordOf(index[Decimal.ToString(h) := RecordOf(index, h)], k) == RecordOf(index, k)
    {
      OtherRecord(index, h, RecordOf(index, h), k);
    }
  }

  /** Of the undo blocks that the index locates, a new record can only change that of its own hash. */
  lemma UndoAfter(index: Index, h: uint32, r: BlockRecord, after: Index)
    requires after == index[Decimal.ToString(h) := r]
    ensures forall k: uint32 :: HasUndo(after, k) <==> if k == h then r.undoInfo != NO_FILE else HasUndo(index, k)
    ensures forall k: uint32 | k != h :: RecordOf(after, k) == RecordOf(index, k)
  {
    hide RecordOf;
    forall k: uint32
      ensures HasUndo(after, k) <==> if k == h then r.undoInfo != NO_FILE else HasUndo(index, k)
      ensures k != h ==> RecordOf(after, k) == RecordOf(index, k)
    {
      OtherRecord(index, h, r, k);
    }
  }

  lemma NoUndo(index: Index)
    requires index == map[]
    ensures forall k: uint32 :: !HasUndo(index, k)
  {
  }

  /** The record of a block that was stored with its undo block describes it. */
  lemma StoredDescribes(codec: Codec, log: Log, b: Block, height: uint32)
    requires Inv(log) && StoreFits(codec, log, b) && Undoable(codec, b)
    ensures var (after, record) := Store(codec, log, b, height);
            && Inv(after) && Extends(log.disk, after.disk) && Describes(codec, record, b, height, after.disk)
            && record.undoInfo != NO_FILE
  {
    FitsOther(log, Blocks, codec.encodeBlock(b), Undos, UndoText(codec, b));
    var end := Write(log, Blocks, codec.encodeBlock(b)).0;
    PathNonempty(Undos, Rolled(Undos, end.undos, SizeOf(UndoText(codec, b))).number);
    assert Store(codec, log, b, height).1.undoInfo.fileName != "";
    hide Fits, Write, Inv, UndoText;
    var (written, blockInfo) := Write(log, Blocks, codec.encodeBlock(b));
    WriteKeepsInv(log, Blocks, codec.encodeBlock(b));
    WriteReadsBack(log, Blocks, codec.encodeBlock(b));
    WriteKeepsInv(written, Undos, UndoText(codec, b));
    WriteReadsBack(written, Undos, UndoText(codec, b));
    ReadsLater(written.disk, Write(written, Undos, UndoText(codec, b)).0.disk, blockInfo);
  }

  /** So does the record of a side block, which has no undo block. */
  lemma SideDescribes(codec: Codec, log: Log, b: Block, n: uint32, height: uint32)
    requires Inv(log) && BlockFits(codec, log, b)
    ensures var (written, blockInfo) := Write(log, Blocks, codec.encodeBlock(b));
            && Inv(written) && Extends(log.disk, written.disk)
            && (n == Low32(|b.transactions|) ==>
                  Describes(codec, BlockRecord(b.header, n, height, blockInfo, NO_FILE), b, height, written.disk))
  {
    hide Fits, Write, Inv;
    WriteKeepsInv(log, Blocks, codec.encodeBlock(b));
    WriteReadsBack(log, Blocks, codec.encodeBlock(b));
  }

  /** A block that goes into the log alone, without a record. */
  lemma KeepStored(codec: Codec, index: Index, log: Log, blocks: Accepted, tree: ForkChoice.Tree, b: Block)
    requires Indexed(codec, index, log.disk, blocks, tree) && Inv(log) && BlockFits(codec, log, b)
    ensures var after := Write(log, Blocks, codec.encodeBlock(b)).0;
            Inv(after) && Indexed(codec, index, after.disk, blocks, tree)
  {
    hide Indexed, Inv, BlockFits, Write, Describes, Extends;
    SideDescribes(codec, log, b, 0, 0);
    IndexedLater(codec, index, log.disk, Write(log, Blocks, codec.encodeBlock(b)).0.disk, blocks, tree);
  }

  /** Storing a block with its undo block and indexing the record. */
  lemma AcceptStored(codec: Codec, index: Index, log: Log, blocks: Accepted, tree: ForkChoice.Tree, b: Block,
                     height: uint32)
    requires Indexed(codec, index, log.disk, blocks, tree) && Inv(log) && StoreFits(codec, log, b) && Undoable(codec, b)
    ensures var h := BlockHash(codec, b);
            var (after, record) := Store(codec, log, b, height);
            && Inv(after) && record.undoInfo != NO_FILE
            && Indexed(codec, index[Decimal.ToString(h) := record], after.disk, blocks[h := b],
                       tree[h := ForkChoice.Node(b.header.previousBlockHash, height)])
  {
    hide Indexed, Inv, StoreFits, Store, BlockHash, Describes, Extends, Decimal.ToString;
    var (after, record) := Store(codec, log, b, height);
    StoredDescribes(codec, log, b, height);
    AcceptBlock(codec, index, log.disk, after.disk, blocks, tree, BlockHash(codec, b), b, record, height);
  }

  /** Storing a side block alone and indexing the record. */
  lemma AcceptSide(codec: Codec, index: Index, log: Log, blocks: Accepted, tree: ForkChoice.Tree, b: Block, n: uint32,
                   height: uint32)
    requires Indexed(codec, index, log.disk, blocks, tree) && Inv(log) && BlockFits(codec, log, b)
    requires n == Low32(|b.transactions|)
    ensures var h := BlockHash(codec, b);
            var (after, info) := Write(log, Blocks, codec.encodeBlock(b));
            && Inv(after)
            && Indexed(codec, index[Decimal.ToString(h) := BlockRecord(b.header, n, height, info, NO_FILE)], after.disk,
                       blocks[h := b], tree[h := ForkChoice.Node(b.header.previousBlockHash, height)])
  {
    hide Indexed, Inv, BlockFits, Write, BlockHash, Describes, Extends, Decimal.ToString;
    var (after, info) := Write(log, Blocks, codec.encodeBlock(b));
    SideDescribes(codec, log, b, n, height);
    AcceptBlock(codec, index, log.disk, after.disk, blocks, tree, BlockHash(codec, b), b,
                BlockRecord(b.header, n, height, info, NO_FILE), height);
  }
}
