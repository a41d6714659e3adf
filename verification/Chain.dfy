/**
 * The chain: takes blocks in, extends the tip, records side blocks, and moves the tip to a side branch that has become
 * strictly longer. It keeps blocks in the log, their records in the index, and coins in the coin database.
 */
module Chain {
  import opened Types
  import opened Primitives
  import opened Codec
  import opened BlockLog
  import opened ChainWriter
  import opened BlockIndex
  import CoinDatabase
  import L = Levels
  import R = Refinement
  import opened CoinLocator
  import CryptCrypto
  import Database
  import Decimal
  import F = ForkChoice
  import P = Placement
  import Ledger

  // ----- The genesis block -----

  const GENESIS := Block(
    BlockHeader(1, 0, 0, 0, 0, 0),
    [Transaction([],
                 [TransactionOutput(100, 12345), TransactionOutput(200, 67891), TransactionOutput(300, 23456)],
                 0, 0)])

  lemma GenesisInRange(hashOf: Transaction -> uint32)
    ensures InRange(UndoOf(GENESIS.transactions, hashOf))
  {
    assert GENESIS.transactions[..0] == [] && GENESIS.transactions[..1] == GENESIS.transactions;
    assert OutputsCover(GENESIS.transactions, 1);
    InRangeIff(GENESIS.transactions, hashOf);
  }

  lemma GenesisOperations(hashOf: Transaction -> uint32)
    ensures var ts := GENESIS.GetTransactions();
            var h := hashOf(ts[0]);
            Ledger.BlockOperations(ts, hashOf) ==
            [Ledger.Create(Locator(h, 0), TransactionOutput(100, 12345)),
             Ledger.Create(Locator(h, 1), TransactionOutput(200, 67891)),
             Ledger.Create(Locator(h, 2), TransactionOutput(300, 23456))]
  {
    var ts := GENESIS.GetTransactions();
    assert Ledger.BlockOperations(ts[..0], hashOf) == [];
    assert Ledger.Spends([]) == [];
    assert Ledger.BlockOperations(ts, hashOf) == Ledger.TransactionOperations(ts[0], hashOf);
  }

  /** The genesis block is accepted by the empty map. */
  lemma GenesisAccepted(hashOf: Transaction -> uint32)
    ensures Ledger.AcceptedRun([GENESIS.GetTransactions()], hashOf)
    ensures Ledger.AllEnabled(map[], Ledger.BlockOperations(GENESIS.GetTransactions(), hashOf))
    ensures Ledger.After([GENESIS.GetTransactions()], hashOf) ==
            Ledger.ApplyAll(map[], Ledger.BlockOperations(GENESIS.GetTransactions(), hashOf))
  {
    var ts := GENESIS.GetTransactions();
    var operations := Ledger.BlockOperations(ts, hashOf);
    GenesisOperations(hashOf);
    hide Ledger.BlockOperations;
    assert Ledger.Accepted(map[], operations);
    Ledger.DistinctIsEnabled(map[], operations);
    assert [ts][..0] == [] && Ledger.RunOperations([ts], hashOf) == operations;
  }

  lemma GenesisValues(u: Ledger.Utxos, hashOf: Transaction -> uint32)
    ensures var operations := Ledger.BlockOperations(GENESIS.GetTransactions(), hashOf);
            Ledger.CreatedValue(operations) == 600 && Ledger.SpentValue(u, operations) == 0
  {
    GenesisOperations(hashOf);
    hide Ledger.BlockOperations, GENESIS;
    ThreeCreated(u, Ledger.BlockOperations(GENESIS.GetTransactions(), hashOf));
  }

  lemma ThreeCreated(u: Ledger.Utxos, operations: seq<Ledger.Operation>)
    requires |operations| == 3 && operations[0].Create? && operations[1].Create? && operations[2].Create?
    ensures Ledger.CreatedValue(operations) ==
            operations[0].output.amount + operations[1].output.amount + operations[2].output.amount
    ensures Ledger.SpentValue(u, operations) == 0
  {
    var one, two := operations[..1], operations[..2];
    assert operations[..|operations| - 1] == two && two[..|two| - 1] == one && one[..|one| - 1] == [];
    assert one[0] == operations[0] && two[1] == operations[1];
    assert Ledger.CreatedValue(one) == operations[0].output.amount;
    assert Ledger.SpentValue(u, []) == 0 && Ledger.SpentValue(u, one) == 0;
    assert Ledger.CreatedValue(two) == operations[0].output.amount + operations[1].output.amount;
    assert Ledger.SpentValue(u, two) == 0;
  }

  /** It puts 600 into circulation. */
  lemma GenesisTotal(hashOf: Transaction -> uint32)
    ensures Ledger.Total(Ledger.After([GENESIS.GetTransactions()], hashOf)) == 600
  {
    var operations := Ledger.BlockOperations(GENESIS.GetTransactions(), hashOf);
    GenesisAccepted(hashOf);
    GenesisOperations(hashOf);
    assert Ledger.Accepted(map[], operations);
    hide *;
    GenesisValues(map[], hashOf);
    Ledger.TotalChanges(map[], operations);
    NoTotal();
  }

  lemma NoTotal()
    ensures Ledger.Total(map[]) == 0
  {
  }

  /** Log and index after storing the genesis block in empty ones. */
  lemma GenesisIndexed(codec: Codec)
    requires StoreFits(codec, EMPTY, GENESIS)
    ensures var h := BlockHash(codec, GENESIS);
            var (after, record) := Store(codec, EMPTY, GENESIS, 1);
            && Inv(after) && record.undoInfo != NO_FILE
            && Indexed(codec, map[Decimal.ToString(h) := record], after.disk, map[h := GENESIS], F.Initial(h, 0).tree)
            && F.Inv(F.Initial(h, 0), h)
            && InRange(UndoOf(GENESIS.transactions, TransactionHash(codec)))
  {
    var h := BlockHash(codec, GENESIS);
    GenesisInRange(TransactionHash(codec));
    F.InitialInv(h, 0);
    assert Inv(EMPTY) && Indexed(codec, map[], map[], map[], map[]);
    assert GENESIS.header.previousBlockHash == 0 && map[][h := F.Node(0, 1)] == F.Initial(h, 0).tree;
    assert Undoable(codec, GENESIS);
    hide StoreFits, Store, Inv, Describes, BlockHash, Indexed, F.Inv, Decimal.ToString, GENESIS, EMPTY, Undoable;
    StoredDescribes(codec, EMPTY, GENESIS, 1);
    var (after, record) := Store(codec, EMPTY, GENESIS, 1);
    assert Extends(map[], after.disk);
    AcceptBlock(codec, map[], map[], after.disk, map[], map[], h, GENESIS, record, 1);
  }

  /** The levels after storing the genesis block in none. */
  lemma GenesisLevels(hashOf: Transaction -> uint32)
    ensures var levels := L.Run(L.NOTHING, Ledger.BlockOperations(GENESIS.GetTransactions(), hashOf));
            R.Clean(levels) && levels.Held() == Ledger.After([GENESIS.GetTransactions()], hashOf)
  {
    GenesisAccepted(hashOf);
    assert R.Clean(L.NOTHING) && L.NOTHING.Held() == map[];
    hide *;
    R.EnabledRunHolds(L.NOTHING, Ledger.BlockOperations(GENESIS.GetTransactions(), hashOf));
  }

  method GenesisCoins(hashOf: Transaction -> uint32) returns (coins: CoinDatabase.CoinDatabase)
    ensures fresh(coins) && fresh(coins.database) && coins.hashOf == hashOf
    ensures coins.Valid()
    ensures coins.levels == L.Run(L.NOTHING, Ledger.BlockOperations(GENESIS.GetTransactions(), hashOf))
  {
    hide L.Run, GENESIS;
    coins := new CoinDatabase.CoinDatabase(hashOf);
    var _ := coins.StoreBlock(GENESIS.GetTransactions());
  }

  lemma FirstFits(codec: Codec)
    requires StoreFits(codec, EMPTY, GENESIS)
    ensures AllFit([] + Requests(codec, GENESIS)) && [] + Requests(codec, GENESIS) == Requests(codec, GENESIS)
  {
    hide StoreFits, Requests, GENESIS;
    assert Run([]) == EMPTY && AllFit([]);
    StoreFitsAll(codec, [], GENESIS);
  }

  method HashBlock(codec: Codec, b: Block) returns (h: uint32)
    requires codec.HashesByDigest()
    ensures h == BlockHash(codec, b) == CryptCrypto.Digest(codec.encodeBlock(b))
  {
    h := CryptCrypto.Hash(codec.encodeBlock(b));
  }

  // ----- What the queries answer -----

  /** The heights start to end of a path, clamped to the heights it has. */
  function Slice<T>(p: seq<T>, start: nat, end: nat): seq<T> {
    var s := if start == 0 then 1 else start;
    var e := if end > |p| then |p| else end;
    if end < start || e < s then [] else p[s - 1..e]
  }

  lemma OneMore<T>(p: seq<T>, i: nat, e: nat)
    requires i < e <= |p|
    ensures p[i..e] == [p[i]] + p[i + 1..e]
  {
  }

  lemma WholeSlice<T>(p: seq<T>)
    ensures Slice(p, 1, |p|) == p
  {
  }

  lemma SliceInverted<T>(p: seq<T>, start: nat, end: nat)
    ensures end < start ==> Slice(p, start, end) == []
  {
  }

  function Max(x: int, y: int): int {
    if x < y then y else x
  }

  function Min(x: int, y: int): int {
    if x < y then x else y
  }

  /** There are as many as heights from start to end among those of the path, which begin with 1. */
  lemma SliceLength<T>(p: seq<T>, start: nat, end: nat)
    ensures |Slice(p, start, end)| == Max(0, Min(end, |p|) - Max(start, 1) + 1)
  {
  }

  lemma SliceAt<T>(p: seq<T>, start: nat, end: nat, i: nat)
    requires i < |Slice(p, start, end)|
    ensures var s := if start == 0 then 1 else start;
            && s - 1 + i < |p| && Slice(p, start, end)[i] == p[s - 1 + i]
            && (i > 0 ==> Slice(p, start, end)[i - 1] == p[s - 2 + i])
  {
  }

  /** A walk down from the end of a path that stops at height i, below start, has met exactly the slice. */
  lemma SliceWalked<T>(p: seq<T>, start: nat, end: nat, s: nat, e: nat, i: nat)
    requires start <= end && s == (if start == 0 then 1 else start) && e == (if end > |p| then |p| else end)
    requires i <= |p| && (i == |p| || i >= s - 1) && i < s
    ensures p[if i < e then i else e..e] == Slice(p, start, end)
  {
  }

  /** The accepted block of a hash, or none. */
  function BlockOf(blocks: Accepted, h: uint32): Option<Block> {
    if h in blocks then Some(blocks[h]) else None
  }

  function BlocksOf(blocks: Accepted, hashes: seq<uint32>): (r: seq<Option<Block>>)
    ensures |r| == |hashes|
    ensures forall i | 0 <= i < |r| :: r[i] == if hashes[i] in blocks then Some(blocks[hashes[i]]) else None
  {
    seq(|hashes|, i requires 0 <= i < |hashes| => BlockOf(blocks, hashes[i]))
  }

  lemma BlocksOfNext(blocks: Accepted, p: seq<uint32>, i: nat, e: nat)
    requires i < e <= |p|
    ensures BlocksOf(blocks, p[i..e]) == [BlockOf(blocks, p[i])] + BlocksOf(blocks, p[i + 1..e])
  {
  }

  function TransactionsOf(blocks: Accepted, h: uint32): seq<Transaction> {
    if h in blocks then blocks[h].GetTransactions() else []
  }

  function TransactionsAlong(blocks: Accepted, p: seq<uint32>): (r: seq<seq<Transaction>>)
    ensures |r| == |p|
  {
    seq(|p|, i requires 0 <= i < |p| => TransactionsOf(blocks, p[i]))
  }

  lemma TransactionsAlongNext(blocks: Accepted, p: seq<uint32>, h: uint32)
    requires h in blocks
    ensures TransactionsAlong(blocks, p + [h]) == TransactionsAlong(blocks, p) + [blocks[h].GetTransactions()]
  {
  }

  class Chain {
    const codec: Codec
    const hashOf: Transaction -> uint32
    var activeChainLength: uint32
    var activeChainLastBlock: Block
    const records: Database.Database<BlockRecord>
    const writer: ChainWriter
    const coins: CoinDatabase.CoinDatabase

    /** The accepted blocks by hash, and the fork-choice state that the fields stand for. */
    ghost var blocks: Accepted
    ghost var fork: F.State

    /** The blocks that were accepted, one after the other, as the steps they are for the fork choice. */
    ghost var events: seq<F.Event>

    /** Whether the tip has only ever been extended, by blocks that create only new coins. */
    ghost var exact: bool

    /** And whether none of them spent a coin twice. */
    ghost var accepted: bool

    ghost function Genesis(): uint32 {
      BlockHash(codec, GENESIS)
    }

    /** The parts that this chain does not share with anything else. */
    ghost predicate Separate() {
      records as object != coins.database
    }

    /** Index, log and tree describe the accepted blocks; the tip is one of them. */
    ghost predicate Linked()
      reads this`activeChainLength, this`activeChainLastBlock, this`blocks, this`fork, records, writer
    {
      && codec.RoundTrips() && codec.HashesByDigest() && hashOf == TransactionHash(codec)
      && records.empty == NO_RECORD
      && Inv(writer.State()) && writer.Logged() && AllFit(writer.written)
      && Indexed(codec, records.store, writer.disk, blocks, fork.tree)
      && F.Rooted(fork.tree, Genesis())
      && fork.tip in fork.tree && fork.tree[fork.tip].height == fork.length == activeChainLength
      && blocks[fork.tip] == activeChainLastBlock
      && Genesis() in blocks && blocks[Genesis()] == GENESIS
    }

    ghost predicate Valid()
      reads this`activeChainLength, this`activeChainLastBlock, this`blocks, this`fork
      reads records, writer, coins, coins.database
    {
      && Linked() && Separate()
      && F.Inv(fork, Genesis())
      && coins.Valid() && coins.hashOf == hashOf
    }

    /** The hashes from the genesis block to h. */
    ghost function PathTo(h: uint32): seq<uint32>
      reads this`fork
    {
      if F.Rooted(fork.tree, Genesis()) && h in fork.tree then F.Path(fork.tree, Genesis(), h) else []
    }

    ghost function ActivePath(): seq<uint32>
      reads this`fork
    {
      PathTo(fork.tip)
    }

    /** The transactions of the active chain, block by block. */
    ghost function ActiveTransactions(): seq<seq<Transaction>>
      reads this`fork, this`blocks
    {
      TransactionsAlong(blocks, ActivePath())
    }

    /** The fork-choice state is what the accepted blocks lead to. */
    ghost predicate History()
      reads this`fork, this`events
    {
      var initial := F.Initial(Genesis(), 0);
      fork == F.Run(initial, events) && F.AllAdmissible(initial, Genesis(), events)
    }

    /**
     * As long as the chain is exact, the coins are those of the active chain, replayed from nothing. As long as no coin
     * was spent twice besides, every spend of the replay finds its coin.
     */
    ghost predicate Tracked()
      reads this, coins
    {
      && History()
      && (exact ==> R.Clean(coins.levels) && coins.Utxos() == Ledger.After(ActiveTransactions(), hashOf))
      && (accepted ==> exact && Ledger.AcceptedRun(ActiveTransactions(), hashOf))
    }

    /** Each hash on a path is that of an accepted block, whose header names the one before it. */
    lemma PathStep(h: uint32, i: nat)
      requires Linked() && i < |PathTo(h)|
      ensures var p := PathTo(h);
              && p[i] in blocks && p[i] in fork.tree
              && BlockHash(codec, blocks[p[i]]) == p[i] && fork.tree[p[i]].height == i + 1
              && (i > 0 ==> blocks[p[i]].header.previousBlockHash == p[i - 1])
    {
      hide BlockHash;
      F.PathAt(fork.tree, Genesis(), h, i);
    }

    lemma ActivePathEnd()
      requires Linked()
      ensures var p := ActivePath(); |p| == activeChainLength > 0 && p[|p| - 1] == fork.tip
    {
      hide Indexed, Inv;
    }

    lemma PathEnd(h: uint32)
      requires Linked() && h in fork.tree
      ensures |PathTo(h)| == fork.tree[h].height > 0 && PathTo(h)[|PathTo(h)| - 1] == h && h in blocks
    {
    }

    /** The undo block that the index locates for a hash. */
    ghost function UndoAt(h: uint32): UndoBlock
      reads this, records, writer
    {
      var info := RecordOf(records.store, h).undoInfo;
      codec.decodeUndoBlock(if Readable(writer.disk, info) then Read(writer.disk, info) else [])
    }

    /** Whether every active block above the genesis block has an undo block with a transaction in it. */
    ghost predicate ActiveUndoReady()
      reads this`fork, this`blocks, records
    {
      UndoReady(records.store, blocks, ActivePath())
    }

    /** The undo block of a block is the one made when it was stored; a block that was on the side has an empty one. */
    lemma UndoAtIs(h: uint32)
      requires Linked() && h in blocks
      ensures HasUndo(records.store, h) ==> InRange(UndoOf(blocks[h].transactions, hashOf))
      ensures UndoAt(h) == if HasUndo(records.store, h) && InRange(UndoOf(blocks[h].transactions, hashOf))
                           then Kept(UndoOf(blocks[h].transactions, hashOf)) else UndoBlock([], [])
      ensures UndoAt(h).transactionHashes != [] <==> HasUndo(records.store, h) && blocks[h].transactions != []
      ensures HasUndo(records.store, h) ==>
                && Lists(UndoAt(h), blocks[h].transactions, hashOf)
                && forall i | 0 <= i < |blocks[h].transactions| ::
                    var r := UndoAt(h).undoCoinRecords[i];
                    |r.amounts| == |r.publicKeys| == |r.utxo|
    {
      hide F.Rooted, StreamInv, UndoOf, InRange, UndoText, BlockHash, Lists, ListsAll, Kept;
      if HasUndo(records.store, h) {
        assert UndoDescribed(codec, RecordOf(records.store, h), blocks[h], writer.disk);
        UndoKept(codec, blocks[h]);
        UndoLists(blocks[h].transactions, hashOf);
        KeptLists(UndoOf(blocks[h].transactions, hashOf), blocks[h].transactions, hashOf);
      }
    }

    constructor (codec: Codec)
      requires codec.RoundTrips() && codec.HashesByDigest()
      requires StoreFits(codec, EMPTY, GENESIS)
      ensures Valid() && Tracked() && exact && accepted && events == [] && this.codec == codec
      ensures fresh(records) && fresh(writer) && fresh(coins) && fresh(coins.database)
      ensures blocks == map[BlockHash(codec, GENESIS) := GENESIS]
      ensures fork == F.Initial(BlockHash(codec, GENESIS), 0)
      ensures coins.levels == L.Run(L.NOTHING, Ledger.BlockOperations(GENESIS.GetTransactions(), hashOf))
      ensures coins.Utxos() == Ledger.After([GENESIS.GetTransactions()], hashOf)
      ensures writer.written == Requests(codec, GENESIS)
      ensures forall k: uint32 :: HasUndo(records.store, k) <==> k == Genesis()
    {
      hide StoreFits, Store, Inv, BlockHash, Indexed, GENESIS, EMPTY, TransactionHash, NO_RECORD, HasUndo;
      hide Requests, L.Run, coins.Valid;
      hide Ledger.After, Ledger.AcceptedRun, Ledger.BlockOperations, R.Clean, F.Rooted, F.Inv, ActiveTransactions;
      hide F.Initial, History, Linked, AllFit, Run, Undoable;
      this.codec := codec;
      hashOf := TransactionHash(codec);
      activeChainLastBlock := GENESIS;
      activeChainLength := 1;
      records := new Database.Database(NO_RECORD);
      writer := new ChainWriter();
      GenesisLevels(TransactionHash(codec));
      var genesisCoins := GenesisCoins(TransactionHash(codec));
      coins := genesisCoins;
      exact, accepted, events := true, true, [];
      new;
      StoreGenesis();
      GenesisTransactions();
      StartOfHistory();
    }

    lemma StartOfHistory()
      requires fork == F.Initial(Genesis(), 0) && events == []
      ensures History()
    {
    }

    /** Stores and indexes the genesis block. */
    method StoreGenesis()
      requires codec.RoundTrips() && codec.HashesByDigest() && hashOf == TransactionHash(codec)
      requires records.empty == NO_RECORD && records.store == map[]
      requires writer.State() == EMPTY && writer.written == [] && writer.Logged()
      requires StoreFits(codec, EMPTY, GENESIS) && activeChainLength == 1 && activeChainLastBlock == GENESIS
      modifies `blocks, `fork, records, writer
      ensures Linked() && F.Inv(fork, Genesis())
      ensures blocks == map[BlockHash(codec, GENESIS) := GENESIS]
      ensures fork == F.Initial(BlockHash(codec, GENESIS), 0)
      ensures writer.written == Requests(codec, GENESIS)
      ensures forall k: uint32 :: HasUndo(records.store, k) <==> k == Genesis()
    {
      hide StoreFits, Store, Inv, InRange, UndoOf, BlockHash, Indexed, GENESIS, EMPTY, Decimal.ToString, NO_RECORD;
      hide TransactionHash, AllFit, Run, HasUndo;
      GenesisIndexed(codec);
      hide F.Rooted;
      var h := HashBlock(codec, GENESIS);
      FirstFits(codec);
      var record := writer.StoreBlock(GENESIS, 1, codec);
      ghost var before := records.store;
      NoUndo(before);
      records.PutSafely(Decimal.ToString(h), record.value);
      UndoAfter(before, h, record.value, records.store);
      blocks := map[h := GENESIS];
      fork := F.Initial(h, 0);
    }

    lemma GenesisTransactions()
      requires Linked() && fork == F.Initial(Genesis(), 0)
      ensures ActiveTransactions() == [GENESIS.GetTransactions()]
      ensures Ledger.AcceptedRun(ActiveTransactions(), hashOf)
    {
      GenesisAccepted(hashOf);
      hide Indexed, Inv, GENESIS, BlockHash, Ledger.AcceptedRun;
      assert ActivePath() == [Genesis()];
    }

    // ----- Reading -----

    method GetLastBlock() returns (block: Block)
      requires Linked()
      ensures block == activeChainLastBlock
    {
      var rawInfo := codec.encodeBlock(activeChainLastBlock);
      block := codec.decodeBlock(rawInfo).value;
    }

    method GetLastBlockHash() returns (h: uint32)
      requires Linked()
      ensures h == fork.tip
    {
      var block := GetLastBlock();
      h := HashBlock(codec, block);
    }

    /** The record of a hash; reading changes nothing that the chain stands for. */
    method GetRecord(h: uint32) returns (r: BlockRecord)
      requires Linked()
      modifies records
      ensures Linked()
      ensures r == RecordOf(old(records.store), h)
      ensures forall k: uint32 :: RecordOf(records.store, k) == RecordOf(old(records.store), k)
      ensures h in blocks ==> Describes(codec, r, blocks[h], fork.tree[h].height, writer.disk)
      ensures h in blocks ==> r.header == blocks[h].header && r.height == fork.tree[h].height
      ensures h !in blocks ==> r == NO_RECORD
    {
      hide F.Rooted, Inv, ReadsAs;
      ReadKeepsIndexed(codec, records.store, writer.disk, blocks, fork.tree, h);
      r := records.GetSafely(Decimal.ToString(h));
    }

    method GetBlock(h: uint32) returns (b: Option<Block>)
      requires Linked()
      modifies records
      ensures Linked()
      ensures b == BlockOf(blocks, h) && forall k: uint32 :: HasUndo(records.store, k) == HasUndo(old(records.store), k)
    {
      var r := GetRecord(h);
      var text := writer.ReadBlock(r.blockInfo);
      b := codec.decodeBlock(text);
    }

    /** From the block at height i on the chain that ends in h to the one below it. */
    method StepBack(current: uint32, ghost h: uint32, ghost i: nat) returns (previous: uint32)
      requires Linked() && 1 <= i <= |PathTo(h)|
      requires current == PathTo(h)[i - 1]
      modifies records
      ensures Linked()
      ensures forall k: uint32 ::
                UndoAt(k) == old(UndoAt(k)) && HasUndo(records.store, k) == HasUndo(old(records.store), k)
      ensures i > 1 ==> previous == PathTo(h)[i - 2]
    {
      hide Linked, Describes, NO_RECORD, PathTo;
      PathStep(h, i - 1);
      var record := GetRecord(current);
      previous := record.header.previousBlockHash;
    }

    lemma UndoReadable(h: uint32)
      requires Linked() && h in blocks
      ensures Readable(writer.disk, RecordOf(records.store, h).undoInfo)
    {
      hide F.Rooted, StreamInv, BlockHash;
      assert Describes(codec, RecordOf(records.store, h), blocks[h], fork.tree[h].height, writer.disk);
    }

    method ReadUndoBlock(h: uint32) returns (undo: UndoBlock)
      requires Linked() && h in blocks
      modifies records
      ensures Linked()
      ensures undo == UndoAt(h)
      ensures forall k: uint32 ::
                UndoAt(k) == old(UndoAt(k)) && HasUndo(records.store, k) == HasUndo(old(records.store), k)
    {
      hide Linked, Describes, NO_RECORD, Read, Readable, RecordOf;
      UndoReadable(h);
      var record := GetRecord(h);
      var text := writer.ReadBlock(record.undoInfo);
      undo := codec.decodeUndoBlock(text);
    }

    /** The height of an accepted block; zero for any other hash. */
    method GetChainLength(h: uint32) returns (height: uint32)
      requires Linked()
      modifies records
      ensures Linked()
      ensures height == F.HeightOf(fork.tree, h)
      ensures height == 0 <==> h !in blocks
    {
      hide Inv, Describes, PathTo;
      if h in fork.tree {
        PathEnd(h);
      }
      var record := GetRecord(h);
      height := record.height;
    }

    // ----- The active chain -----

    /** The hashes of the active chain from height start to height end, collected from the tip down. */
    method CollectHashes(start: uint32, end: uint32) returns (result: seq<uint32>)
      requires Linked()
      modifies records
      ensures Linked()
      ensures result == Slice(ActivePath(), start, end)
      ensures forall k: uint32 :: HasUndo(records.store, k) == HasUndo(old(records.store), k)
    {
      hide Linked, PathTo, Slice, HasUndo, UndoAt;
      ActivePathEnd();
      ghost var p := ActivePath();
      SliceInverted(p, start, end);
      result := [];
      if end < start {
        return;
      }
      var s, e := if start == 0 then 1 else start, if end > activeChainLength then activeChainLength else end;
      var prevBlockHash := GetLastBlockHash();
      var i: int := activeChainLength;
      while i >= 1
        invariant 0 <= i <= |p| && (i == |p| || i >= s - 1)
        invariant Linked()
        invariant forall k: uint32 :: HasUndo(records.store, k) == HasUndo(old(records.store), k)
        invariant i >= 1 ==> prevBlockHash == p[i - 1]
        invariant result == p[if i < e then i else e..e]
      {
        if i < s {
          break;
        }
        if i <= e {
          OneMore(p, i - 1, e);
          result := [prevBlockHash] + result;
        }
        prevBlockHash := StepBack(prevBlockHash, fork.tip, i);
        i := i - 1;
      }
      SliceWalked(p, start, end, s, e, i);
    }

    method GetActiveChainHashes(start: uint32, end: uint32) returns (result: seq<uint32>)
      requires Linked()
      modifies records
      ensures Linked()
      ensures result == Slice(ActivePath(), start, end)
      ensures |result| == Max(0, Min(end, activeChainLength) - Max(start, 1) + 1)
      ensures forall i | 0 <= i < |result| :: result[i] in fork.tree && fork.tree[result[i]].height == Max(start, 1) + i
      ensures |result| > 0 && end >= activeChainLength ==> result[|result| - 1] == fork.tip
      ensures forall k: uint32 :: HasUndo(records.store, k) == HasUndo(old(records.store), k)
    {
      hide Linked, PathTo, Slice, HasUndo, UndoAt, Max, Min;
      SliceFacts(start, end);
      result := CollectHashes(start, end);
    }

    /** How many hashes a query of the active chain gives, at which heights, and that the last may be the tip. */
    lemma SliceFacts(start: uint32, end: uint32)
      requires Linked()
      ensures var r := Slice(ActivePath(), start, end);
              && |r| == Max(0, Min(end, activeChainLength) - Max(start, 1) + 1)
              && (forall i | 0 <= i < |r| :: r[i] in fork.tree && fork.tree[r[i]].height == Max(start, 1) + i)
              && (|r| > 0 && end >= activeChainLength ==> r[|r| - 1] == fork.tip)
    {
      hide Linked, PathTo, Slice;
      ActivePathEnd();
      var p, r := ActivePath(), Slice(ActivePath(), start, end);
      SliceLength(p, start, end);
      forall i | 0 <= i < |r|
        ensures r[i] in fork.tree && fork.tree[r[i]].height == Max(start, 1) + i
      {
        SliceAt(p, start, end, i);
        PathStep(fork.tip, Max(start, 1) - 1 + i);
      }
      if |r| > 0 {
        SliceAt(p, start, end, |r| - 1);
      }
    }

    /** The blocks of the active chain from height start to height end. */
    method GetActiveChain(start: uint32, end: uint32) returns (result: seq<Option<Block>>)
      requires Linked()
      modifies records
      ensures Linked()
      ensures result == BlocksOf(blocks, Slice(ActivePath(), start, end))
    {
      hide Linked, PathTo, Slice, BlocksOf, BlockOf;
      ActivePathEnd();
      ghost var p := ActivePath();
      SliceInverted(p, start, end);
      result := [];
      if end < start {
        return;
      }
      var s, e := if start == 0 then 1 else start, if end > activeChainLength then activeChainLength else end;
      var prevBlockHash := GetLastBlockHash();
      var i: int := activeChainLength;
      while i >= 1
        invariant 0 <= i <= |p| && (i == |p| || i >= s - 1)
        invariant Linked()
        invariant i >= 1 ==> prevBlockHash == p[i - 1]
        invariant result == BlocksOf(blocks, p[if i < e then i else e..e])
      {
        if i < s {
          break;
        }
        if i <= e {
          BlocksOfNext(blocks, p, i - 1, e);
          var block := GetBlock(prevBlockHash);
          result := [block] + result;
        }
        prevBlockHash := StepBack(prevBlockHash, fork.tip, i);
        i := i - 1;
      }
      SliceWalked(p, start, end, s, e, i);
    }

    /** Every block that a query of the active chain names was accepted under the hash that names it. */
    lemma ActiveBlocksAccepted(start: uint32, end: uint32, i: nat)
      requires Linked() && i < |Slice(ActivePath(), start, end)|
      ensures var h := Slice(ActivePath(), start, end)[i];
              && h in blocks && BlockHash(codec, blocks[h]) == h
              && BlockOf(blocks, h) == Some(blocks[h])
              && fork.tree[h].height == (if start == 0 then 1 else start) + i
              && (i > 0 ==> blocks[h].header.previousBlockHash == Slice(ActivePath(), start, end)[i - 1])
    {
      hide Linked, PathTo, BlockHash;
      var s: nat := if start == 0 then 1 else start;
      hide Slice;
      SliceAt(ActivePath(), start, end, i);
      PathStep(fork.tip, s - 1 + i);
    }

    // ----- Taking over -----

    /** The height in the record of an accepted block. */
    method GetHeight(h: uint32) returns (height: uint32)
      requires Linked() && h in fork.tree
      modifies records
      ensures Linked()
      ensures height == fork.tree[h].height
      ensures forall k: uint32 :: HasUndo(records.store, k) == HasUndo(old(records.store), k)
    {
      var record := GetRecord(h);
      height := record.height;
    }

    /** All hashes from the genesis block to h, collected from the end. */
    method CollectPath(h: uint32, blockHeight: uint32) returns (forkedBlocks: seq<uint32>)
      requires Linked() && h in fork.tree && fork.tree[h].height == blockHeight
      modifies records
      ensures Linked()
      ensures forkedBlocks == PathTo(h)
      ensures forall k: uint32 :: HasUndo(records.store, k) == HasUndo(old(records.store), k)
    {
      hide Linked, PathTo, HasUndo, UndoAt;
      ghost var q := PathTo(h);
      PathEnd(h);
      var forkedPrevHash := h;
      var i: int := blockHeight;
      forkedBlocks := [];
      while i >= 1
        invariant 0 <= i <= |q| && Linked()
        invariant forall k: uint32 :: HasUndo(records.store, k) == HasUndo(old(records.store), k)
        invariant i >= 1 ==> forkedPrevHash == q[i - 1]
        invariant forkedBlocks == q[i..|q|]
      {
        OneMore(q, i - 1, |q|);
        forkedBlocks := [forkedPrevHash] + forkedBlocks;
        forkedPrevHash := StepBack(forkedPrevHash, h, i);
        i := i - 1;
      }
    }

    lemma TakeoverAncestor(h: uint32)
      requires Linked() && h in fork.tree
      requires fork.tree[h].height == activeChainLength + 1 && fork.tree[h].parent != fork.tip
      ensures var m := F.Mismatch(ActivePath(), PathTo(h));
              && 1 <= m < |ActivePath()|
              && ActivePath()[m - 1] == F.Ancestor(fork.tree, Genesis(), fork.tip, h)
              && ActivePath()[m - 1] in blocks
              && F.IsDeepestCommonAncestor(fork.tree, Genesis(), ActivePath()[m - 1], fork.tip, h)
    {
      hide Indexed, Inv, F.Mismatch, F.IsDeepestCommonAncestor, F.Path, BlockHash;
      assert F.Anchored(fork.tree, Genesis(), h) && F.Anchored(fork.tree, Genesis(), fork.tip);
      F.TakeoverAncestor(fork.tree, Genesis(), fork.tip, h);
      PathStep(fork.tip, F.Mismatch(ActivePath(), PathTo(h)) - 1);
    }

    /** Fetches the blocks from one cursor of a path down to another, and stops when it has fetched where they meet. */
    method CollectBlocks(start: uint32, commonAncestorHash: uint32, blockHeight: uint32,
                         ghost h: uint32, ghost top: nat, ghost bottom: nat) returns (result: seq<Option<Block>>)
      requires Linked() && bottom <= top < |PathTo(h)| && top - bottom < blockHeight
      requires start == PathTo(h)[top] && commonAncestorHash == PathTo(h)[bottom]
      modifies records
      ensures Linked() && forall k: uint32 :: HasUndo(records.store, k) == HasUndo(old(records.store), k)
      ensures |result| == top - bottom + 1
      ensures forall j | 0 <= j < |result| :: result[j] == BlockOf(blocks, PathTo(h)[top - j])
    {
      hide Linked, PathTo, BlockOf, HasUndo, UndoAt;
      ghost var q := PathTo(h);
      var forkedPrevHash, i: int := start, blockHeight;
      result := [];
      while i >= 1
        invariant Linked() && forall k: uint32 :: HasUndo(records.store, k) == HasUndo(old(records.store), k)
        invariant |result| == blockHeight - i <= top - bottom && forkedPrevHash == q[top - |result|]
        invariant forall j | 0 <= j < |result| :: result[j] == BlockOf(blocks, q[top - j])
      {
        PathMeets(h, top - |result|, bottom);
        var block := GetBlock(forkedPrevHash);
        result := result + [block];
        if forkedPrevHash == commonAncestorHash {
          break;
        }
        forkedPrevHash := StepBack(forkedPrevHash, h, top - (|result| - 1) + 1);
        i := i - 1;
      }
    }

    /** A path passes each block once. */
    lemma PathMeets(h: uint32, i: nat, j: nat)
      requires Linked() && i < |PathTo(h)| && j < |PathTo(h)|
      ensures PathTo(h)[i] == PathTo(h)[j] <==> i == j
    {
      hide Indexed, Inv;
      F.PathDistinct(fork.tree, Genesis(), h);
    }

    /**
     * The blocks to replay on a takeover. Both cursors of the collecting loop start at the parent of the first block by
     * which the chains differ, so the answer is that one block.
     */
    method GetForkedBlocksStack(startingHash: uint32) returns (result: seq<Option<Block>>)
      requires Linked() && startingHash in fork.tree
      requires fork.tree[startingHash].height == activeChainLength + 1 && fork.tree[startingHash].parent != fork.tip
      modifies records
      ensures Linked()
      ensures forall k: uint32 :: HasUndo(records.store, k) == HasUndo(old(records.store), k)
      ensures var ancestor := F.Ancestor(fork.tree, Genesis(), fork.tip, startingHash);
              && F.IsDeepestCommonAncestor(fork.tree, Genesis(), ancestor, fork.tip, startingHash)
              && ancestor in blocks && result == [Some(blocks[ancestor])]
    {
      hide Linked, PathTo, Slice, F.Mismatch, F.IsDeepestCommonAncestor, F.Ancestor, HasUndo, UndoAt;
      TakeoverAncestor(startingHash);
      ActivePathEnd();
      WholeSlice(ActivePath());
      var activeBlocks := GetActiveChainHashes(1, activeChainLength);
      var blockHeight := GetHeight(startingHash);
      var forkedBlocks := CollectPath(startingHash, blockHeight);
      var m := F.Mismatch(activeBlocks, forkedBlocks);
      var commonAncestorHash := StepBack(activeBlocks[m], fork.tip, m + 1);
      result := CollectBlocks(commonAncestorHash, commonAncestorHash, blockHeight, fork.tip, m - 1, m - 1);
    }

    /** The undo blocks of the active chain above a height, from the tip down. */
    method GetUndoBlocksQueue(branchingHeight: uint32) returns (result: seq<UndoBlock>)
      requires Linked()
      modifies records
      ensures Linked()
      ensures forall k: uint32 :: HasUndo(records.store, k) == HasUndo(old(records.store), k)
      ensures var hashes := Slice(ActivePath(), branchingHeight + 1, activeChainLength);
              if branchingHeight == 0 || branchingHeight > activeChainLength then result == []
              else && |result| == |hashes| == activeChainLength - branchingHeight
                   && forall i | 0 <= i < |result| :: result[i] == UndoAt(hashes[|hashes| - 1 - i])
    {
      hide Linked, PathTo, UndoAt, HasUndo;
      ActivePathEnd();
      ghost var p := ActivePath();
      result := [];
      var prevBlockHash := GetLastBlockHash();
      if branchingHeight == 0 || branchingHeight > activeChainLength {
        return;
      }
      ghost var n := activeChainLength;
      for i := 0 to activeChainLength - branchingHeight
        invariant Linked() && forall k: uint32 :: HasUndo(records.store, k) == HasUndo(old(records.store), k)
        invariant prevBlockHash == p[n - 1 - i]
        invariant |result| == i && forall j | 0 <= j < i :: result[j] == UndoAt(p[n - 1 - j])
      {
        PathStep(fork.tip, n - 1 - i);
        var undo := ReadUndoBlock(prevBlockHash);
        result := result + [undo];
        prevBlockHash := StepBack(prevBlockHash, fork.tip, n - i);
      }
    }

    // ----- Taking blocks in -----

    /** Hashes are at most 8160, so a chain without collisions never grows past 8161 blocks. */
    lemma LengthBound(h: uint32)
      requires Linked() && h in fork.tree
      ensures fork.tree[h].height <= 8161
    {
      forall k | k in fork.tree
        ensures k < 8161
      {
        assert codec.hash(codec.encodeBlock(blocks[k])) == CryptCrypto.Digest(codec.encodeBlock(blocks[k]));
      }
      F.HashesBoundHeight(fork.tree, Genesis(), h, 8161);
    }

    /** The hash of a block is not that of another accepted block, nor that of the genesis block. */
    ghost predicate Distinguished(block: Block)
      reads this`blocks
    {
      var h := BlockHash(codec, block);
      h != Genesis() && (h in blocks ==> blocks[h] == block)
    }

    /**
     * What a caller owes: a known parent and, for a block that is not turned away, no collision with an accepted block
     * and room in the log. A block on the tip is turned away when an input is not there.
     */
    ghost predicate Acceptable(block: Block)
      reads this, writer, coins
    {
      && block.header.previousBlockHash in blocks
      && if block.header.previousBlockHash == fork.tip then
           Ledger.AllInputsKnown(coins.Utxos(), block.GetTransactions()) ==>
             Distinguished(block) && StoreFits(codec, writer.State(), block)
         else Distinguished(block) && BlockFits(codec, writer.State(), block)
    }

    lemma DistinguishedIsAdmissible(block: Block, valid: bool)
      requires Valid() && block.header.previousBlockHash in blocks && Distinguished(block)
      ensures var e := F.Event(BlockHash(codec, block), block.header.previousBlockHash, valid);
              && F.Admissible(fork, Genesis(), e)
              && F.Inv(F.Step(fork, e), Genesis()) && F.Grows(fork.tree, F.Step(fork, e).tree)
              && F.Rooted(F.Record(fork.tree, e.hash, e.parent), Genesis())
              && e.parent in fork.tree && fork.tip in blocks && blocks.Keys == fork.tree.Keys
              && F.Record(fork.tree, e.hash, e.parent)[fork.tip] == fork.tree[fork.tip]
              && blocks[e.hash := block][fork.tip] == activeChainLastBlock
    {
      hide BlockHash, F.Rooted, Inv, Describes, coins.Valid;
      var h := BlockHash(codec, block);
      assert h in fork.tree ==> fork.tree[h].parent == blocks[h].header.previousBlockHash;
      hide Indexed;
      F.StepKeepsInv(fork, Genesis(), F.Event(h, block.header.previousBlockHash, valid));
      F.RecordKnown(fork.tree, Genesis(), h, block.header.previousBlockHash);
    }

    /**
     * Stores a block on the tip and, if its undo block can be serialized, indexes it and makes it the tip. If it can
     * not, the program reads past the end of a vector, and the log has the block alone.
     */
    method AppendToTip(block: Block, currentHash: uint32) returns (defined: bool)
      requires Valid() && Distinguished(block) && StoreFits(codec, writer.State(), block)
      requires currentHash == BlockHash(codec, block) && block.header.previousBlockHash == fork.tip
      requires fork.tip in blocks
      modifies `activeChainLength, `activeChainLastBlock, `blocks, `fork, records, writer
      ensures Linked() && (defined <==> Undoable(codec, block))
      ensures fork == F.Step(old(fork), F.Event(currentHash, block.header.previousBlockHash, defined))
      ensures blocks == if defined then old(blocks)[currentHash := block] else old(blocks)
      ensures writer.written == old(writer.written) + Requests(codec, block)
      ensures forall k: uint32 ::
                HasUndo(records.store, k) <==> (defined && k == currentHash) || HasUndo(old(records.store), k)
    {
      hide StoreFits, Store, Inv, Undoable, Requests, BlockHash, Indexed, Fits, Decimal.ToString, F.Rooted, F.Grows;
      hide HasUndo, coins.Valid, AllFit, Run;
      LengthBound(fork.tip);
      DistinguishedIsAdmissible(block, true);
      var blockHeight := activeChainLength + 1;
      ghost var tree := fork.tree[currentHash := F.Node(fork.tip, blockHeight)];
      ghost var next := F.Step(fork, F.Event(currentHash, block.header.previousBlockHash, true));
      assert next == F.State(tree, currentHash, blockHeight) && F.Rooted(tree, Genesis());
      hide F.Inv, F.Admissible;
      StoredOrKept(block, blockHeight);
      StoreFitsAll(codec, writer.written, block);
      var newRecord := writer.StoreBlock(block, blockHeight, codec);
      defined := newRecord.Some?;
      if !defined {
        return;
      }
      ghost var index := records.store;
      records.PutSafely(Decimal.ToString(currentHash), newRecord.value);
      UndoAfter(index, currentHash, newRecord.value, records.store);
      activeChainLength := activeChainLength + 1;
      activeChainLastBlock := block;
      blocks := blocks[currentHash := block];
      fork := next;
    }

    lemma StoredOrKept(block: Block, height: uint32)
      requires Linked() && StoreFits(codec, writer.State(), block)
      ensures var h := BlockHash(codec, block);
              if Undoable(codec, block) then
                var (after, record) := Store(codec, writer.State(), block, height);
                && Inv(after) && record.undoInfo != NO_FILE
                && Indexed(codec, records.store[Decimal.ToString(h) := record], after.disk, blocks[h := block],
                           fork.tree[h := F.Node(block.header.previousBlockHash, height)])
              else
                var after := Write(writer.State(), Kind.Blocks, codec.encodeBlock(block)).0;
                Inv(after) && Indexed(codec, records.store, after.disk, blocks, fork.tree)
    {
      assert BlockFits(codec, writer.State(), block);
      hide StoreFits, BlockFits, Store, Write, Inv, Undoable, BlockHash, Indexed, F.Rooted;
      if Undoable(codec, block) {
        AcceptStored(codec, records.store, writer.State(), blocks, fork.tree, block, height);
      } else {
        KeepStored(codec, records.store, writer.State(), blocks, fork.tree, block);
      }
    }

    /** Stores and indexes a block whose parent is not the tip; the tip stays for now. */
    method RecordSideBlock(block: Block, currentHash: uint32) returns (blockHeight: uint32)
      requires Valid() && block.header.previousBlockHash in blocks && Distinguished(block)
      requires BlockFits(codec, writer.State(), block)
      requires currentHash == BlockHash(codec, block) && block.header.previousBlockHash != fork.tip
      modifies `blocks, `fork, records, writer
      ensures Linked()
      ensures fork == F.State(F.Record(old(fork.tree), currentHash, block.header.previousBlockHash),
                              old(fork.tip), old(fork.length))
      ensures blocks == old(blocks)[currentHash := block]
      ensures currentHash in fork.tree
      ensures blockHeight == fork.tree[currentHash].height <= activeChainLength + 1
      ensures fork.tree[currentHash].parent == block.header.previousBlockHash
      ensures writer.written == old(writer.written) + [Request(Kind.Blocks, codec.encodeBlock(block))]
      ensures forall k: uint32 :: HasUndo(records.store, k) <==> k != currentHash && HasUndo(old(records.store), k)
    {
      hide Inv, UndoOf, BlockHash, Indexed, Describes, BlockFits, Write, Decimal.ToString, F.Rooted, F.Grows;
      hide RecordOf, HasUndo, coins.Valid;
      var prevHash := block.header.previousBlockHash;
      DistinguishedIsAdmissible(block, true);
      LengthBound(prevHash);
      blockHeight := NextHeight(prevHash);
      ghost var tree := F.Record(fork.tree, currentHash, prevHash);
      assert tree == fork.tree[currentHash := F.Node(prevHash, blockHeight)];
      hide F.Inv, F.Admissible, F.Step, F.Record;
      AcceptSide(codec, records.store, writer.State(), blocks, fork.tree, block, Low32(|block.transactions|),
                 blockHeight);
      StoreFitsAll(codec, writer.written, block);
      var blockFileInfo := writer.WriteBlock(codec.encodeBlock(block));
      var newRecord := BlockRecord(block.header, Low32(|block.transactions|), blockHeight, blockFileInfo, NO_FILE);
      ghost var index := records.store;
      records.PutSafely(Decimal.ToString(currentHash), newRecord);
      UndoAfter(index, currentHash, newRecord, records.store);
      blocks := blocks[currentHash := block];
      fork := F.State(tree, fork.tip, fork.length);
    }

    method NextHeight(prevHash: uint32) returns (height: uint32)
      requires Linked() && prevHash in fork.tree && fork.tree[prevHash].height <= 8161
      modifies records
      ensures Linked() && height == fork.tree[prevHash].height + 1
      ensures forall k: uint32 :: HasUndo(records.store, k) == HasUndo(old(records.store), k)
    {
      hide Linked;
      height := GetHeight(prevHash);
      height := height + 1;
    }

    /** The undo pass of a takeover is defined exactly when every block it undoes has an undo block to show. */
    lemma QueueReady(undoBlocks: seq<UndoBlock>)
      requires Linked()
      requires var hashes := Slice(ActivePath(), 2, activeChainLength);
               && |undoBlocks| == |hashes| == activeChainLength - 1
               && forall i | 0 <= i < |undoBlocks| :: undoBlocks[i] == UndoAt(hashes[|hashes| - 1 - i])
      ensures (forall n | 0 <= n < |undoBlocks| :: undoBlocks[n].transactionHashes != []) <==> ActiveUndoReady()
    {
      hide Linked, PathTo, UndoAt, HasUndo, BlockHash;
      ActivePathEnd();
      var p := ActivePath();
      forall i | 1 <= i < |p|
        ensures p[i] in blocks
        ensures undoBlocks[|p| - 1 - i].transactionHashes != [] <==>
                HasUndo(records.store, p[i]) && blocks[p[i]].transactions != []
      {
        PathStep(fork.tip, i);
        UndoAtIs(p[i]);
      }
      if ActiveUndoReady() {
        forall n | 0 <= n < |undoBlocks|
          ensures undoBlocks[n].transactionHashes != []
        {
          assert n == |p| - 1 - (|p| - 1 - n);
          assert HasUndo(records.store, p[|p| - 1 - n]);
        }
      }
    }

    /** Stores the coins of the blocks that a takeover found, which are one. */
    method ReplayBlocks(forkedBlocks: seq<Option<Block>>, ghost b: Block) returns (defined: bool)
      requires forkedBlocks == [Some(b)] && coins.Valid() && coins.hashOf == hashOf
      modifies coins, coins.database
      ensures coins.Valid()
      ensures var operations := Ledger.BlockOperations(b.GetTransactions(), hashOf);
              && coins.levels == L.Run(old(coins.levels), operations)
              && (defined <==> L.RunDefined(old(coins.levels), operations))
    {
      hide coins.Valid, L.Run, L.RunDefined, Ledger.BlockOperations;
      ghost var before, operations := coins.levels, Ledger.BlockOperations(b.GetTransactions(), hashOf);
      defined := true;
      for i := 0 to |forkedBlocks|
        invariant coins.Valid()
        invariant if i == 0 then coins.levels == before && defined
                  else coins.levels == L.Run(before, operations) && (defined <==> L.RunDefined(before, operations))
      {
        var stored := coins.StoreBlock(forkedBlocks[i].value.GetTransactions());
        defined := defined && stored;
      }
    }

    /** What a takeover does to the coins: nothing is undone, and those of the common ancestor are stored once more. */
    method MoveCoins(currentHash: uint32) returns (defined: bool)
      requires Linked() && Separate() && coins.Valid() && coins.hashOf == hashOf && currentHash in fork.tree
      requires fork.tree[currentHash].height == activeChainLength + 1 && fork.tree[currentHash].parent != fork.tip
      modifies records, coins, coins.database
      ensures Linked() && coins.Valid()
      ensures forall k: uint32 :: HasUndo(records.store, k) == HasUndo(old(records.store), k)
      ensures var ancestor := F.Ancestor(fork.tree, Genesis(), fork.tip, currentHash);
              var operations := Ledger.BlockOperations(TransactionsOf(blocks, ancestor), hashOf);
              && coins.levels == L.Run(old(coins.levels), operations)
              && (defined <==> old(ActiveUndoReady()) && L.RunDefined(old(coins.levels), operations))
    {
      hide Linked, F.IsDeepestCommonAncestor, F.Ancestor, PathTo, Slice, UndoAt, HasUndo, RecordOf, BlockHash;
      hide L.Run, L.RunDefined, Ledger.BlockOperations, coins.Valid;
      ActivePathEnd();
      ghost var ancestor := F.Ancestor(fork.tree, Genesis(), fork.tip, currentHash);
      var forkedBlocks := GetForkedBlocksStack(currentHash);
      var undoBlocks := GetUndoBlocksQueue(|forkedBlocks|);
      QueueReady(undoBlocks);
      var undone := coins.UndoCoins(undoBlocks);
      var replayed := ReplayBlocks(forkedBlocks, blocks[ancestor]);
      defined := undone && replayed;
    }

    /** Moves the tip to a side block that is one higher. */
    method TakeOver(block: Block, currentHash: uint32) returns (defined: bool)
      requires Linked() && Separate() && coins.Valid() && coins.hashOf == hashOf
      requires currentHash in blocks && blocks[currentHash] == block && currentHash in fork.tree
      requires fork.tree[currentHash].height == activeChainLength + 1 && fork.tree[currentHash].parent != fork.tip
      modifies `activeChainLength, `activeChainLastBlock, `fork, records, coins, coins.database
      ensures Linked() && coins.Valid() && fork == F.State(old(fork.tree), currentHash, old(fork.length) + 1)
      ensures forall k: uint32 :: HasUndo(records.store, k) == HasUndo(old(records.store), k)
      ensures var ancestor := F.Ancestor(fork.tree, Genesis(), old(fork.tip), currentHash);
              var operations := Ledger.BlockOperations(TransactionsOf(blocks, ancestor), hashOf);
              && coins.levels == L.Run(old(coins.levels), operations)
              && (defined <==> old(ActiveUndoReady()) && L.RunDefined(old(coins.levels), operations))
    {
      hide Inv, BlockHash, Indexed, F.Rooted, F.Ancestor, UndoReady, PathTo, HasUndo, coins.Valid;
      hide L.Run, L.RunDefined, Ledger.BlockOperations;
      LengthBound(currentHash);
      defined := MoveCoins(currentHash);
      activeChainLength := activeChainLength + 1;
      activeChainLastBlock := block;
      fork := F.State(fork.tree, currentHash, activeChainLength);
    }

    /** A valid block on the tip: its coins move, and it becomes the tip if it can be stored whole. */
    method ExtendTip(block: Block, currentHash: uint32) returns (defined: bool)
      requires Valid() && Distinguished(block) && StoreFits(codec, writer.State(), block)
      requires currentHash == BlockHash(codec, block) && block.header.previousBlockHash == fork.tip
      requires fork.tip in blocks
      modifies `activeChainLength, `activeChainLastBlock, `blocks, `fork, records, writer, coins, coins.database
      ensures Valid()
      ensures var stored := Undoable(codec, block);
              var operations := Ledger.BlockOperations(block.GetTransactions(), hashOf);
              && fork == F.Step(old(fork), F.Event(currentHash, block.header.previousBlockHash, stored))
              && blocks == (if stored then old(blocks)[currentHash := block] else old(blocks))
              && coins.levels == L.Run(old(coins.levels), operations)
              && (defined <==> stored && L.RunDefined(old(coins.levels), operations))
              && writer.written == old(writer.written) + Requests(codec, block)
              && forall k: uint32 ::
                   HasUndo(records.store, k) <==> (stored && k == currentHash) || HasUndo(old(records.store), k)
    {
      hide Linked, Inv, Undoable, Requests, BlockHash, StoreFits;
      hide F.Rooted, F.Grows, F.Record, F.Step, F.Admissible, F.Inv;
      hide HasUndo, L.Run, L.RunDefined, Ledger.BlockOperations, TransactionHash, coins.Valid;
      DistinguishedIsAdmissible(block, Undoable(codec, block));
      var spent := coins.StoreBlock(block.GetTransactions());
      var stored := AppendToTip(block, currentHash);
      defined := spent && stored;
    }

    /** The block that takes over is not on the old chain, so recording it leaves the undo blocks there as they were. */
    lemma SideKeepsUndo(before: F.State, index: Index, known: Accepted, h: uint32, b: Block)
      requires Linked() && F.Rooted(before.tree, Genesis()) && F.Grows(before.tree, fork.tree)
      requires before.tip in before.tree && before.tip == fork.tip && h in fork.tree
      requires fork.tree[h].height > fork.length && known.Keys == before.tree.Keys && blocks == known[h := b]
      requires forall k: uint32 :: HasUndo(records.store, k) <==> k != h && HasUndo(index, k)
      ensures ActiveUndoReady() <==> UndoReady(index, known, F.Path(before.tree, Genesis(), before.tip))
    {
      hide Indexed, Inv, BlockHash, HasUndo;
      F.PathStays(before.tree, fork.tree, Genesis(), before.tip);
      var p := F.Path(before.tree, Genesis(), before.tip);
      hide F.Rooted, F.Path;
      forall i | 0 <= i < |p|
        ensures p[i] != h && p[i] in known
      {
        F.PathAt(before.tree, Genesis(), before.tip, i);
      }
    }

    /** Any other block: recorded, and made the tip when it is higher than the tip. */
    method HandleSideBlock(block: Block, currentHash: uint32, ghost valid: bool) returns (defined: bool)
      requires Valid() && block.header.previousBlockHash in blocks && Distinguished(block)
      requires BlockFits(codec, writer.State(), block)
      requires currentHash == BlockHash(codec, block) && block.header.previousBlockHash != fork.tip
      modifies `activeChainLength, `activeChainLastBlock, `blocks, `fork, records, writer, coins, coins.database
      ensures Valid()
      ensures fork == F.Step(old(fork), F.Event(currentHash, block.header.previousBlockHash, valid))
      ensures blocks == old(blocks)[currentHash := block]
      ensures var ancestor := F.Ancestor(fork.tree, Genesis(), old(fork.tip), fork.tip);
              var moved := fork.tip != old(fork.tip);
              var operations := if moved then Ledger.BlockOperations(TransactionsOf(blocks, ancestor), hashOf) else [];
              && coins.levels == L.Run(old(coins.levels), operations)
              && (defined <==> (moved ==> old(ActiveUndoReady())) && L.RunDefined(old(coins.levels), operations))
      ensures writer.written == old(writer.written) + [Request(Kind.Blocks, codec.encodeBlock(block))]
      ensures forall k: uint32 :: HasUndo(records.store, k) <==> k != currentHash && HasUndo(old(records.store), k)
    {
      hide Linked, BlockHash, BlockFits, F.Rooted, F.Grows, F.Record, F.Step, F.Inv, HasUndo, coins.Valid;
      hide L.Run, L.RunDefined, Ledger.BlockOperations, UndoReady, F.Ancestor, Distinguished, F.Path, ActivePath;
      L.RunNone(coins.levels);
      SideStep(block, valid);
      ghost var next := F.Step(fork, F.Event(currentHash, block.header.previousBlockHash, valid));
      ghost var before, index, known := fork, records.store, blocks;
      var blockHeight := RecordSideBlock(block, currentHash);
      defined := true;
      LinkedLength();
      if blockHeight > activeChainLength {
        SideKeepsUndo(before, index, known, currentHash, block);
        defined := TakeOver(block, currentHash);
      }
      assert fork == next;
    }

    /** The step of a side block, from the state before it. */
    lemma SideStep(block: Block, valid: bool)
      requires Valid() && block.header.previousBlockHash in blocks && Distinguished(block)
      requires block.header.previousBlockHash != fork.tip
      ensures var h := BlockHash(codec, block);
              var tree := F.Record(fork.tree, h, block.header.previousBlockHash);
              var next := F.Step(fork, F.Event(h, block.header.previousBlockHash, valid));
              && F.Inv(next, Genesis()) && F.Grows(fork.tree, tree) && h in tree
              && next == (if tree[h].height > fork.length then F.State(tree, h, fork.length + 1)
                          else F.State(tree, fork.tip, fork.length))
              && (next.tip == fork.tip <==> tree[h].height <= fork.length)
      ensures F.Rooted(fork.tree, Genesis()) && fork.tip in fork.tree && blocks.Keys == fork.tree.Keys
      ensures fork.length == activeChainLength && ActivePath() == F.Path(fork.tree, Genesis(), fork.tip)
    {
      hide Inv, BlockHash, Indexed, coins.Valid, Distinguished;
      hide F.Rooted, F.Path, F.Step, F.Record, F.Grows, F.Admissible;
      DistinguishedIsAdmissible(block, valid);
      ActivePathIsPath();
      F.SideStep(fork, Genesis(), F.Event(BlockHash(codec, block), block.header.previousBlockHash, valid));
    }

    lemma LinkedLength()
      requires Linked()
      ensures fork.length == activeChainLength
    {
    }

    /** Whether a block gets a record: a side block does, one on the tip if it is valid and can be stored whole. */
    predicate Joins(tip: uint32, block: Block, valid: bool) {
      block.header.previousBlockHash == tip ==> valid && Undoable(codec, block)
    }

    /** The fork-choice step of a block. */
    function EventOf(block: Block, valid: bool): F.Event {
      F.Event(BlockHash(codec, block), block.header.previousBlockHash, valid && Undoable(codec, block))
    }

    /** What the log is asked to write for a block. */
    function RequestsOf(tip: uint32, block: Block, valid: bool): seq<Request> {
      if block.header.previousBlockHash != tip then [Request(Kind.Blocks, codec.encodeBlock(block))]
      else if valid then Requests(codec, block)
      else []
    }

    /** The operations that a step puts the coins through. A takeover stores those of the common ancestor once more. */
    ghost function CoinOperations(before: F.State, block: Block, valid: bool): seq<Ledger.Operation>
      reads this`fork, this`blocks
    {
      if block.header.previousBlockHash == before.tip then
        if valid then Ledger.BlockOperations(block.GetTransactions(), hashOf) else []
      else if fork.tip == before.tip then []
      else
        var ancestor := F.Ancestor(fork.tree, Genesis(), before.tip, fork.tip);
        Ledger.BlockOperations(TransactionsOf(blocks, ancestor), hashOf)
    }

    /** Whether a step moved the tip to a side branch. */
    ghost predicate TookOver(before: F.State, block: Block)
      reads this`fork
    {
      fork.tip != before.tip && block.header.previousBlockHash != before.tip
    }

    /** Whether every access of a step was in range: to the coins, to the undo blocks, and in serializing one. */
    ghost predicate StepDefined(before: F.State, ready: bool, levels: L.Levels, block: Block, valid: bool)
      reads this`fork, this`blocks
    {
      && L.RunDefined(L.Validated(levels, block.GetTransactions()), CoinOperations(before, block, valid))
      && (block.header.previousBlockHash == before.tip && valid ==> Undoable(codec, block))
      && (TookOver(before, block) ==> ready)
    }

    lemma LinkedHashes()
      requires Linked()
      ensures codec.HashesByDigest()
    {
    }

    /** Takes one block in. The results are the verdict of the validation, and whether every access was in range. */
    method ProcessBlock(block: Block) returns (valid: bool, defined: bool)
      requires Valid() && Acceptable(block)
      modifies `activeChainLength, `activeChainLastBlock, `blocks, `fork, records, writer, coins, coins.database
      ensures Valid()
      ensures valid <==> Ledger.AllInputsKnown(old(coins.Utxos()), block.GetTransactions())
      ensures fork == F.Step(old(fork), EventOf(block, valid))
      ensures blocks == if Joins(old(fork.tip), block, valid) then old(blocks)[BlockHash(codec, block) := block]
                        else old(blocks)
      ensures coins.levels == L.Run(L.Validated(old(coins.levels), block.GetTransactions()),
                                    CoinOperations(old(fork), block, valid))
      ensures defined <==> StepDefined(old(fork), old(ActiveUndoReady()), old(coins.levels), block, valid)
      ensures writer.written == old(writer.written) + RequestsOf(old(fork.tip), block, valid)
      ensures forall k: uint32 ::
                HasUndo(records.store, k) <==>
                if k == BlockHash(codec, block) && Joins(old(fork.tip), block, valid) then
                  block.header.previousBlockHash == old(fork.tip)
                else HasUndo(old(records.store), k)
    {
      hide Linked, Undoable, Requests, BlockHash, StoreFits, BlockFits;
      hide F.Rooted, F.Grows, F.Record, F.Admissible, F.Inv;
      hide HasUndo, L.Run, L.RunDefined, L.Validated, Ledger.BlockOperations, Ledger.AllInputsKnown, TransactionHash;
      hide coins.Valid, UndoReady, F.Ancestor, ActivePath, Distinguished;
      LinkedHashes();
      var currentHash := HashBlock(codec, block);
      valid := coins.ValidateBlock(block.GetTransactions());
      L.RunNone(coins.levels);
      defined := true;
      var lastHash := GetLastBlockHash();
      if valid || block.header.previousBlockHash != lastHash {
        if block.header.previousBlockHash == lastHash {
          defined := ExtendTip(block, currentHash);
        } else {
          defined := HandleSideBlock(block, currentHash, valid && Undoable(codec, block));
        }
      }
    }

    lemma ActivePathIsPath()
      requires Linked()
      ensures ActivePath() == F.Path(fork.tree, Genesis(), fork.tip)
    {
    }

    /** What a step leaves behind, given the fork-choice state and the accepted blocks before it. */
    ghost predicate Entered(before: F.State, known: Accepted, block: Block, valid: bool)
      reads this`fork, this`blocks
    {
      && F.Inv(before, Genesis()) && known.Keys == before.tree.Keys
      && fork == F.Step(before, EventOf(block, valid))
      && (!Joins(before.tip, block, valid) ==> blocks == known)
      && (Joins(before.tip, block, valid) ==>
            && F.Admissible(before, Genesis(), EventOf(block, valid))
            && blocks == known[BlockHash(codec, block) := block]
            && (BlockHash(codec, block) in known ==> known[BlockHash(codec, block)] == block))
    }

    lemma NewTipIsBlock(before: F.State, known: Accepted, block: Block, valid: bool)
      requires Linked() && Entered(before, known, block, valid) && fork.tip != before.tip
      ensures fork.tip == BlockHash(codec, block) && Joins(before.tip, block, valid)
    {
      hide BlockHash, Indexed, Inv, Undoable, F.Inv, F.Rooted;
    }

    /** The active chain gets one hash longer when the tip is extended, and stays when a side block is recorded. */
    lemma ActivePathAfter(before: F.State, known: Accepted, block: Block, valid: bool)
      requires Linked() && Entered(before, known, block, valid)
      ensures F.Rooted(before.tree, Genesis()) && before.tip in before.tree
      ensures var p := F.Path(before.tree, Genesis(), before.tip);
              && (fork.tip == before.tip ==> ActivePath() == p)
              && (fork.tip != before.tip && block.header.previousBlockHash == before.tip ==>
                    ActivePath() == p + [fork.tip])
              && TransactionsAlong(blocks, p) == TransactionsAlong(known, p)
    {
      hide Inv, BlockHash, Indexed, Undoable;
      if Joins(before.tip, block, valid) {
        F.StepKeepsInv(before, Genesis(), EventOf(block, valid));
      }
      F.PathStays(before.tree, fork.tree, Genesis(), before.tip);
      var p := F.Path(before.tree, Genesis(), before.tip);
      forall i | 0 <= i < |p|
        ensures p[i] in known
      {
        F.PathAt(before.tree, Genesis(), before.tip, i);
      }
    }

    /** What keeps the chain exact: the tip is not left, and what is put on it is stored whole and creates new coins. */
    ghost predicate KeepsExact(before: F.State, u: Ledger.Utxos, block: Block, valid: bool)
      reads this`fork
    {
      if block.header.previousBlockHash != before.tip then fork.tip == before.tip
      else valid ==> Undoable(codec, block)
                     && Ledger.FreshCreates(u, Ledger.BlockOperations(block.GetTransactions(), hashOf))
    }

    /** What keeps the replay accepted: that no coin is spent twice. */
    ghost predicate KeepsAccepted(before: F.State, block: Block, valid: bool) {
      block.header.previousBlockHash == before.tip && valid ==>
        Ledger.DistinctSpends(Ledger.BlockOperations(block.GetTransactions(), hashOf))
    }

    lemma EnabledNone(u: Ledger.Utxos)
      ensures Ledger.AllEnabled(u, []) && Ledger.ApplyAll(u, []) == u && Ledger.FreshCreates(u, [])
    {
    }

    /** The transactions of the active chain after a block that keeps the chain exact, and what they come to. */
    lemma RunAfter(before: F.State, known: Accepted, u: Ledger.Utxos, block: Block, valid: bool)
      requires Linked() && Entered(before, known, block, valid) && KeepsExact(before, u, block, valid)
      requires F.Rooted(before.tree, Genesis()) && before.tip in before.tree
      requires u == Ledger.After(TransactionsAlong(known, F.Path(before.tree, Genesis(), before.tip)), hashOf)
      ensures block.header.previousBlockHash == before.tip && valid ==> Undoable(codec, block)
      ensures !TookOver(before, block) && Ledger.FreshCreates(u, CoinOperations(before, block, valid))
      ensures Ledger.After(ActiveTransactions(), hashOf) == Ledger.ApplyAll(u, CoinOperations(before, block, valid))
    {
      EnabledNone(u);
      TipMoves(before, known, block, valid);
      hide Inv, BlockHash, Indexed, F.Rooted, F.Path, F.Step, F.Inv, F.Admissible, PathTo, TransactionsAlong, Undoable;
      hide Ledger.AllEnabled, Ledger.ApplyAll, Ledger.BlockOperations, Ledger.After, Ledger.FreshCreates;
      var p, ts := F.Path(before.tree, Genesis(), before.tip), block.GetTransactions();
      ActivePathAfter(before, known, block, valid);
      if fork.tip != before.tip {
        NewTipIsBlock(before, known, block, valid);
        TransactionsAlongNext(blocks, p, fork.tip);
        Ledger.AfterNext(TransactionsAlong(known, p), ts, hashOf);
      }
    }

    /** And if the block is valid and spends no coin twice, they are accepted, and every spend finds its coin. */
    lemma AcceptedAfter(before: F.State, known: Accepted, u: Ledger.Utxos, block: Block, valid: bool)
      requires Linked() && Entered(before, known, block, valid)
      requires KeepsExact(before, u, block, valid) && KeepsAccepted(before, block, valid)
      requires valid ==> Ledger.AllInputsKnown(u, block.GetTransactions())
      requires F.Rooted(before.tree, Genesis()) && before.tip in before.tree
      requires var run := TransactionsAlong(known, F.Path(before.tree, Genesis(), before.tip));
               Ledger.AcceptedRun(run, hashOf) && u == Ledger.After(run, hashOf)
      ensures Ledger.AcceptedRun(ActiveTransactions(), hashOf)
      ensures Ledger.AllEnabled(u, CoinOperations(before, block, valid))
    {
      EnabledNone(u);
      TipMoves(before, known, block, valid);
      hide Inv, BlockHash, Indexed, F.Rooted, F.Path, F.Step, F.Inv, F.Admissible, PathTo, TransactionsAlong, Undoable;
      hide Ledger.AllEnabled, Ledger.ApplyAll, Ledger.BlockOperations, Ledger.AcceptedRun, Ledger.After;
      hide Ledger.FreshCreates, Ledger.DistinctSpends, Ledger.AllSpendsIn, Ledger.AllInputsKnown;
      var p, ts := F.Path(before.tree, Genesis(), before.tip), block.GetTransactions();
      ActivePathAfter(before, known, block, valid);
      if fork.tip != before.tip {
        NewTipIsBlock(before, known, block, valid);
        TransactionsAlongNext(blocks, p, fork.tip);
        Ledger.KnownInputsAreSpends(u, ts, hashOf);
        Ledger.DistinctIsEnabled(u, Ledger.BlockOperations(ts, hashOf));
        Ledger.AcceptNext(TransactionsAlong(known, p), ts, hashOf);
      }
    }

    /** A block that is put on the tip and joins becomes the tip. */
    lemma TipMoves(before: F.State, known: Accepted, block: Block, valid: bool)
      requires Linked() && Entered(before, known, block, valid)
      ensures block.header.previousBlockHash == before.tip ==>
                (fork.tip != before.tip <==> Joins(before.tip, block, valid))
    {
      hide Inv, BlockHash, Indexed, Undoable;
      if Joins(before.tip, block, valid) {
        F.StepKeepsInv(before, Genesis(), EventOf(block, valid));
      }
    }

    /** The coins after a step that keeps the chain exact. */
    lemma CoinsAfter(levels: L.Levels, ts: seq<Transaction>, operations: seq<Ledger.Operation>)
      requires R.Clean(levels) && Ledger.FreshCreates(levels.Held(), operations)
      ensures var after := L.Run(L.Validated(levels, ts), operations);
              R.Clean(after) && after.Held() == Ledger.ApplyAll(levels.Held(), operations)
      ensures Ledger.AllEnabled(levels.Held(), operations) ==> L.RunDefined(L.Validated(levels, ts), operations)
    {
      L.ReadingHolds(levels, L.ProbedAll(levels, ts));
      R.ReadingCopies(levels, L.ProbedAll(levels, ts));
      hide L.Run, L.RunDefined, R.Clean, Ledger.ApplyAll, Ledger.AllEnabled, Ledger.FreshCreates, L.ProbedAll;
      R.FreshIsNotRecreated(levels.Held(), operations);
      R.FreshRunHolds(L.Validated(levels, ts), operations);
      if Ledger.AllEnabled(levels.Held(), operations) {
        R.EnabledRunHolds(L.Validated(levels, ts), operations);
      }
    }

    /** The history after a step. */
    lemma HistoryAfter(before: F.State, known: Accepted, past: seq<F.Event>, block: Block, valid: bool)
      requires Entered(before, known, block, valid)
      requires var initial := F.Initial(Genesis(), 0);
               before == F.Run(initial, past) && F.AllAdmissible(initial, Genesis(), past)
      requires events == past + if Joins(before.tip, block, valid) then [EventOf(block, valid)] else []
      ensures History()
    {
      hide F.Run, F.AllAdmissible, F.Inv, F.Admissible, F.Initial, BlockHash, Undoable;
      F.RunNext(F.Initial(Genesis(), 0), Genesis(), past, EventOf(block, valid));
      assert past + [] == past;
    }

    /** First seen wins: when a block of the present height was ever recorded, the tip of that time is still the tip. */
    lemma FirstSeenWins(i: nat, h: uint32)
      requires History() && i <= |events|
      requires var earlier := F.Run(F.Initial(Genesis(), 0), events[..i]);
               h in earlier.tree && earlier.tree[h].height == fork.length
      ensures F.Run(F.Initial(Genesis(), 0), events[..i]).tip == fork.tip
    {
      F.InitialInv(Genesis(), 0);
      hide F.Run, F.AllAdmissible, F.Initial, F.Inv;
      F.FirstSeenWins(F.Initial(Genesis(), 0), Genesis(), events, i, h);
    }

    /** Every location that the log ever returned still reads back its text; two in one file do not overlap. */
    lemma WrittenReadsBack(i: nat, j: nat)
      requires Linked() && i < j < |writer.written|
      ensures ReadsAs(writer.disk, Issued(writer.written, i), writer.written[i].text)
      ensures ReadsAs(writer.disk, Issued(writer.written, j), writer.written[j].text)
      ensures Issued(writer.written, i).fileName == Issued(writer.written, j).fileName ==>
                && writer.written[i].kind == writer.written[j].kind
                && Issued(writer.written, i).end <= Issued(writer.written, j).start
    {
      hide Indexed, Inv, F.Rooted, BlockHash, Run, AllFit, Write, ReadsAs;
      EveryIssueReadsBack(writer.written, i);
      EveryIssueReadsBack(writer.written, j);
      if Issued(writer.written, i).fileName == Issued(writer.written, j).fileName {
        IssuedRangesAreDisjoint(writer.written, i, j);
      }
    }

    /** What an acceptable block and the state before it bring to the step. */
    lemma BeforeStep(block: Block, valid: bool)
      requires Valid() && Tracked() && Acceptable(block)
      requires valid <==> Ledger.AllInputsKnown(coins.Utxos(), block.GetTransactions())
      ensures WasTracked(fork, blocks, coins.levels, events, exact, accepted)
      ensures F.Inv(fork, Genesis()) && F.Rooted(fork.tree, Genesis()) && fork.tip in fork.tree
      ensures blocks.Keys == fork.tree.Keys
      ensures var h := BlockHash(codec, block);
              Joins(fork.tip, block, valid) ==>
                F.Admissible(fork, Genesis(), EventOf(block, valid)) && (h in blocks ==> blocks[h] == block)
    {
      hide BlockHash, Inv, Undoable, StoreFits, BlockFits, coins.Valid, Ledger.AllInputsKnown, F.Path, F.Rooted;
      ActivePathIsPath();
      if Joins(fork.tip, block, valid) {
        DistinguishedIsAdmissible(block, EventOf(block, valid).valid);
      }
    }

    /** The hashes of the copies that the coin database gets, with version and lock time zero. */
    function PaymentNames(block: Block): (r: seq<uint32>)
      ensures |r| == |block.transactions|
      ensures forall k | 0 <= k < |r| ::
                r[k] == hashOf(Transaction(block.transactions[k].inputs, block.transactions[k].outputs, 0, 0))
    {
      P.Names(block.GetTransactions(), hashOf)
    }

    /** Blocks and coins are named by the digests of their texts. */
    lemma NamesAreDigests(b: Block, t: Transaction)
      requires Linked()
      ensures BlockHash(codec, b) == CryptCrypto.Digest(codec.encodeBlock(b))
      ensures hashOf(t) == CryptCrypto.Digest(codec.encodeTransaction(t))
    {
      hide Linked, CryptCrypto.Digest;
      LinkedHashes();
      ChainNames();
      assert codec.hash(codec.encodeBlock(b)) == CryptCrypto.Digest(codec.encodeBlock(b));
      assert codec.hash(codec.encodeTransaction(t)) == CryptCrypto.Digest(codec.encodeTransaction(t));
    }

    lemma ChainNames()
      requires Linked()
      ensures hashOf == TransactionHash(codec)
    {
      hide TransactionHash, Indexed, Inv, F.Rooted, AllFit;
    }

    /** Where the outputs of a block on the tip end up. */
    lemma BlockPlaced(levels: L.Levels, block: Block)
      requires R.Clean(levels) && P.NewOutputs(levels.Held(), block.transactions, PaymentNames(block))
      ensures var ts := block.GetTransactions();
              var after := L.Run(L.Validated(levels, ts), Ledger.BlockOperations(ts, hashOf));
              && R.Clean(after)
              && P.Leaves(levels.Held(), block.transactions, PaymentNames(block), after.Held())
    {
      var ts := block.GetTransactions();
      var after := L.Run(L.Validated(levels, ts), Ledger.BlockOperations(ts, hashOf));
      assert PaymentNames(block) == P.Names(ts, hashOf);
      L.ReadingHolds(levels, L.ProbedAll(levels, ts));
      R.ReadingCopies(levels, L.ProbedAll(levels, ts));
      hide *;
      assert forall k | 0 <= k < |ts| ::
          ts[k].inputs == block.transactions[k].inputs && ts[k].outputs == block.transactions[k].outputs;
      P.SamePlaces(levels.Held(), block.transactions, ts, P.Names(ts, hashOf), after.Held());
      R.BlockPlaces(L.Validated(levels, ts), ts, hashOf);
    }

    /** What was tracked before a step, of the state before it. */
    ghost predicate WasTracked(before: F.State, known: Accepted, levels: L.Levels, past: seq<F.Event>,
                               tracked: bool, sound: bool)
    {
      var initial := F.Initial(Genesis(), 0);
      && before == F.Run(initial, past) && F.AllAdmissible(initial, Genesis(), past)
      && F.Rooted(before.tree, Genesis()) && before.tip in before.tree
      && var run := TransactionsAlong(known, F.Path(before.tree, Genesis(), before.tip));
         && (tracked ==> R.Clean(levels) && levels.Held() == Ledger.After(run, hashOf))
         && (sound ==> tracked && Ledger.AcceptedRun(run, hashOf))
    }

    /** Tracking goes on across a step; and a step that keeps the replay accepted is defined. */
    lemma TrackStep(before: F.State, known: Accepted, levels: L.Levels, past: seq<F.Event>, tracked: bool, sound: bool,
                    ready: bool, block: Block, valid: bool)
      requires Linked() && Entered(before, known, block, valid)
      requires WasTracked(before, known, levels, past, tracked, sound)
      requires valid <==> Ledger.AllInputsKnown(levels.Held(), block.GetTransactions())
      requires coins.levels ==
               L.Run(L.Validated(levels, block.GetTransactions()), CoinOperations(before, block, valid))
      requires events == past + if Joins(before.tip, block, valid) then [EventOf(block, valid)] else []
      requires exact <==> tracked && KeepsExact(before, levels.Held(), block, valid)
      requires accepted <==> sound && exact && KeepsAccepted(before, block, valid)
      ensures Tracked() && (accepted ==> StepDefined(before, ready, levels, block, valid))
    {
      hide Linked, BlockHash, F.Path, F.Step, F.Inv, F.Admissible, F.Run, F.AllAdmissible, F.Initial, Undoable, History;
      hide L.Run, L.RunDefined, L.Validated, R.Clean, CoinOperations, TookOver, KeepsExact, KeepsAccepted;
      hide Ledger.AllEnabled, Ledger.ApplyAll, Ledger.AcceptedRun, Ledger.After, Ledger.AllInputsKnown;
      hide TransactionsAlong, Ledger.FreshCreates, ActiveTransactions, Entered, EventOf, Joins;
      HistoryAfter(before, known, past, block, valid);
      if exact {
        RunAfter(before, known, levels.Held(), block, valid);
        CoinsAfter(levels, block.GetTransactions(), CoinOperations(before, block, valid));
      }
      if accepted {
        AcceptedAfter(before, known, levels.Held(), block, valid);
      }
    }

    /** Brings what is tracked up to date. */
    ghost method Track(before: F.State, known: Accepted, levels: L.Levels, ready: bool, block: Block, valid: bool)
      requires Linked() && Entered(before, known, block, valid)
      requires WasTracked(before, known, levels, events, exact, accepted)
      requires valid <==> Ledger.AllInputsKnown(levels.Held(), block.GetTransactions())
      requires coins.levels ==
               L.Run(L.Validated(levels, block.GetTransactions()), CoinOperations(before, block, valid))
      modifies this`events, this`exact, this`accepted
      ensures Tracked() && (accepted ==> StepDefined(before, ready, levels, block, valid))
      ensures events == old(events) + if Joins(before.tip, block, valid) then [EventOf(block, valid)] else []
      ensures exact <==> old(exact) && KeepsExact(before, levels.Held(), block, valid)
      ensures accepted <==> old(accepted) && exact && KeepsAccepted(before, block, valid)
    {
      hide Linked, L.Run, L.Validated, CoinOperations, StepDefined, WasTracked, Tracked, KeepsExact, KeepsAccepted;
      hide Ledger.AllInputsKnown, Entered, Joins, EventOf;
      ghost var past, tracked, sound := events, exact, accepted;
      events := past + if Joins(before.tip, block, valid) then [EventOf(block, valid)] else [];
      exact := tracked && KeepsExact(before, levels.Held(), block, valid);
      accepted := sound && exact && KeepsAccepted(before, block, valid);
      TrackStep(before, known, levels, past, tracked, sound, ready, block, valid);
    }

    /** Which tip a step leaves, and where the outputs of a block on the tip are. */
    lemma StepOutcome(before: F.State, known: Accepted, levels: L.Levels, block: Block, valid: bool)
      requires Entered(before, known, block, valid) && block.header.previousBlockHash in before.tree
      requires coins.levels ==
               L.Run(L.Validated(levels, block.GetTransactions()), CoinOperations(before, block, valid))
      ensures var h, parent := BlockHash(codec, block), block.header.previousBlockHash;
              var grows := if parent == before.tip then valid && Undoable(codec, block)
                           else F.HeightOf(before.tree, parent) == before.length;
              && fork.tip == (if grows then h else before.tip)
              && fork.length == before.length + if grows then 1 else 0
      ensures block.header.previousBlockHash == before.tip && valid && R.Clean(levels)
              && P.NewOutputs(levels.Held(), block.transactions, PaymentNames(block)) ==>
                && R.Clean(coins.levels)
                && P.Leaves(levels.Held(), block.transactions, PaymentNames(block), coins.levels.Held())
    {
      hide L.Run, L.Validated, R.Clean, P.NewOutputs, P.Leaves, PaymentNames, BlockHash, Undoable;
      hide Ledger.BlockOperations;
      hide L.Levels.Held;
      if Joins(before.tip, block, valid) {
        TipOf(before, EventOf(block, valid));
      }
      if block.header.previousBlockHash == before.tip && valid && R.Clean(levels)
         && P.NewOutputs(levels.Held(), block.transactions, PaymentNames(block)) {
        BlockPlaced(levels, block);
      }
    }

    lemma TipOf(before: F.State, e: F.Event)
      requires F.Inv(before, Genesis()) && F.Admissible(before, Genesis(), e)
      ensures var after := F.Step(before, e);
              var grows := if e.parent == before.tip then e.valid
                           else F.HeightOf(before.tree, e.parent) == before.length;
              && after.tip == (if grows then e.hash else before.tip)
              && after.length == before.length + if grows then 1 else 0
    {
      F.StepDecides(before, Genesis(), e);
      F.StepKeepsInv(before, Genesis(), e);
      hide F.Step, F.Inv;
    }

    /** Takes one block in, and keeps track of what the coins are. */
    method HandleBlock(block: Block) returns (valid: bool, defined: bool)
      requires Valid() && Tracked() && Acceptable(block)
      modifies this, records, writer, coins, coins.database
      ensures Valid() && Tracked()
      ensures valid <==> Ledger.AllInputsKnown(old(coins.Utxos()), block.GetTransactions())
      ensures fork == F.Step(old(fork), EventOf(block, valid))
      ensures blocks == if Joins(old(fork.tip), block, valid) then old(blocks)[BlockHash(codec, block) := block]
                        else old(blocks)
      ensures coins.levels == L.Run(L.Validated(old(coins.levels), block.GetTransactions()),
                                    CoinOperations(old(fork), block, valid))
      ensures defined <==> StepDefined(old(fork), old(ActiveUndoReady()), old(coins.levels), block, valid)
      ensures writer.written == old(writer.written) + RequestsOf(old(fork.tip), block, valid)
      ensures forall k: uint32 ::
                HasUndo(records.store, k) <==>
                if k == BlockHash(codec, block) && Joins(old(fork.tip), block, valid) then
                  block.header.previousBlockHash == old(fork.tip)
                else HasUndo(old(records.store), k)
      ensures var h, parent := BlockHash(codec, block), block.header.previousBlockHash;
              var grows := if parent == old(fork.tip) then valid && Undoable(codec, block)
                           else F.HeightOf(old(fork.tree), parent) == old(fork.length);
              && parent in old(fork.tree)
              && fork.tip == (if grows then h else old(fork.tip))
              && fork.length == old(fork.length) + if grows then 1 else 0
      ensures var names := PaymentNames(block);
              && block.header.previousBlockHash == old(fork.tip) && valid && old(R.Clean(coins.levels))
              && P.NewOutputs(old(coins.Utxos()), block.transactions, names) ==>
                R.Clean(coins.levels) && P.Leaves(old(coins.Utxos()), block.transactions, names, coins.Utxos())
      ensures exact <==> old(exact) && KeepsExact(old(fork), old(coins.Utxos()), block, valid)
      ensures accepted <==> old(accepted) && exact && KeepsAccepted(old(fork), block, valid)
      ensures accepted ==> defined
      ensures events == old(events) + if Joins(old(fork.tip), block, valid) then [EventOf(block, valid)] else []
    {
      hide Linked, BlockHash, F.Path, F.Step, F.Inv, F.Admissible, PathTo, Undoable, Requests, HasUndo, StoreFits;
      hide BlockFits, coins.Valid, L.Run, L.Validated, UndoReady, CoinOperations, StepDefined, WasTracked, Tracked;
      hide KeepsExact, KeepsAccepted, Ledger.AllInputsKnown;
      ghost var before, known, levels, ready := fork, blocks, coins.levels, ActiveUndoReady();
      BeforeStep(block, Ledger.AllInputsKnown(coins.Utxos(), block.GetTransactions()));
      valid, defined := ProcessBlock(block);
      StepOutcome(before, known, levels, block, valid);
      Track(before, known, levels, ready, block, valid);
    }

    lemma ActiveFirst()
      requires Linked()
      ensures |ActiveTransactions()| > 0 && ActiveTransactions()[0] == GENESIS.GetTransactions()
    {
      hide Indexed, Inv, GENESIS, BlockHash;
      ActivePathEnd();
      F.PathAt(fork.tree, Genesis(), fork.tip, 0);
    }

    /** An exact chain of balanced transactions keeps the 600 of the genesis block in circulation. */
    lemma BalancedChainKeepsTotal()
      requires Valid() && Tracked() && accepted && Ledger.BalancedRun(ActiveTransactions(), hashOf)
      ensures Ledger.Total(coins.Utxos()) == 600
    {
      hide Indexed, Inv, coins.Valid, GENESIS, BlockHash, Ledger.AcceptedRun, Ledger.BalancedRun, Ledger.After;
      var run := ActiveTransactions();
      ActiveFirst();
      assert run[..1] == [run[0]];
      Ledger.BalancedRunKeepsTotal(run, hashOf);
      GenesisTotal(hashOf);
    }

    /** On an exact chain a coin is spent again only after it was created again. */
    lemma ChainNeverSpendsTwice(i: nat, j: nat)
      requires Valid() && Tracked() && accepted
      requires var operations := Ledger.RunOperations(ActiveTransactions(), hashOf);
               i < j < |operations| && operations[i].Spend? && operations[j] == operations[i]
      ensures var operations := Ledger.RunOperations(ActiveTransactions(), hashOf);
              exists k :: i < k < j && operations[k].Create? && operations[k].locator == operations[i].locator
    {
      hide Indexed, Inv, coins.Valid, ActiveTransactions;
      Ledger.RunNeverSpendsTwice(ActiveTransactions(), hashOf, i, j);
    }
  }
}
