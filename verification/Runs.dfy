/** Runs of a chain from the beginning, on blocks that the program accepts, that end in coins nobody would want. */
module Runs {
  import opened Types
  import opened Primitives
  import opened CoinLocator
  import opened Codec
  import opened BlockLog
  import opened ChainWriter
  import BlockIndex
  import opened Ledger
  import L = Levels
  import R = Refinement
  import F = ForkChoice
  import Chain
  import Takeover

  // ----- Room in the log -----

  predicate Small(codec: Codec, b: Block) {
    && codec.Encodes(b) && codec.EncodesUndo(UndoOf(b.transactions, TransactionHash(codec)))
    && |codec.encodeBlock(b)| + 1 <= Limit(Blocks) && |UndoText(codec, b)| + 1 <= Limit(Undos)
  }

  predicate AllSmall(requests: seq<Request>) {
    forall i | 0 <= i < |requests| :: |requests[i].text| + 1 <= Limit(requests[i].kind)
  }

  lemma {:induction false} SmallBytes(requests: seq<Request>, kind: Kind)
    requires AllSmall(requests)
    ensures BytesOf(requests, kind) <= 1000 * |requests|
  {
    if requests != [] {
      SmallBytes(requests[..|requests| - 1], kind);
    }
  }

  /** A small block fits a log in which little was written. */
  lemma SmallFits(codec: Codec, requests: seq<Request>, b: Block)
    requires Small(codec, b) && AllSmall(requests) && |requests| <= 100
    ensures StoreFits(codec, Run(requests), b) && BlockFits(codec, Run(requests), b)
    ensures AllSmall(requests + Requests(codec, b)) && |Requests(codec, b)| <= 2
    ensures AllSmall(requests + [Request(Blocks, codec.encodeBlock(b))])
  {
    hide BytesOf, UndoOf, UndoText, Undoable, Run, Fits;
    var all := requests + Requests(codec, b);
    assert AllSmall(all);
    SmallBytes(all, Blocks);
    SmallBytes(all, Undos);
    SmallBlockFits(codec, requests, b);
  }

  // ----- One block, in the three ways it can be taken in -----

  /** What the runs keep besides: there is room for more. */
  ghost predicate Going(c: Chain.Chain, blocks: nat)
    reads c, c.records, c.writer, c.coins, c.coins.database
  {
    && c.Valid() && c.Tracked()
    && AllSmall(c.writer.written) && |c.writer.written| <= 2 * blocks <= 100
  }

  /** A valid block on the tip whose undo block can be serialized. */
  method Extend(c: Chain.Chain, b: Block, ghost n: nat) returns (valid: bool, defined: bool)
    requires Going(c, n) && n < 50 && Small(c.codec, b) && Undoable(c.codec, b)
    requires b.header.previousBlockHash == c.fork.tip && c.Distinguished(b)
    requires AllInputsKnown(c.coins.Utxos(), b.GetTransactions())
    modifies c, c.records, c.writer, c.coins, c.coins.database
    ensures Going(c, n + 1) && valid
    ensures var h := BlockHash(c.codec, b);
            var operations := BlockOperations(b.GetTransactions(), c.hashOf);
            var levels := L.Validated(old(c.coins.levels), b.GetTransactions());
            && c.fork == F.State(old(c.fork.tree)[h := F.Node(old(c.fork.tip), old(c.fork.length) + 1)], h,
                                 old(c.fork.length) + 1)
            && c.blocks == old(c.blocks)[h := b]
            && c.coins.levels == L.Run(levels, operations)
            && (defined <==> L.RunDefined(levels, operations))
            && BlockIndex.HasUndo(c.records.store, h)
    ensures var operations := BlockOperations(b.GetTransactions(), c.hashOf);
            && (c.exact <==> old(c.exact) && FreshCreates(old(c.coins.Utxos()), operations))
            && (c.accepted <==> old(c.accepted) && c.exact && DistinctSpends(operations))
  {
    hide Small, AllSmall, Undoable, BlockHash, c.Linked, c.Tracked, c.coins.Valid, BlockOperations, L.Run, L.RunDefined;
    hide L.Validated, AllInputsKnown, FreshCreates, DistinctSpends, StoreFits, BlockFits, BlockIndex.HasUndo, Requests;
    KnownTip(c);
    SmallFits(c.codec, c.writer.written, b);
    valid, defined := c.HandleBlock(b);
  }

  lemma KnownTip(c: Chain.Chain)
    requires c.Valid()
    ensures c.fork.tip in c.blocks && c.writer.State() == Run(c.writer.written)
    ensures F.Rooted(c.fork.tree, c.Genesis()) && c.blocks.Keys == c.fork.tree.Keys
  {
    hide c.coins.Valid;
  }

  /** A block beside the tip that is no higher. */
  method PutAside(c: Chain.Chain, b: Block, ghost n: nat) returns (defined: bool)
    requires Going(c, n) && n < 50 && Small(c.codec, b) && c.Distinguished(b)
    requires b.header.previousBlockHash in c.fork.tree && b.header.previousBlockHash != c.fork.tip
    requires c.fork.tree[b.header.previousBlockHash].height < c.fork.length && b.transactions == []
    modifies c, c.records, c.writer, c.coins, c.coins.database
    ensures Going(c, n + 1)
    ensures var h, parent := BlockHash(c.codec, b), b.header.previousBlockHash;
            && c.fork == F.State(old(c.fork.tree)[h := F.Node(parent, old(c.fork.tree[parent].height) + 1)],
                                 old(c.fork.tip), old(c.fork.length))
            && c.blocks == old(c.blocks)[h := b]
            && c.coins.levels == old(c.coins.levels) && defined
            && forall k: uint32 | k != h ::
                 BlockIndex.HasUndo(c.records.store, k) <==> BlockIndex.HasUndo(old(c.records.store), k)
  {
    hide Small, AllSmall, Undoable, BlockHash, c.Linked, c.Tracked, c.coins.Valid, BlockOperations, L.Run, L.RunDefined;
    hide StoreFits, BlockFits, BlockIndex.HasUndo, Requests;
    KnownTip(c);
    SmallFits(c.codec, c.writer.written, b);
    NothingValidated(c.coins.levels);
    assert b.GetTransactions() == [];
    var verdict, d := c.HandleBlock(b);
    defined := d;
  }

  lemma NothingValidated(levels: L.Levels)
    ensures L.Validated(levels, []) == levels && L.Run(levels, []) == levels && L.RunDefined(levels, [])
  {
    assert levels.recorded + {} == levels.recorded;
  }

  /** A block beside the tip that is higher. */
  method Overtake(c: Chain.Chain, b: Block, ghost n: nat) returns (defined: bool)
    requires Going(c, n) && n < 50 && Small(c.codec, b) && c.Distinguished(b)
    requires b.header.previousBlockHash in c.fork.tree && b.header.previousBlockHash != c.fork.tip
    requires c.fork.tree[b.header.previousBlockHash].height == c.fork.length && b.transactions == []
    requires BlockHash(c.codec, b) !in c.blocks
    modifies c, c.records, c.writer, c.coins, c.coins.database
    ensures Going(c, n + 1)
    ensures var h, parent := BlockHash(c.codec, b), b.header.previousBlockHash;
            var tree := old(c.fork.tree)[h := F.Node(parent, old(c.fork.length) + 1)];
            var ancestor := F.Ancestor(tree, c.Genesis(), old(c.fork.tip), h);
            var operations := BlockOperations(Chain.TransactionsOf(c.blocks, ancestor), c.hashOf);
            && c.fork == F.State(tree, h, old(c.fork.length) + 1)
            && c.blocks == old(c.blocks)[h := b]
            && c.coins.levels == L.Run(old(c.coins.levels), operations)
            && (defined <==> old(c.ActiveUndoReady()) && L.RunDefined(old(c.coins.levels), operations))
  {
    hide Small, AllSmall, Undoable, BlockHash, c.Linked, c.Tracked, c.coins.Valid, BlockOperations, L.Run, L.RunDefined;
    hide StoreFits, BlockFits, BlockIndex.HasUndo, Requests, F.Ancestor, BlockIndex.UndoReady;
    KnownTip(c);
    SmallFits(c.codec, c.writer.written, b);
    NothingValidated(c.coins.levels);
    assert b.GetTransactions() == [];
    ghost var before, valid := c.fork, AllInputsKnown(c.coins.Utxos(), []);
    assert F.Step(before, c.EventOf(b, valid)) ==
           F.State(before.tree[BlockHash(c.codec, b) := F.Node(b.header.previousBlockHash, before.length + 1)],
                   BlockHash(c.codec, b), before.length + 1);
    assert c.fork.tip != BlockHash(c.codec, b);
    hide F.Step;
    var verdict, d := c.HandleBlock(b);
    defined := d;
  }

  // ----- The beginning -----

  function GenesisMap(g: uint32): Utxos {
    map[Locator(g, 0) := TransactionOutput(100, 12345), Locator(g, 1) := TransactionOutput(200, 67891),
        Locator(g, 2) := TransactionOutput(300, 23456)]
  }

  /** The three genesis coins are cached, and no transaction has a record. */
  function GenesisLevels(g: uint32): L.Levels {
    L.Levels(GenesisMap(g), map[], {}, 3)
  }

  lemma ThreeSteps(levels: L.Levels, operations: seq<Operation>)
    requires |operations| == 3
    ensures L.Run(levels, operations) == L.Next(L.Next(L.Next(levels, operations[0]), operations[1]), operations[2])
  {
    hide L.Next;
    assert operations[..3] == operations && operations[..0] == [];
    L.RunNone(levels);
    L.RunNext(levels, operations, 0);
    L.RunNext(levels, operations, 1);
    L.RunNext(levels, operations, 2);
  }

  lemma AfterGenesis(hashOf: Transaction -> uint32)
    ensures var g := Takeover.GenesisHash(hashOf);
            && L.Run(L.NOTHING, Takeover.GenesisAgain(hashOf)) == GenesisLevels(g)
            && R.Clean(GenesisLevels(g)) && GenesisLevels(g).Held() == GenesisMap(g)
  {
    Chain.GenesisOperations(hashOf);
    hide BlockOperations, Chain.GENESIS;
    ThreeSteps(L.NOTHING, Takeover.GenesisAgain(hashOf));
  }

  method Start(codec: Codec) returns (c: Chain.Chain)
    requires codec.RoundTrips() && codec.HashesByDigest() && Small(codec, Chain.GENESIS)
    ensures fresh(c) && fresh(c.records) && fresh(c.writer) && fresh(c.coins) && fresh(c.coins.database)
    ensures Going(c, 1) && c.exact && c.accepted && c.codec == codec && c.hashOf == TransactionHash(codec)
    ensures c.fork == F.Initial(BlockHash(codec, Chain.GENESIS), 0)
    ensures c.blocks == map[BlockHash(codec, Chain.GENESIS) := Chain.GENESIS]
    ensures c.coins.levels == GenesisLevels(Takeover.GenesisHash(c.hashOf))
  {
    hide Small, AllSmall, BlockHash, Chain.GENESIS, StoreFits, Requests, L.Run, BlockOperations, Run, EMPTY;
    hide BlockIndex.HasUndo;
    hide c.Linked, c.Tracked, c.coins.Valid, L.NOTHING, F.Inv, F.Initial, After, GenesisLevels;
    EmptyLog();
    SmallFits(codec, [], Chain.GENESIS);
    c := new Chain.Chain(codec);
    assert [] + Requests(codec, Chain.GENESIS) == Requests(codec, Chain.GENESIS);
    ChainHash(c);
    AfterGenesis(c.hashOf);
  }

  lemma EmptyLog()
    ensures Run([]) == EMPTY && AllSmall([])
  {
  }

  lemma ChainHash(c: Chain.Chain)
    requires c.Linked()
    ensures c.hashOf == TransactionHash(c.codec)
  {
  }

  function Child(parent: uint32, nonce: uint32, ts: seq<Transaction>): Block {
    Block(BlockHeader(1, parent, 0, 0, nonce, 0), ts)
  }

  // ----- A coin spent twice in one block -----

  /** Both inputs spend the first genesis coin, and both outputs are worth as much as it. */
  function Doubler(g: uint32): Transaction {
    Transaction([TransactionInput(g, 0, 0), TransactionInput(g, 0, 0)],
                [TransactionOutput(100, 1), TransactionOutput(100, 2)], 0, 0)
  }

  lemma OneTransaction(t: Transaction, hashOf: Transaction -> uint32)
    requires t.version == 0 && t.lockTime == 0
    ensures Child(0, 0, [t]).GetTransactions() == [t]
    ensures BlockOperations([t], hashOf) == TransactionOperations(t, hashOf)
  {
    assert [t][..0] == [] && BlockOperations([], hashOf) == [];
  }

  lemma DoublerFits(codec: Codec, parent: uint32, g: uint32)
    ensures Undoable(codec, Child(parent, 0, [Doubler(g)]))
  {
    var ts := [Doubler(g)];
    assert ts[..1] == ts && ts[..0] == [];
    assert OutputsCover(ts, 1);
    InRangeIff(ts, TransactionHash(codec));
  }

  lemma DoublerOperations(g: uint32, hashOf: Transaction -> uint32)
    ensures var h := hashOf(Doubler(g));
            TransactionOperations(Doubler(g), hashOf) ==
            [Spend(Locator(g, 0)), Spend(Locator(g, 0)),
             Create(Locator(h, 0), TransactionOutput(100, 1)), Create(Locator(h, 1), TransactionOutput(100, 2))]
  {
  }

  /** Validation finds both inputs in the cache, so it reads no record. */
  lemma DoublerValidates(g: uint32)
    ensures AllInputsKnown(GenesisMap(g), [Doubler(g)])
    ensures L.Validated(GenesisLevels(g), [Doubler(g)]) == GenesisLevels(g)
  {
    CachedValidates(g, Doubler(g));
  }

  lemma CachedValidates(g: uint32, t: Transaction)
    requires forall i | 0 <= i < |t.inputs| :: Referenced(t.inputs[i]) in GenesisMap(g)
    ensures AllInputsKnown(GenesisMap(g), [t])
    ensures L.Validated(GenesisLevels(g), [t]) == GenesisLevels(g)
  {
    AfterGenesisMap(g);
    L.CachedReadsNothing(GenesisLevels(g), t.inputs);
    hide AllKnown, L.Probed;
    assert [t][1..] == [] && L.ProbedAll(GenesisLevels(g), []) == {};
    assert L.ProbedAll(GenesisLevels(g), [t]) == {};
  }

  lemma FourOperations(u: Utxos, operations: seq<Operation>)
    requires |operations| == 4
    ensures CreatedValue(operations) == CreatedValue(operations[..3]) +
              (if operations[3].Create? then operations[3].output.amount else 0)
    ensures CreatedValue(operations[..3]) == CreatedValue(operations[..2]) +
              (if operations[2].Create? then operations[2].output.amount else 0)
    ensures LostValue(u, operations) ==
            LostValue(u, operations[..3]) + AmountIn(ApplyAll(u, operations[..3]), operations[3].locator)
    ensures LostValue(u, operations[..3]) ==
            LostValue(u, operations[..2]) + AmountIn(ApplyAll(u, operations[..2]), operations[2].locator)
  {
    assert operations[..3][..2] == operations[..2] && operations[..3][2] == operations[2];
  }

  lemma TwoSpendsValue(u: Utxos, l: Locator)
    requires l in u
    ensures LostValue(u, [Spend(l), Spend(l)]) == u[l].amount && CreatedValue([Spend(l), Spend(l)]) == 0
  {
    R.TwoSpends(u, l);
    var one, two := [Spend(l)], [Spend(l), Spend(l)];
    assert two[..|two| - 1] == one && one[..|one| - 1] == [];
    assert CreatedValue([]) == 0 && ApplyAll(u, []) == u && LostValue(u, []) == 0;
    assert one[0] == two[1] == Spend(l);
    assert CreatedValue(one) == 0;
    assert LostValue(u, one) == u[l].amount;
  }

  lemma DoublerIsFresh(g: uint32, hashOf: Transaction -> uint32)
    requires hashOf(Doubler(g)) != g
    ensures FreshCreates(GenesisMap(g), TransactionOperations(Doubler(g), hashOf))
  {
    DoublerOperations(g, hashOf);
  }

  lemma DoublerValue(g: uint32, hashOf: Transaction -> uint32)
    requires hashOf(Doubler(g)) != g
    ensures var operations := TransactionOperations(Doubler(g), hashOf);
            CreatedValue(operations) == 200 && LostValue(GenesisMap(g), operations) == 100
  {
    var u, l, operations := GenesisMap(g), Locator(g, 0), TransactionOperations(Doubler(g), hashOf);
    DoublerOperations(g, hashOf);
    hide TransactionOperations, ApplyAll, CreatedValue, LostValue;
    FourOperations(u, operations);
    assert operations[..2] == [Spend(l), Spend(l)];
    TwoSpendsValue(u, l);
    R.NotCreatedStaysOut(u, operations[..2], operations[2].locator);
    R.NotCreatedStaysOut(u, operations[..3], operations[3].locator);
  }

  /** What the block does to the genesis coins: it goes through, and leaves 100 more. */
  lemma DoublerCoins(g: uint32, hashOf: Transaction -> uint32)
    requires hashOf(Doubler(g)) != g && Total(GenesisMap(g)) == 600
    ensures var operations := TransactionOperations(Doubler(g), hashOf);
            && L.RunDefined(GenesisLevels(g), operations)
            && Total(L.Run(GenesisLevels(g), operations).Held()) == 700
  {
    hide *;
    var u, operations := GenesisMap(g), TransactionOperations(Doubler(g), hashOf);
    AfterGenesisMap(g);
    DoublerIsFresh(g, hashOf);
    DoublerValue(g, hashOf);
    R.FreshIsNotRecreated(u, operations);
    R.FreshRunHolds(GenesisLevels(g), operations);
    DoublerDefined(g, hashOf);
    TotalAlwaysChanges(u, operations);
  }

  lemma DoublerDefined(g: uint32, hashOf: Transaction -> uint32)
    requires R.Recreated(GenesisMap(g), TransactionOperations(Doubler(g), hashOf)) == {}
    ensures L.RunDefined(GenesisLevels(g), TransactionOperations(Doubler(g), hashOf))
  {
    hide *;
    var l, operations := Locator(g, 0), TransactionOperations(Doubler(g), hashOf);
    AfterGenesisMap(g);
    DoublerOperations(g, hashOf);
    R.FreshRunDefinedIff(GenesisLevels(g), operations);
    R.SpendKeepsRecords(GenesisLevels(g), l);
    assert operations[..0] == [Spend(l), Spend(l)][..0] && operations[..1] == [Spend(l), Spend(l)][..1];
  }

  lemma AfterGenesisMap(g: uint32)
    ensures R.Clean(GenesisLevels(g)) && GenesisLevels(g).Held() == GenesisMap(g)
    ensures GenesisLevels(g).recorded == {}
  {
  }

  lemma GenesisMapTotal(hashOf: Transaction -> uint32)
    ensures Total(GenesisMap(Takeover.GenesisHash(hashOf))) == 600
  {
    hide *;
    Chain.GenesisTotal(hashOf);
    Chain.GenesisLevels(hashOf);
    AfterGenesis(hashOf);
    AgainIs(hashOf);
  }

  lemma AgainIs(hashOf: Transaction -> uint32)
    ensures Takeover.GenesisAgain(hashOf) == BlockOperations(Chain.GENESIS.GetTransactions(), hashOf)
  {
  }

  function DoublerBlock(codec: Codec): Block {
    Child(BlockHash(codec, Chain.GENESIS), 0, [Doubler(Takeover.GenesisHash(TransactionHash(codec)))])
  }

  lemma DoublerBlockFacts(codec: Codec)
    requires var g := Takeover.GenesisHash(TransactionHash(codec)); TransactionHash(codec)(Doubler(g)) != g
    ensures var b, levels := DoublerBlock(codec), GenesisLevels(Takeover.GenesisHash(TransactionHash(codec)));
            var operations := BlockOperations(b.GetTransactions(), TransactionHash(codec));
            && b.header.previousBlockHash == BlockHash(codec, Chain.GENESIS) && Undoable(codec, b)
            && AllInputsKnown(levels.Held(), b.GetTransactions()) && FreshCreates(levels.Held(), operations)
            && L.RunDefined(L.Validated(levels, b.GetTransactions()), operations)
            && Total(L.Run(L.Validated(levels, b.GetTransactions()), operations).Held()) == 700
  {
    var hashOf := TransactionHash(codec);
    var g := Takeover.GenesisHash(hashOf);
    OneTransaction(Doubler(g), hashOf);
    assert DoublerBlock(codec).GetTransactions() == [Doubler(g)];
    assert DoublerBlock(codec).header.previousBlockHash == BlockHash(codec, Chain.GENESIS);
    DoublerFits(codec, BlockHash(codec, Chain.GENESIS), g);
    hide *;
    GenesisMapTotal(hashOf);
    AfterGenesisMap(g);
    DoublerValidates(g);
    DoublerIsFresh(g, hashOf);
    DoublerCoins(g, hashOf);
  }

  lemma ReplayedCoins(c: Chain.Chain)
    requires c.Tracked() && c.exact
    ensures c.coins.Utxos() == After(c.ActiveTransactions(), c.hashOf)
  {
  }

  /** A block that spends the first genesis coin twice is valid, becomes the tip, and puts 100 more in circulation. */
  method DoubleSpendGoesThrough(codec: Codec) returns (c: Chain.Chain, valid: bool, defined: bool)
    requires codec.RoundTrips() && codec.HashesByDigest()
    requires Small(codec, Chain.GENESIS) && Small(codec, DoublerBlock(codec))
    requires BlockHash(codec, DoublerBlock(codec)) != BlockHash(codec, Chain.GENESIS)
    requires var g := Takeover.GenesisHash(TransactionHash(codec)); TransactionHash(codec)(Doubler(g)) != g
    ensures c.Valid() && valid && defined
    ensures c.fork.tip == BlockHash(codec, DoublerBlock(codec)) && c.fork.length == 2
    ensures c.blocks[c.fork.tip] == DoublerBlock(codec) && Total(c.coins.Utxos()) == 700
    ensures c.exact && c.coins.Utxos() == After(c.ActiveTransactions(), c.hashOf)
  {
    hide Small, Undoable, BlockHash, L.Run, L.RunDefined, BlockOperations, AllInputsKnown, Chain.GENESIS, DoublerBlock;
    hide GenesisLevels, Total, L.Validated, FreshCreates, DistinctSpends, BlockIndex.HasUndo, TransactionHash, AllSmall;
    hide c.Linked, c.Tracked, c.coins.Valid, F.Inv, Takeover.GenesisHash, Doubler, After, c.ActiveTransactions;
    DoublerBlockFacts(codec);
    c := Start(codec);
    valid, defined := Extend(c, DoublerBlock(codec), 1);
    ReplayedCoins(c);
  }

  // ----- A payment of two coins into one -----

  /** Two inputs and one output of the same value. */
  function Joiner(g: uint32): Transaction {
    Transaction([TransactionInput(g, 0, 0), TransactionInput(g, 1, 0)], [TransactionOutput(300, 1)], 0, 0)
  }

  function JoinerBlock(codec: Codec): Block {
    Child(BlockHash(codec, Chain.GENESIS), 0, [Joiner(Takeover.GenesisHash(TransactionHash(codec)))])
  }

  /** There is one amount for two indices, so serializing the undo record reads past the end. */
  lemma JoinerDoesNotFit(codec: Codec, parent: uint32, g: uint32)
    ensures !Undoable(codec, Child(parent, 0, [Joiner(g)]))
  {
    var ts := [Joiner(g)];
    assert ts[..1] == ts && ts[..0] == [];
    assert AllInputs(ts) == AllInputs([]) + ts[0].inputs && AllOutputs(ts) == AllOutputs([]) + ts[0].outputs;
    assert !OutputsCover(ts, 1);
    InRangeIff(ts, TransactionHash(codec));
  }

  lemma JoinerCoins(g: uint32, hashOf: Transaction -> uint32)
    requires hashOf(Joiner(g)) != g
    ensures var operations := TransactionOperations(Joiner(g), hashOf);
            var after := L.Run(GenesisLevels(g), operations).Held();
            L.RunDefined(GenesisLevels(g), operations) && Locator(g, 0) !in after && Locator(g, 1) !in after
  {
    var operations := TransactionOperations(Joiner(g), hashOf);
    assert operations == [Spend(Locator(g, 0)), Spend(Locator(g, 1)),
                          Create(Locator(hashOf(Joiner(g)), 0), TransactionOutput(300, 1))];
    assert Accepted(GenesisMap(g), operations);
    hide *;
    AfterGenesisMap(g);
    DistinctIsEnabled(GenesisMap(g), operations);
    R.EnabledRunHolds(GenesisLevels(g), operations);
    AcceptedIsDistinct(GenesisMap(g), operations);
    R.LastOnLocator(GenesisMap(g), operations, 0);
    R.LastOnLocator(GenesisMap(g), operations, 1);
  }

  lemma JoinerBlockFacts(codec: Codec)
    requires var g := Takeover.GenesisHash(TransactionHash(codec)); TransactionHash(codec)(Joiner(g)) != g
    ensures var g := Takeover.GenesisHash(TransactionHash(codec));
            var b, levels := JoinerBlock(codec), GenesisLevels(g);
            var operations := BlockOperations(b.GetTransactions(), TransactionHash(codec));
            var after := L.Run(L.Validated(levels, b.GetTransactions()), operations).Held();
            && b.header.previousBlockHash == BlockHash(codec, Chain.GENESIS) && !Undoable(codec, b)
            && AllInputsKnown(levels.Held(), b.GetTransactions())
            && Locator(g, 0) !in after && Locator(g, 1) !in after
  {
    var hashOf := TransactionHash(codec);
    var g := Takeover.GenesisHash(hashOf);
    OneTransaction(Joiner(g), hashOf);
    assert JoinerBlock(codec).GetTransactions() == [Joiner(g)];
    assert JoinerBlock(codec).header.previousBlockHash == BlockHash(codec, Chain.GENESIS);
    assert forall i | 0 <= i < |Joiner(g).inputs| :: Referenced(Joiner(g).inputs[i]) in GenesisMap(g);
    JoinerDoesNotFit(codec, BlockHash(codec, Chain.GENESIS), g);
    hide *;
    AfterGenesisMap(g);
    CachedValidates(g, Joiner(g));
    JoinerCoins(g, hashOf);
  }

  /** A valid block on the tip whose undo block can not be serialized. */
  method TryExtend(c: Chain.Chain, b: Block, ghost n: nat) returns (valid: bool, defined: bool)
    requires Going(c, n) && n < 50 && Small(c.codec, b) && !Undoable(c.codec, b)
    requires b.header.previousBlockHash == c.fork.tip && c.Distinguished(b)
    requires AllInputsKnown(c.coins.Utxos(), b.GetTransactions())
    modifies c, c.records, c.writer, c.coins, c.coins.database
    ensures Going(c, n + 1) && valid && !defined
    ensures c.fork == old(c.fork) && c.blocks == old(c.blocks)
    ensures c.writer.written == old(c.writer.written) + [Request(Blocks, c.codec.encodeBlock(b))]
    ensures c.coins.levels == L.Run(L.Validated(old(c.coins.levels), b.GetTransactions()),
                                    BlockOperations(b.GetTransactions(), c.hashOf))
  {
    hide Small, AllSmall, Undoable, BlockHash, c.Linked, c.Tracked, c.coins.Valid, BlockOperations, L.Run, L.RunDefined;
    hide L.Validated, AllInputsKnown, StoreFits, BlockFits, BlockIndex.HasUndo, Requests;
    KnownTip(c);
    BlockAlone(c.codec, b);
    SmallFits(c.codec, c.writer.written, b);
    valid, defined := c.HandleBlock(b);
  }

  lemma BlockAlone(codec: Codec, b: Block)
    requires !Undoable(codec, b)
    ensures Requests(codec, b) == [Request(Blocks, codec.encodeBlock(b))]
  {
  }

  /** A valid block that pays two coins into one: out of range, and the coins have moved where the tip has not. */
  method JoiningIsUndefined(codec: Codec) returns (c: Chain.Chain, valid: bool, defined: bool)
    requires codec.RoundTrips() && codec.HashesByDigest()
    requires Small(codec, Chain.GENESIS) && Small(codec, JoinerBlock(codec))
    requires BlockHash(codec, JoinerBlock(codec)) != BlockHash(codec, Chain.GENESIS)
    requires var g := Takeover.GenesisHash(TransactionHash(codec)); TransactionHash(codec)(Joiner(g)) != g
    ensures c.Valid() && valid && !defined
    ensures c.fork.tip == BlockHash(codec, Chain.GENESIS) && BlockHash(codec, JoinerBlock(codec)) !in c.blocks
    ensures |c.writer.written| > 0
            && c.writer.written[|c.writer.written| - 1] == Request(Blocks, codec.encodeBlock(JoinerBlock(codec)))
    ensures var g := Takeover.GenesisHash(TransactionHash(codec));
            Locator(g, 0) !in c.coins.Utxos() && Locator(g, 1) !in c.coins.Utxos()
  {
    hide Small, Undoable, BlockHash, L.Run, L.RunDefined, BlockOperations, AllInputsKnown, Chain.GENESIS, JoinerBlock;
    hide GenesisLevels, L.Validated, BlockIndex.HasUndo, TransactionHash, AllSmall;
    hide c.Linked, c.Tracked, c.coins.Valid, F.Inv, Takeover.GenesisHash, Joiner;
    JoinerBlockFacts(codec);
    c := Start(codec);
    valid, defined := TryExtend(c, JoinerBlock(codec), 1);
  }

  // ----- A takeover from the genesis block -----

  /** Spends all three genesis coins, for coins of the same value. */
  function Spender(g: uint32): Transaction {
    Transaction([TransactionInput(g, 0, 0), TransactionInput(g, 1, 0), TransactionInput(g, 2, 0)],
                [TransactionOutput(100, 1), TransactionOutput(200, 2), TransactionOutput(300, 3)], 0, 0)
  }

  lemma SpenderFits(codec: Codec, parent: uint32, g: uint32)
    ensures Undoable(codec, Child(parent, 0, [Spender(g)]))
  {
    var ts := [Spender(g)];
    assert ts[..1] == ts && ts[..0] == [];
    assert OutputsCover(ts, 1);
    InRangeIff(ts, TransactionHash(codec));
  }

  lemma SpenderOperations(g: uint32, hashOf: Transaction -> uint32)
    ensures var h := hashOf(Spender(g));
            var spends, creates := Spends(Spender(g).inputs), Creates(h, Spender(g).outputs);
            && TransactionOperations(Spender(g), hashOf) == spends + creates
            && spends == [Spend(Locator(g, 0)), Spend(Locator(g, 1)), Spend(Locator(g, 2))]
            && creates == [Create(Locator(h, 0), TransactionOutput(100, 1)),
                           Create(Locator(h, 1), TransactionOutput(200, 2)),
                           Create(Locator(h, 2), TransactionOutput(300, 3))]
  {
  }

  lemma SpenderAccepted(g: uint32, hashOf: Transaction -> uint32)
    requires hashOf(Spender(g)) != g
    ensures Accepted(GenesisMap(g), TransactionOperations(Spender(g), hashOf))
    ensures AllEnabled(GenesisMap(g), TransactionOperations(Spender(g), hashOf))
  {
    SpenderOperations(g, hashOf);
    hide TransactionOperations, AllEnabled;
    assert Accepted(GenesisMap(g), TransactionOperations(Spender(g), hashOf));
    DistinctIsEnabled(GenesisMap(g), TransactionOperations(Spender(g), hashOf));
  }

  lemma SpentInThree(u: Utxos, operations: seq<Operation>)
    requires |operations| == 3 && operations[0].Spend? && operations[1].Spend? && operations[2].Spend?
    ensures SpentValue(u, operations) ==
            AmountIn(u, operations[0].locator) + AmountIn(u, operations[1].locator) + AmountIn(u, operations[2].locator)
  {
    var one, two := operations[..1], operations[..2];
    assert operations[..|operations| - 1] == two && two[..|two| - 1] == one && one[..|one| - 1] == [];
    assert one[0] == operations[0] && two[1] == operations[1];
    assert SpentValue(u, one) == AmountIn(u, operations[0].locator);
    assert SpentValue(u, two) == AmountIn(u, operations[0].locator) + AmountIn(u, operations[1].locator);
  }

  lemma SpenderValue(g: uint32, hashOf: Transaction -> uint32)
    ensures var operations := TransactionOperations(Spender(g), hashOf);
            CreatedValue(operations) == 600 && SpentValue(GenesisMap(g), operations) == 600
  {
    var u, t := GenesisMap(g), Spender(g);
    var spends, creates := Spends(t.inputs), Creates(hashOf(t), t.outputs);
    SpenderOperations(g, hashOf);
    hide TransactionOperations, CreatedValue, SpentValue, Spends, Creates;
    ValuesAppend(u, spends, creates);
    PureOperations(u, hashOf(t), t.inputs, t.outputs);
    SpentInThree(u, spends);
    Chain.ThreeCreated(u, creates);
  }

  lemma GenesisIsGone(g: uint32, hashOf: Transaction -> uint32)
    requires hashOf(Spender(g)) != g
    ensures var u := ApplyAll(GenesisMap(g), TransactionOperations(Spender(g), hashOf));
            Locator(g, 0) !in u && Locator(g, 1) !in u && Locator(g, 2) !in u
  {
    var operations := TransactionOperations(Spender(g), hashOf);
    SpenderAccepted(g, hashOf);
    AcceptedIsDistinct(GenesisMap(g), operations);
    SpenderOperations(g, hashOf);
    hide TransactionOperations, ApplyAll, GenesisMap, Accepted, AllEnabled;
    R.LastOnLocator(GenesisMap(g), operations, 0);
    R.LastOnLocator(GenesisMap(g), operations, 1);
    R.LastOnLocator(GenesisMap(g), operations, 2);
  }

  lemma GenesisIsFresh(u: Utxos, hashOf: Transaction -> uint32)
    requires var g := Takeover.GenesisHash(hashOf); Locator(g, 0) !in u && Locator(g, 1) !in u && Locator(g, 2) !in u
    ensures FreshCreates(u, Takeover.GenesisAgain(hashOf)) && LostValue(u, Takeover.GenesisAgain(hashOf)) == 0
  {
    Chain.GenesisOperations(hashOf);
    hide BlockOperations, Chain.GENESIS, LostValue, FoundValue;
    Takeover.FoundInThree(u, Takeover.GenesisAgain(hashOf));
    DistinctLosesFound(u, Takeover.GenesisAgain(hashOf));
  }

  /** The coins after the spending block, and after the genesis block was stored again on top of it. */
  lemma SpenderCoins(hashOf: Transaction -> uint32)
    requires var g := Takeover.GenesisHash(hashOf); hashOf(Spender(g)) != g
    ensures var g := Takeover.GenesisHash(hashOf);
            var levels := L.Run(GenesisLevels(g), TransactionOperations(Spender(g), hashOf));
            && L.RunDefined(levels, Takeover.GenesisAgain(hashOf))
            && Total(L.Run(levels, Takeover.GenesisAgain(hashOf)).Held()) == 1200
  {
    hide *;
    var g, again := Takeover.GenesisHash(hashOf), Takeover.GenesisAgain(hashOf);
    var operations := TransactionOperations(Spender(g), hashOf);
    var levels, u := L.Run(GenesisLevels(g), operations), ApplyAll(GenesisMap(g), operations);
    AfterGenesisMap(g);
    SpenderAccepted(g, hashOf);
    R.EnabledRunHolds(GenesisLevels(g), operations);
    GenesisMapTotal(hashOf);
    SpenderValue(g, hashOf);
    TotalChanges(GenesisMap(g), operations);
    GenesisIsGone(g, hashOf);
    GenesisIsFresh(u, hashOf);
    R.FreshIsNotRecreated(u, again);
    R.FreshRunHolds(levels, again);
    Takeover.GenesisHasNoSpend(hashOf, levels);
    TotalAlwaysChanges(u, again);
    AgainIs(hashOf);
    Chain.GenesisValues(u, hashOf);
  }

  /** The tree of the run: a block on the genesis block, and a branch of two beside it. */
  function Fork(g: uint32, a: uint32, b: uint32, c: uint32): F.Tree {
    map[g := F.Node(0, 1), a := F.Node(g, 2), b := F.Node(g, 2), c := F.Node(b, 3)]
  }

  lemma ForkPaths(t: F.Tree, g: uint32, a: uint32, b: uint32, c: uint32)
    requires g != a && g != b && g != c && a != b && a != c && b != c
    requires t == Fork(g, a, b, c) && F.Rooted(t, g)
    ensures F.Path(t, g, a) == [g, a] && F.Path(t, g, c) == [g, b, c]
    ensures F.Ancestor(t, g, a, c) == g
  {
    assert F.Anchored(t, g, a) && F.Anchored(t, g, b) && F.Anchored(t, g, c);
    assert F.Path(t, g, g) == [g] && F.Path(t, g, b) == [g, b];
    var p, q := F.Path(t, g, a), F.Path(t, g, c);
    assert p[1..] == [a] && q[1..] == [b, c];
    assert F.Mismatch(p[1..], q[1..]) == 0;
  }

  lemma ForkAncestor(t: F.Tree, g: uint32, a: uint32, b: uint32, c: uint32)
    requires g != a && g != b && g != c && a != b && a != c && b != c
    requires t == map[g := F.Node(0, 1), a := F.Node(g, 2), b := F.Node(g, 2)]
    ensures t[c := F.Node(b, 3)] == Fork(g, a, b, c)
    ensures F.Ancestor(t[c := F.Node(b, 3)], g, a, c) == g
  {
    ForkRooted(g, a, b, c);
    hide F.Rooted, F.Ancestor;
    ForkPaths(Fork(g, a, b, c), g, a, b, c);
  }

  lemma ForkRooted(g: uint32, a: uint32, b: uint32, c: uint32)
    requires g != a && g != b && g != c && a != b && a != c && b != c
    ensures F.Rooted(Fork(g, a, b, c), g)
  {
  }

  lemma ForkActive(c: Chain.Chain, g: uint32, a: uint32, b: uint32)
    requires c.Linked() && c.Genesis() == g && g != a && g != b && a != b
    requires c.fork.tip == a && c.fork.tree == map[g := F.Node(0, 1), a := F.Node(g, 2), b := F.Node(g, 2)]
    requires BlockIndex.HasUndo(c.records.store, a) && c.blocks[a].transactions != []
    ensures c.ActiveUndoReady()
  {
    hide BlockIndex.Indexed, Inv, BlockHash, BlockIndex.HasUndo;
    assert F.Anchored(c.fork.tree, g, a) && F.Anchored(c.fork.tree, g, g);
    assert F.Path(c.fork.tree, g, g) == [g];
    assert c.ActivePath() == [g, a];
    c.PathStep(a, 1);
  }

  function SpenderBlock(codec: Codec): Block {
    Child(BlockHash(codec, Chain.GENESIS), 0, [Spender(Takeover.GenesisHash(TransactionHash(codec)))])
  }

  function SideBlock(codec: Codec): Block {
    Child(BlockHash(codec, Chain.GENESIS), 1, [])
  }

  function TopBlock(codec: Codec): Block {
    Child(BlockHash(codec, SideBlock(codec)), 2, [])
  }

  /** The four blocks are small and have different hashes. */
  predicate FourBlocks(codec: Codec, g: uint32, a: uint32, b: uint32, c: uint32) {
    && Small(codec, Chain.GENESIS) && g == BlockHash(codec, Chain.GENESIS)
    && Small(codec, SpenderBlock(codec)) && a == BlockHash(codec, SpenderBlock(codec))
    && Small(codec, SideBlock(codec)) && b == BlockHash(codec, SideBlock(codec))
    && Small(codec, TopBlock(codec)) && c == BlockHash(codec, TopBlock(codec))
    && g != a && g != b && g != c && a != b && a != c && b != c
  }

  lemma SpenderBlockFacts(codec: Codec)
    requires var g := Takeover.GenesisHash(TransactionHash(codec)); TransactionHash(codec)(Spender(g)) != g
    ensures var b, levels := SpenderBlock(codec), GenesisLevels(Takeover.GenesisHash(TransactionHash(codec)));
            var operations := BlockOperations(b.GetTransactions(), TransactionHash(codec));
            var now := L.Validated(levels, b.GetTransactions());
            && b.header.previousBlockHash == BlockHash(codec, Chain.GENESIS)
            && Undoable(codec, b) && b.transactions != []
            && AllInputsKnown(levels.Held(), b.GetTransactions()) && L.RunDefined(now, operations)
            && L.RunDefined(L.Run(now, operations), Takeover.GenesisAgain(TransactionHash(codec)))
            && Total(L.Run(L.Run(now, operations), Takeover.GenesisAgain(TransactionHash(codec))).Held()) == 1200
  {
    var hashOf := TransactionHash(codec);
    var g := Takeover.GenesisHash(hashOf);
    var t := Spender(g);
    assert [t][..0] == [] && BlockOperations([], hashOf) == [];
    assert BlockOperations([t], hashOf) == TransactionOperations(t, hashOf);
    assert SpenderBlock(codec).GetTransactions() == [t];
    assert SpenderBlock(codec).header.previousBlockHash == BlockHash(codec, Chain.GENESIS);
    assert forall i | 0 <= i < |t.inputs| :: Referenced(t.inputs[i]) in GenesisMap(g);
    SpenderFits(codec, BlockHash(codec, Chain.GENESIS), g);
    hide *;
    AfterGenesisMap(g);
    CachedValidates(g, t);
    SpenderAccepted(g, hashOf);
    R.EnabledRunHolds(GenesisLevels(g), TransactionOperations(t, hashOf));
    SpenderCoins(hashOf);
  }

  /** The genesis block and two without transactions leave the genesis coins. */
  lemma EmptyBlocks(codec: Codec)
    ensures var now := [Chain.GENESIS.GetTransactions(), [], []];
            Total(After(now, TransactionHash(codec))) == 600
  {
    var hashOf, genesis := TransactionHash(codec), Chain.GENESIS.GetTransactions();
    hide Chain.GENESIS, Total, ApplyAll;
    assert [genesis, [], []][..2] == [genesis, []] && [genesis, []][..1] == [genesis];
    assert RunOperations([genesis, []], hashOf) == RunOperations([genesis], hashOf);
    assert RunOperations([genesis, [], []], hashOf) == RunOperations([genesis], hashOf);
    Chain.GenesisTotal(hashOf);
  }

  /** The branch that takes over. */
  lemma ForkTransactions(c: Chain.Chain, g: uint32, a: uint32, b: uint32, h: uint32)
    requires c.Linked() && FourBlocks(c.codec, g, a, b, h)
    requires c.fork.tree == Fork(g, a, b, h) && c.fork.tip == h
    requires c.blocks ==
             map[g := Chain.GENESIS, a := SpenderBlock(c.codec), b := SideBlock(c.codec), h := TopBlock(c.codec)]
    ensures c.ActiveTransactions() == [Chain.GENESIS.GetTransactions(), [], []]
  {
    hide BlockIndex.Indexed, Inv, BlockHash, Small, Chain.GENESIS, SpenderBlock;
    ForkPaths(c.fork.tree, g, a, b, h);
    assert c.ActivePath() == [g, b, h];
    assert SideBlock(c.codec).GetTransactions() == [] && TopBlock(c.codec).GetTransactions() == [];
  }

  lemma HeadersOfFork(codec: Codec)
    ensures SideBlock(codec).header.previousBlockHash == BlockHash(codec, Chain.GENESIS)
    ensures TopBlock(codec).header.previousBlockHash == BlockHash(codec, SideBlock(codec))
    ensures SideBlock(codec).transactions == [] == TopBlock(codec).transactions
    ensures SpenderBlock(codec).transactions != []
  {
  }

  /** The coins after the block that spends the genesis coins. */
  function SpentLevels(codec: Codec): L.Levels {
    var ts := SpenderBlock(codec).GetTransactions();
    L.Run(L.Validated(GenesisLevels(Takeover.GenesisHash(TransactionHash(codec))), ts),
          BlockOperations(ts, TransactionHash(codec)))
  }

  /** The chain after the first of the three blocks. */
  ghost predicate SpentAll(c: Chain.Chain, g: uint32, a: uint32)
    reads c, c.records, c.coins
  {
    && c.hashOf == TransactionHash(c.codec)
    && c.fork == F.State(map[g := F.Node(0, 1), a := F.Node(g, 2)], a, 2)
    && c.blocks == map[g := Chain.GENESIS, a := SpenderBlock(c.codec)]
    && c.coins.levels == SpentLevels(c.codec) && BlockIndex.HasUndo(c.records.store, a)
  }

  /** And after the second. */
  ghost predicate Branched(c: Chain.Chain, g: uint32, a: uint32, b: uint32)
    reads c, c.records, c.coins
  {
    && c.hashOf == TransactionHash(c.codec)
    && c.fork == F.State(map[g := F.Node(0, 1), a := F.Node(g, 2), b := F.Node(g, 2)], a, 2)
    && c.blocks == map[g := Chain.GENESIS, a := SpenderBlock(c.codec), b := SideBlock(c.codec)]
    && c.coins.levels == SpentLevels(c.codec) && c.ActiveUndoReady()
  }

  method SpendAll(codec: Codec, ghost g: uint32, ghost a: uint32) returns (c: Chain.Chain, defined: bool)
    requires codec.RoundTrips() && codec.HashesByDigest()
    requires Small(codec, Chain.GENESIS) && Small(codec, SpenderBlock(codec))
    requires g == BlockHash(codec, Chain.GENESIS) != BlockHash(codec, SpenderBlock(codec)) == a
    requires var m := Takeover.GenesisHash(TransactionHash(codec)); TransactionHash(codec)(Spender(m)) != m
    ensures fresh(c) && fresh(c.records) && fresh(c.writer) && fresh(c.coins) && fresh(c.coins.database)
    ensures Going(c, 2) && defined && c.codec == codec && SpentAll(c, g, a)
  {
    hide Small, Undoable, BlockHash, L.Run, L.RunDefined, BlockOperations, AllInputsKnown, Chain.GENESIS, SpenderBlock;
    hide GenesisLevels, Total, L.Validated, FreshCreates, DistinctSpends, BlockIndex.HasUndo, TransactionHash, AllSmall;
    hide c.Linked, c.Tracked, c.coins.Valid, F.Inv, Takeover.GenesisHash, Spender;
    SpenderBlockFacts(codec);
    c := Start(codec);
    var valid, spent := Extend(c, SpenderBlock(codec), 1);
    defined := spent;
  }

  method SpendAllAndBranch(codec: Codec, ghost g: uint32, ghost a: uint32, ghost b: uint32, ghost h: uint32)
    returns (c: Chain.Chain, defined: bool)
    requires codec.RoundTrips() && codec.HashesByDigest() && FourBlocks(codec, g, a, b, h)
    requires var m := Takeover.GenesisHash(TransactionHash(codec)); TransactionHash(codec)(Spender(m)) != m
    ensures fresh(c) && fresh(c.records) && fresh(c.writer) && fresh(c.coins) && fresh(c.coins.database)
    ensures Going(c, 3) && defined && c.codec == codec && Branched(c, g, a, b)
  {
    hide Small, Undoable, BlockHash, AllInputsKnown, Chain.GENESIS, SpenderBlock, SpentLevels, L.Run;
    hide BlockIndex.HasUndo, TransactionHash, AllSmall, BlockIndex.UndoReady, F.Rooted, c.ActivePath;
    hide c.Linked, c.Tracked, c.coins.Valid, F.Inv, Takeover.GenesisHash, Spender, SideBlock, TopBlock;
    HeadersOfFork(codec);
    var spent;
    c, spent := SpendAll(codec, g, a);
    var aside := PutAside(c, SideBlock(codec), 2);
    ForkActive(c, g, a, b);
    defined := spent && aside;
  }

  lemma SpentThenGenesis(codec: Codec)
    requires var m := Takeover.GenesisHash(TransactionHash(codec)); TransactionHash(codec)(Spender(m)) != m
    ensures var again := BlockOperations(Chain.GENESIS.GetTransactions(), TransactionHash(codec));
            && L.RunDefined(SpentLevels(codec), again)
            && Total(L.Run(SpentLevels(codec), again).Held()) == 1200
  {
    hide L.Run, L.RunDefined, BlockOperations, Total, L.Validated, Chain.GENESIS, SpenderBlock, GenesisLevels;
    SpenderBlockFacts(codec);
  }

  /**
   * A block spends the genesis coins; two blocks without transactions, beside it, take over. All of it is defined, and
   * the value in circulation is 1200, where the transactions of the active chain come to 600.
   */
  method TakeoverMints(codec: Codec, ghost g: uint32, ghost a: uint32, ghost b: uint32, ghost h: uint32)
    returns (c: Chain.Chain, defined: bool)
    requires codec.RoundTrips() && codec.HashesByDigest() && FourBlocks(codec, g, a, b, h)
    requires var m := Takeover.GenesisHash(TransactionHash(codec)); TransactionHash(codec)(Spender(m)) != m
    ensures c.Valid() && defined && c.fork.tip == h && c.fork.length == 3
    ensures c.ActiveTransactions() == [Chain.GENESIS.GetTransactions(), [], []]
    ensures Total(c.coins.Utxos()) == 1200 && Total(After(c.ActiveTransactions(), c.hashOf)) == 600
  {
    hide Small, Undoable, BlockHash, L.Run, L.RunDefined, BlockOperations, AllInputsKnown, Chain.GENESIS, SpenderBlock;
    hide Total, SpentLevels, BlockIndex.HasUndo, TransactionHash, AllSmall, c.ActivePath, c.ActiveTransactions, Fork;
    hide c.Linked, c.Tracked, c.coins.Valid, F.Inv, Takeover.GenesisHash, Spender, SideBlock, TopBlock, After;
    hide BlockIndex.UndoReady, F.Rooted, F.Ancestor;
    SpentThenGenesis(codec);
    EmptyBlocks(codec);
    HeadersOfFork(codec);
    var before;
    c, before := SpendAllAndBranch(codec, g, a, b, h);
    ForkAncestor(c.fork.tree, g, a, b, h);
    var over := Overtake(c, TopBlock(codec), 3);
    ForkTransactions(c, g, a, b, h);
    defined := before && over;
  }
}
