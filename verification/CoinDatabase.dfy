/**
 * The coin database: a write-back cache over a record store, plus the mempool. In every state the two levels show the
 * abstract levels, and each method takes them exactly the steps it should; where the program would reach past the end
 * of a vector, the method says so in its result.
 */
module CoinDatabase {
  import opened Types
  import opened Primitives
  import opened CoinLocator
  import opened Ledger
  import opened Levels
  import opened Placement
  import opened CoinStore
  import Codec
  import Refinement
  import Database
  import Decimal

  lemma RemovedSize<K, V>(m: map<K, V>, gone: set<K>)
    ensures |m - gone| <= |m|
  {
    var left := (m - gone).Keys;
    assert left + (m.Keys - left) == m.Keys;
  }

  lemma RemovedTwice<K, V>(m: map<K, V>, gone: set<K>, k: K)
    ensures m - gone - {k} == m - (gone + {k})
  {
  }

  /** std::unordered_map::insert: an existing entry stays. */
  method Inserted(cache: Cache, ghost cached: Utxos, key: string, ghost l: Locator, output: TransactionOutput)
    returns (r: Cache)
    requires ShowsCached(cache, cached) && key == Serialize(l)
    ensures |r| <= |cache| + 1
    ensures ShowsCached(r, if l in cached then cached else cached[l := output])
  {
    hide ShowsCached, Serialize;
    CachedIff(cache, cached, l);
    r := cache;
    if key !in cache {
      CreateCached(cache, cached, l, output);
      r := cache[key := Coin(output, false)];
      assert r.Keys == cache.Keys + {key};
    }
  }

  class CoinDatabase {
    const database: Database.Database<CoinRecord>
    const hashOf: Transaction -> uint32
    var mainCache: Cache
    var mainCacheSize: uint16
    var mempoolCache: map<uint32, Transaction>
    var mempoolSize: uint16

    /** The levels that cache and records show. */
    ghost var levels: Levels

    /** Neither counter is ever below what it counts, nor above the capacity. */
    ghost predicate Valid()
      reads this, database
    {
      && |mainCache| <= mainCacheSize <= CAPACITY && |mempoolCache| <= mempoolSize <= CAPACITY
      && levels.count == mainCacheSize
      && database.empty == EMPTY_RECORD
      && ShowsCached(mainCache, levels.cached) && ShowsStored(database.store, levels)
    }

    /** The flat map that the levels denote. */
    ghost function Utxos(): Utxos
      reads this
    {
      levels.Held()
    }

    constructor (hashOf: Transaction -> uint32)
      ensures Valid() && fresh(database)
      ensures levels == NOTHING && mempoolCache == map[] && this.hashOf == hashOf
    {
      this.database := new Database.Database(EMPTY_RECORD);
      this.hashOf := hashOf;
      mainCache, mainCacheSize := map[], 0;
      mempoolCache, mempoolSize := map[], 0;
      levels := NOTHING;
      new;
      NothingStored();
    }

    /** The cache counter is exact exactly as long as the machine's is; in a clean state it is. */
    lemma CounterExactIff()
      requires Valid()
      ensures mainCacheSize == |mainCache| <==> levels.count == |levels.cached|
      ensures Refinement.Clean(levels) ==> mainCacheSize == |mainCache|
    {
      hide ShowsStored;
      CacheSize(mainCache, levels.cached);
    }

    // ----- Validation -----

    /** Whether the coin's record lists it. A transaction without a record gets an empty one. */
    method FindStoredCoin(l: Locator) returns (found: bool)
      requires Valid() && l !in levels.cached
      modifies `levels, database
      ensures Valid()
      ensures found <==> l in old(Utxos())
      ensures levels == Reading(old(levels), {l.transactionHash})
    {
      hide ShowsStored, ShowsCached, Find, Decimal.ToString;
      StoredIff(database.store, levels, l);
      ReadRecord(database.store, levels, l.transactionHash);
      var record := database.GetSafely(Decimal.ToString(l.transactionHash));
      levels := Reading(levels, {l.transactionHash});
      found := Find(record.utxo, l.outputIndex) < |record.utxo|;
    }

    /** Whether the coin is in one of the levels. A miss in the cache leaves a record of the transaction behind. */
    method FindCoin(input: TransactionInput) returns (found: bool)
      requires Valid()
      modifies `levels, database
      ensures Valid()
      ensures found <==> Referenced(input) in old(Utxos())
      ensures levels == Reading(old(levels), Touches(old(levels), Referenced(input)))
    {
      hide ShowsStored, ShowsCached, SerializeFromConstruct;
      ghost var l := Referenced(input);
      CachedIff(mainCache, levels.cached, l);
      var coinLocator := SerializeFromConstruct(input.referenceTransactionHash, input.utxoIndex);
      assert coinLocator == Serialize(l);
      if coinLocator !in mainCache {
        found := FindStoredCoin(Locator(input.referenceTransactionHash, input.utxoIndex));
      } else {
        found := !mainCache[coinLocator].isSpent;
      }
    }

    method ValidateTransaction(transaction: Transaction) returns (ok: bool)
      requires Valid()
      modifies `levels, database
      ensures Valid()
      ensures ok <==> AllKnown(old(Utxos()), transaction.inputs)
      ensures levels == Reading(old(levels), Probed(old(levels), transaction.inputs))
    {
      hide Valid, Touches, Probed, Levels.Held;
      ghost var before, touched := levels, {};
      var inputs := transaction.inputs;
      ProbedNone(before, inputs);
      for i := 0 to |inputs|
        invariant Valid() && levels == Reading(before, touched)
        invariant AllKnown(before.Held(), inputs[..i])
        invariant touched + Probed(before, inputs[i..]) == Probed(before, inputs)
      {
        ProbedFrom(before, inputs, i);
        ReadingHolds(before, touched);
        ReadingAgain(before, touched, Referenced(inputs[i]));
        touched := touched + Touches(before, Referenced(inputs[i]));
        var found := FindCoin(inputs[i]);
        if !found {
          return false;
        }
      }
      ok := true;
    }

    /** Each transaction is checked against the state before the block. */
    method ValidateBlock(transactions: seq<Transaction>) returns (ok: bool)
      requires Valid()
      modifies `levels, database
      ensures Valid()
      ensures ok <==> AllInputsKnown(old(Utxos()), transactions)
      ensures levels == Validated(old(levels), transactions)
    {
      hide Valid, Probed;
      ghost var before, touched := levels, {};
      for i := 0 to |transactions|
        invariant Valid() && levels == Reading(before, touched)
        invariant AllInputsKnown(before.Held(), transactions[..i])
        invariant touched + ProbedAll(before, transactions[i..]) == ProbedAll(before, transactions)
      {
        assert transactions[i..][0] == transactions[i] && transactions[i..][1..] == transactions[i + 1..];
        ReadingHolds(before, touched);
        ProbedSame(before, touched, transactions[i].inputs);
        touched := touched + Probed(before, transactions[i].inputs);
        var valid := ValidateTransaction(transactions[i]);
        if !valid {
          return false;
        }
      }
      ok := true;
    }

    // ----- Flushing -----

    /** Writes one coin through to its record: a spent one is erased there, an unspent one appended. */
    method FlushCoin(key: string, coin: Coin, ghost l: Locator, ghost pending: Levels, ghost cache: Cache)
      requires key in cache && cache[key] == coin && key == Serialize(l)
      modifies database
      ensures database.empty == EMPTY_RECORD && l in pending.cached
              && ShowsCached(cache, pending.cached) && ShowsStored(old(database.store), pending) ==>
                && ShowsCached(cache - {key}, pending.cached - {l})
                && ShowsStored(database.store, FlushedOne(pending, l))
    {
      hide SerializeFromConstruct, Deserialize, Decimal.ToString, Find, ShowsStored, Aligned, FlushedOne;
      var locator := Deserialize(key);
      ghost var before := database.store;
      RoundTrip(l);
      if l in pending.cached && ShowsCached(cache, pending.cached) && ShowsStored(before, pending) {
        SpendCached(cache, pending.cached, l);
        FlushStored(before, pending, l);
      }
      var hash := Decimal.ToString(locator.value.transactionHash);
      var index := locator.value.outputIndex;
      var found := database.Has(hash);
      if coin.isSpent {
        if found {
          var record := database.GetSafely(hash);
          var position := Find(record.utxo, index);
          database.PutSafely(hash, Erase(record, position));
        }
      } else if found {
        var record := database.GetSafely(hash);
        database.PutSafely(hash, Append(record, index, coin.output));
        assert database.store == before[hash := Append(record, index, coin.output)];
      } else {
        assert Append(EMPTY_RECORD, index, coin.output) ==
               CoinRecord(0, [index], [coin.output.amount], [coin.output.publicKey]);
        database.PutSafely(hash, CoinRecord(0, [index], [coin.output.amount], [coin.output.publicKey]));
      }
    }

    /** The cache is an unordered map, so its coins are written in any order. */
    method FlushMainCache()
      requires Valid()
      modifies this, database
      ensures Valid() && mainCache == map[] && levels == Flushed(old(levels))
      ensures mempoolCache == old(mempoolCache) && mempoolSize == old(mempoolSize)
    {
      hide ShowsStored, ShowsCached, Flushed, FlushedOne;
      var pending := mainCache;
      ghost var rest := levels;
      while pending != map[]
        invariant pending.Keys <= mainCache.Keys && forall k | k in pending :: pending[k] == mainCache[k]
        invariant ShowsCached(pending, rest.cached) && ShowsStored(database.store, rest)
        invariant Same(Flushed(rest), Flushed(levels))
        modifies database
        decreases |pending|
      {
        var key :| key in pending;
        ghost var l := KeyOfCached(pending, rest.cached, key);
        FlushInAnyOrder(rest, l);
        FlushCoin(key, pending[key], l, rest, pending);
        rest := FlushedOne(rest, l);
        assert key !in pending - {key} && |(pending - {key}).Keys| < |pending.Keys|;
        pending := pending - {key};
      }
      CacheSize(pending, rest.cached);
      FlushNone(rest);
      StoredSame(database.store, rest, Flushed(levels));
      FlushedEmpty(levels);
      NothingStored();
      mainCache := map[];
      mainCacheSize := 0;
      levels := Flushed(levels);
    }

    // ----- Storing -----

    /**
     * Erases a coin from its record. The result is whether that is defined at all: when a record exists but does not
     * list the coin, the program erases past the end of its vectors.
     */
    method SpendStoredCoin(l: Locator) returns (defined: bool)
      requires Valid() && l !in levels.cached
      modifies `levels, database
      ensures Valid() && levels == Spent(old(levels), l)
      ensures defined <==> SpendDefined(old(levels), l)
    {
      hide ShowsStored, ShowsCached, Find, Decimal.ToString, Aligned, Outputs, Erase;
      ghost var before := database.store;
      StoredIff(before, levels, l);
      RecordedIff(before, levels, l.transactionHash);
      if levels.StoredAt(l) != [] {
        SpendStored(before, levels, l);
      }
      var hash := Decimal.ToString(l.transactionHash);
      var found := database.Has(hash);
      if !found {
        return true;
      }
      var record := database.GetSafely(hash);
      assert database.store == before;
      var position := Find(record.utxo, l.outputIndex);
      defined := position < |record.utxo|;
      if defined {
        database.PutSafely(hash, Erase(record, position));
      }
      levels := Spent(levels, l);
    }

    /** Removes the coin an input refers to from the level that has it. */
    method SpendCoin(input: TransactionInput) returns (defined: bool)
      requires Valid()
      modifies this, database
      ensures Valid() && mempoolCache == old(mempoolCache) && mempoolSize == old(mempoolSize)
      ensures levels == Spent(old(levels), Referenced(input))
      ensures defined <==> SpendDefined(old(levels), Referenced(input))
    {
      hide ShowsStored, ShowsCached, Decimal.ToString, SerializeFromConstruct, SpendDefined;
      ghost var l := Referenced(input);
      CachedIff(mainCache, levels.cached, l);
      SpentCounts(levels, l);
      var coinLocator := SerializeFromConstruct(input.referenceTransactionHash, input.utxoIndex);
      assert coinLocator == Serialize(l);
      if coinLocator in mainCache {
        SpendCached(mainCache, levels.cached, l);
        StoredSame(database.store, levels, Spent(levels, l));
        assert (mainCache - {coinLocator}).Keys == mainCache.Keys - {coinLocator};
        mainCache := mainCache - {coinLocator};
        mainCacheSize := mainCacheSize - 1;
        levels := Spent(levels, l);
        defined := true;
      } else {
        defined := SpendStoredCoin(Locator(input.referenceTransactionHash, input.utxoIndex));
      }
    }

    /** Adds one output to the cache, which is flushed first when it is full. An existing entry is not replaced. */
    method CreateCoin(hash: uint32, count: nat, output: TransactionOutput)
      requires Valid()
      modifies this, database
      ensures Valid() && mempoolCache == old(mempoolCache) && mempoolSize == old(mempoolSize)
      ensures levels == Created(old(levels), Locator(hash, Low8(count)), output)
      ensures mainCacheSize == if old(mainCacheSize) < 70 then old(mainCacheSize) + 1 else 1
      ensures old(mainCacheSize) < 70 ==> database.store == old(database.store)
    {
      hide ShowsStored, ShowsCached, Created, Ready, SerializeFromConstruct, Flushed;
      ghost var before, l := levels, Locator(hash, Low8(count));
      FlushIfFull();
      ReadyCounts(before, l, output);
      StoredSame(database.store, levels, Created(before, l, output));
      assert SerializeFromConstruct(hash, Low8(count)) == Serialize(l);
      mainCache := Inserted(mainCache, levels.cached, SerializeFromConstruct(hash, Low8(count)), l, output);
      mainCacheSize := mainCacheSize + 1;
      levels := Created(before, l, output);
    }

    method FlushIfFull()
      requires Valid()
      modifies this, database
      ensures Valid() && mempoolCache == old(mempoolCache) && mempoolSize == old(mempoolSize)
      ensures levels == Ready(old(levels))
      ensures if old(mainCacheSize) < 70 then
                mainCacheSize == old(mainCacheSize) && database.store == old(database.store)
              else mainCacheSize == 0
    {
      hide ShowsStored, ShowsCached, Flushed;
      FlushedEmpty(levels);
      if mainCacheSize >= CAPACITY {
        FlushMainCache();
      }
    }

    method SpendCoins(inputs: seq<TransactionInput>) returns (defined: bool)
      requires Valid()
      modifies this, database
      ensures Valid() && mempoolCache == old(mempoolCache) && mempoolSize == old(mempoolSize)
      ensures levels == Run(old(levels), Spends(inputs))
      ensures defined <==> RunDefined(old(levels), Spends(inputs))
    {
      hide Valid, Run, RunDefined, SpendDefined, Spent;
      ghost var before, operations := levels, Spends(inputs);
      RunNone(before);
      defined := true;
      for i := 0 to |inputs|
        invariant Valid() && mempoolCache == old(mempoolCache) && mempoolSize == old(mempoolSize)
        invariant levels == Run(before, operations[..i]) && (defined <==> RunDefined(before, operations[..i]))
      {
        RunNext(before, operations, i);
        var erased := SpendCoin(inputs[i]);
        defined := defined && erased;
      }
      assert operations[..|inputs|] == operations;
    }

    method CreateCoins(hash: uint32, outputs: seq<TransactionOutput>)
      requires Valid()
      modifies this, database
      ensures Valid() && mempoolCache == old(mempoolCache) && mempoolSize == old(mempoolSize)
      ensures levels == Run(old(levels), Creates(hash, outputs))
      ensures RunDefined(old(levels), Creates(hash, outputs))
    {
      hide Valid, Run, RunDefined, Created;
      ghost var before, operations := levels, Creates(hash, outputs);
      RunNone(before);
      for count := 0 to |outputs|
        invariant Valid() && mempoolCache == old(mempoolCache) && mempoolSize == old(mempoolSize)
        invariant levels == Run(before, operations[..count]) && RunDefined(before, operations[..count])
      {
        RunNext(before, operations, count);
        CreateCoin(hash, count, outputs[count]);
      }
      assert operations[..|outputs|] == operations;
    }

    /** The inputs of a transaction, then its outputs. */
    method StoreTransactionToMainCache(t: Transaction) returns (defined: bool)
      requires Valid()
      modifies this, database
      ensures Valid() && mempoolCache == old(mempoolCache) && mempoolSize == old(mempoolSize)
      ensures levels == Run(old(levels), TransactionOperations(t, hashOf))
      ensures defined <==> RunDefined(old(levels), TransactionOperations(t, hashOf))
    {
      hide Valid, Run, RunDefined;
      RunAppend(levels, Spends(t.inputs), Creates(hashOf(t), t.outputs));
      defined := SpendCoins(t.inputs);
      CreateCoins(hashOf(t), t.outputs);
    }

    method StoreTransactionsToMainCache(transactions: seq<Transaction>) returns (defined: bool)
      requires Valid()
      modifies this, database
      ensures Valid() && mempoolCache == old(mempoolCache) && mempoolSize == old(mempoolSize)
      ensures levels == Run(old(levels), BlockOperations(transactions, hashOf))
      ensures defined <==> RunDefined(old(levels), BlockOperations(transactions, hashOf))
      ensures var names := Names(transactions, hashOf);
              old(Refinement.Clean(levels)) && NewOutputs(old(Utxos()), transactions, names) ==>
                Refinement.Clean(levels) && Leaves(old(Utxos()), transactions, names, Utxos())
    {
      hide Valid, Run, RunDefined, TransactionOperations, Refinement.Clean, NewOutputs, Leaves, Names, Levels.Held;
      if Refinement.Clean(levels) && NewOutputs(Utxos(), transactions, Names(transactions, hashOf)) {
        Refinement.BlockPlaces(levels, transactions, hashOf);
      }
      ghost var before := levels;
      RunNone(before);
      defined := true;
      for i := 0 to |transactions|
        invariant Valid() && mempoolCache == old(mempoolCache) && mempoolSize == old(mempoolSize)
        invariant levels == Run(before, BlockOperations(transactions[..i], hashOf))
        invariant defined <==> RunDefined(before, BlockOperations(transactions[..i], hashOf))
      {
        assert transactions[..i + 1][..i] == transactions[..i];
        RunAppend(before, BlockOperations(transactions[..i], hashOf), TransactionOperations(transactions[i], hashOf));
        var stored := StoreTransactionToMainCache(transactions[i]);
        defined := defined && stored;
      }
      assert transactions[..|transactions|] == transactions;
    }

    // ----- Undoing -----

    /**
     * Meant to bring back what the blocks spent. But its loops go on while the counter equals the length: a block with
     * transactions is passed over, and with one that has none the first access reaches past the end of its hashes.
     */
    method UndoCoins(undoBlocks: seq<Codec.UndoBlock>) returns (defined: bool)
      requires Valid()
      modifies this, database
      ensures Valid() && levels == old(levels) && mainCache == old(mainCache) && database.store == old(database.store)
      ensures mempoolCache == old(mempoolCache) && mempoolSize == old(mempoolSize)
      ensures defined <==> forall n | 0 <= n < |undoBlocks| :: undoBlocks[n].transactionHashes != []
    {
      hide Valid;
      defined := true;
      for n := 0 to |undoBlocks|
        invariant defined
        invariant Valid() && levels == old(levels)
        invariant mainCache == old(mainCache) && database.store == old(database.store)
        invariant mempoolCache == old(mempoolCache) && mempoolSize == old(mempoolSize)
        invariant forall m | 0 <= m < n :: undoBlocks[m].transactionHashes != []
      {
        var hashes, i := undoBlocks[n].transactionHashes, 0;
        while i == |hashes| && defined
          invariant i == 0 || !defined
          invariant defined <==> (i == 0 || hashes != [])
          decreases |hashes| + 1 - i
        {
          var transactionHash := At(hashes, i);
          defined := transactionHash.Some?;
          i := i + 1;
        }
        if !defined {
          return;
        }
      }
    }

    // ----- The mempool -----

    method EraseFromMempool(transactions: seq<Transaction>)
      modifies this`mempoolCache
      ensures mempoolCache == old(mempoolCache) - HashesOf(transactions, hashOf)
    {
      ghost var before := mempoolCache;
      assert HashesOf([], hashOf) == {};
      hide HashesOf;
      for i := 0 to |transactions|
        invariant mempoolCache == before - HashesOf(transactions[..i], hashOf)
      {
        HashesOfNext(transactions, hashOf, i);
        RemovedTwice(before, HashesOf(transactions[..i], hashOf), hashOf(transactions[i]));
        mempoolCache := mempoolCache - {hashOf(transactions[i])};
      }
      assert transactions[..|transactions|] == transactions;
    }

    /** The entries go, but the counter stays: it counts what was ever admitted. */
    method RemoveTransactionsFromMempool(transactions: seq<Transaction>)
      requires Valid()
      modifies this`mempoolCache
      ensures Valid()
      ensures mempoolCache == old(mempoolCache) - HashesOf(transactions, hashOf)
    {
      hide ShowsStored, ShowsCached, HashesOf;
      RemovedSize(mempoolCache, HashesOf(transactions, hashOf));
      EraseFromMempool(transactions);
    }

    /** Once as many transactions were admitted as the mempool has room for, it never admits another. */
    method StoreTransactionInMempool(t: Transaction)
      requires Valid()
      modifies this`mempoolCache, this`mempoolSize
      ensures Valid()
      ensures if old(mempoolSize) == 70 then mempoolSize == 70 && mempoolCache == old(mempoolCache)
              else && mempoolSize == old(mempoolSize) + 1
                   && mempoolCache == if hashOf(t) in old(mempoolCache) then old(mempoolCache)
                                      else old(mempoolCache)[hashOf(t) := t]
    {
      hide ShowsStored, ShowsCached;
      if CAPACITY == mempoolSize {
        return;
      }
      if hashOf(t) !in mempoolCache {
        mempoolCache := mempoolCache[hashOf(t) := t];
      }
      mempoolSize := mempoolSize + 1;
    }

    // ----- Entry points -----

    method StoreBlock(transactions: seq<Transaction>) returns (defined: bool)
      requires Valid()
      modifies this, database
      ensures Valid() && mempoolSize == old(mempoolSize)
      ensures mempoolCache == old(mempoolCache) - HashesOf(transactions, hashOf)
      ensures levels == Run(old(levels), BlockOperations(transactions, hashOf))
      ensures defined <==> RunDefined(old(levels), BlockOperations(transactions, hashOf))
      ensures var names := Names(transactions, hashOf);
              old(Refinement.Clean(levels)) && NewOutputs(old(Utxos()), transactions, names) ==>
                Refinement.Clean(levels) && Leaves(old(Utxos()), transactions, names, Utxos())
    {
      hide Valid, Run, RunDefined, Refinement.Clean, NewOutputs, Leaves, Names, Levels.Held;
      RemoveTransactionsFromMempool(transactions);
      defined := StoreTransactionsToMainCache(transactions);
    }

    /** A block with known inputs is stored, whatever it then does to the coins; others are not. */
    method ValidateAndStoreBlock(transactions: seq<Transaction>) returns (ok: bool, defined: bool)
      requires Valid()
      modifies this, database
      ensures Valid()
      ensures ok <==> AllInputsKnown(old(Utxos()), transactions)
      ensures var operations := if ok then BlockOperations(transactions, hashOf) else [];
              && levels == Run(Validated(old(levels), transactions), operations)
              && (defined <==> RunDefined(Validated(old(levels), transactions), operations))
      ensures mempoolSize == old(mempoolSize)
      ensures mempoolCache == if ok then old(mempoolCache) - HashesOf(transactions, hashOf) else old(mempoolCache)
    {
      hide Valid, Run, RunDefined;
      ok := ValidateBlock(transactions);
      RunNone(levels);
      defined := true;
      if ok {
        defined := StoreBlock(transactions);
      }
    }

    method ValidateAndStoreTransaction(t: Transaction) returns (ok: bool)
      requires Valid()
      modifies `levels, `mempoolCache, `mempoolSize, database
      ensures Valid() && levels == Reading(old(levels), Probed(old(levels), t.inputs))
      ensures ok <==> AllKnown(old(Utxos()), t.inputs)
      ensures var admitted := ok && old(mempoolSize) < 70;
              && mempoolSize == (if admitted then old(mempoolSize) + 1 else old(mempoolSize))
              && mempoolCache == if admitted && hashOf(t) !in old(mempoolCache) then old(mempoolCache)[hashOf(t) := t]
                                 else old(mempoolCache)
    {
      hide ShowsStored, ShowsCached;
      ok := ValidateTransaction(t);
      if ok {
        StoreTransactionInMempool(t);
      }
    }
  }
}
