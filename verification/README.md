# A verified model of CryptBank's ledger core

The project models the four stateful components at the centre of CryptBank and proves what they keep: the coin database
over its key-value store, the chain with its fork choice and its block index, the chain writer, and the SHA-256 digest
that names everything.

| module | what it holds |
|---|---|
| `Types`, `Decimal`, `Counting`, `Primitives` | integer widths, printing and parsing of numbers, two counting facts, transactions and blocks |
| `CoinLocator`, `Database` | the string names of coins; the key-value store, which inserts on a missed read |
| `Ledger` | the meaning of the coin database: one flat map from locators to outputs, changed one spend or creation at a time |
| `Placement` | where the coins of a block end up, said without the operations that put them there |
| `Levels`, `Refinement` | the two levels as an exact abstract machine, in every state; when, and only when, they denote the flat map |
| `CoinStore`, `CoinDatabase` | how cache and records show the two levels, and the class whose methods take them through their steps |
| `Sha256`, `Sha256Facts`, `Sha256Example` | FIPS 180-4 as the standard states it; what its functions and constants are as numbers and bits; its example "abc", round by round |
| `CryptCrypto` | the buffering, padding and register rotation of the program, proved to be it |
| `BlockLog`, `ChainWriter` | the segmented log as a value with sixteen-bit offsets and file numbers; undo blocks and the class that writes |
| `Codec` | the serialized forms, as parameters, with the little that is assumed of them |
| `ForkChoice`, `BlockIndex`, `Chain` | the state machine over block hashes; the index that describes the accepted blocks; the class that ties all together |
| `Takeover`, `Runs` | what moving the tip to a side branch does to the coins; two runs of the class that end in coins nobody would want |

## How the program is modelled

- Loops that update variables are loops over class fields, arrays and sequences here. Where a function of the program has
  several loops or nested ones, each has a method of its own.
- The store keeps structured records where the program keeps their serialized strings. Blocks and undo blocks do become
  bytes, through the function-valued fields of `Codec`. All that is assumed of them is `Codec.RoundTrips`, for what the
  encoder takes (what is too large has the empty text) and up to the entries that serializing an undo block drops, and
  `Codec.HashesByDigest`, by which the hash is `CryptCrypto.Digest`.
- The digest adds up 32 bytes, so it takes at most 8161 values and collides. No injectivity is assumed anywhere. What a
  caller of `Chain.HandleBlock` owes is `Acceptable`: the parent is known and, unless the block is put on the tip and
  turned away, its hash is not that of the genesis block or of a different accepted block (the same block may come again)
  and there is room in the log. `ChainWriter.SmallBlockFits` says when there always is.
- The sum of the digest has no initial value in the program (core/src/crypto/cryptcrypto.cpp:154); it starts from 0 here.
- The cache is an unordered map, so flushing picks its coins in an arbitrary order, and what is proved holds for all.
- Nothing is required of the coins. A spend of a coin that is not there and a creation of one that is are steps of the
  machine like any other; a coin may come to be held twice, once in the cache and any number of times in its record.
- Erasing or reading past the end of a vector has no defined effect in the program. The methods in which this can happen
  return `defined`, and say exactly when it is false. After such an access the model goes on as if the vector had been
  left alone; the program need not.
- Coin hashes are those of the copies that `get_transactions` makes, with version and lock time zero; undo blocks hash the
  transactions themselves.
- Integers wrap as the C++ ones do. The two segment-size comparisons of the writer are unsigned and differ by one byte.

## What turned out not to hold, and when it does

- Validation looks only at the coins before the block, so a block may spend a coin twice. It finds every coin it spends
  exactly when it spends none twice (`Ledger.ValidatedIsEnabledIffDistinct`). Otherwise it is stored all the same: the coin
  is gone once, and the second spend is skipped, or erases past the end, exactly as its transaction has no record or has one
  (`Refinement.DoubleSpend`). In `Runs.DoubleSpendGoesThrough` such a block becomes the tip and 600 turn into 700; the coins
  are still those of the active chain replayed from nothing, where the replay skips the second spend as well.
- A spend that finds no coin is defined exactly when it finds no record (`Levels.SpendDefined`). Looking for a coin leaves a
  record behind, and so can turn a harmless spend into one past the end (`Levels.ReadingSpoilsSpendIff`).
- A coin that is created while it is there and not cached is held twice, and stays when it is spent. The levels hold the
  locators of the flat map after every operation of a run exactly when the run makes no such spend
  (`Refinement.HoldsThroughoutIff`). They hold exactly its coins if, besides, what is created while it is there is created as
  it was (`Refinement.SafeRunHolds`).
- The undo record of a transaction also lists those before it, because its vectors are not cleared. It is the record of its
  own transaction exactly when every transaction before it is empty (`ChainWriter.OwnRecordIff`). Serializing it stays in
  range exactly when no prefix of the block has more inputs than outputs (`ChainWriter.InRangeIff`). So a valid block on the
  tip that pays two coins into one is not defined, and moves the coins although it does not become the tip
  (`Chain.Chain.AppendToTip`, `Runs.JoiningIsUndefined`).
- The block stack of a takeover holds the common ancestor only, because both cursors of its loop start there
  (`Chain.Chain.GetForkedBlocksStack`). The undo pass compares its counters for equality, so it undoes nothing; it stays in
  range exactly when every active block above the genesis block has an undo block with a transaction in it
  (`Chain.Chain.MoveCoins`). So the ancestor's transactions are stored again on top of the old chain's coins
  (`Takeover.ReplayHolds`), and the total comes out right exactly when the ancestor creates as much as it finds
  (`Takeover.TakeoverTotalIff`). From the genesis block it is 600 exactly when every genesis coin is still unspent on the
  old chain, and otherwise more by those that are gone (`Takeover.GenesisReplay`, `Takeover.TakeoverFromGenesis`). In `Runs.TakeoverMints` it is 1200.
- The mempool counter is never lowered, so after 70 admissions the mempool stays closed
  (`CoinDatabase.CoinDatabase.StoreTransactionInMempool`).
- A block whose parent is unknown would be recorded at height 1 and break the tree: the tree is kept exactly when the
  parent is recorded (`ForkChoice.RecordKeepsTreeIff`).
- The repository's README says that a block record tells where the block and its undo block are stored. Side blocks are
  written without an undo block, and their records name an empty file, also after they have become active.

## Model

| member | source | states |
|---|---|---|
| Decimal.StoulToString | core/src/coin_database/coin_database.cpp:21 | parsing with automatic base detection gives back every 64-bit number that was printed in decimal |
| Decimal.NoLeadingZero | core/src/coin_database/coin_database.cpp:13-28 | only zero prints with a leading zero, so no printed number is mistaken for an octal one |
| CoinLocator.RoundTrip | core/src/coin_database/coin_database.cpp:11-22 | deserializing a serialized locator gives it back, for every 32-bit hash and 8-bit index |
| CoinLocator.SerializeInjective | core/src/coin_database/coin_database.cpp:11-28 | different locators have different cache keys |
| CoinLocator.SerializeExample | core/src/coin_database/coin_database.cpp:11-15 | output 7 of transaction 120 has the key "120-7" |
| Database.Database.GetSafely | core/src/db/db.cpp:25-29 | a read returns the value, inserts the empty one on a miss, and changes no later lookup |
| Database.Database.BatchWriteSafely | core/src/db/db.cpp:31-45 | the store after a batch is the one its operations leave when done in order |
| Database.Database.BatchReadSafely | core/src/db/db.cpp:57-66 | the values come in the order of the keys, and no later lookup is changed |
| Database.LastOperationWins | core/src/db/db.cpp:31-45 | a key ends up as the last operation on it says, whatever came before |
| Database.UnmentionedKeysStay | core/src/db/db.cpp:31-45 | a batch leaves every other key alone |
| Ledger.KnownInputsAreSpends | core/src/coin_database/coin_database.cpp:37-91 | validating every transaction of a block is the same as finding every spend of the block in the map before it |
| Ledger.NoDoubleSpend | core/src/coin_database/coin_database.cpp:136-184 | in a run in which every spend finds its coin, a coin spent twice was created anew in between |
| Ledger.ValidatedIsEnabledIffDistinct | core/src/coin_database/coin_database.cpp:37-48 | a validated block with new outputs finds every coin it spends, when its turn comes, exactly when it spends no coin twice |
| Ledger.ValidatedDoubleSpend | core/src/coin_database/coin_database.cpp:37-48 | two spends of one coin pass validation, and the second does not find the coin any more |
| Ledger.TotalChanges | core/src/coin_database/coin_database.cpp:136-184 | an accepted block changes the total unspent amount by what it creates minus what it spends |
| Ledger.TotalAlwaysChanges | core/src/coin_database/coin_database.cpp:136-184 | any operations, spends of missing coins and creations of present ones included, change the total by what they create minus what they take out |
| Ledger.AcceptedRunIsEnabled | core/src/coin_database/coin_database.cpp:93-97 | over a whole run of accepted blocks every spend finds its coin and every output is new |
| Ledger.RunNeverSpendsTwice | core/src/coin_database/coin_database.cpp:93-97 | across the blocks of a run no coin is spent twice unless it was created again |
| Ledger.BalancedRunKeepsTotal | core/src/coin_database/coin_database.cpp:136-184 | a run of balanced blocks keeps the value that the first block put into circulation |
| Primitives.CopiesForget | core/src/primitives/block.cpp:16-41 | the copies of a block depend on inputs and outputs alone, whatever the versions and lock times |
| Placement.BlockLeaves | core/src/coin_database/coin_database.cpp:141-183 | after a block with new outputs, output j of transaction k is there, as it is, under the hash of transaction k and j modulo 256, unless a later transaction names it; any other coin is there exactly if it was and no input names it |
| Placement.BlocksAppend | core/src/coin_database/coin_database.cpp:141-183 | the operations of a block are those of its transactions, in order |
| Placement.NewIsFresh | core/src/coin_database/coin_database.cpp:171-181 | outputs with new names are creations of new coins |
| Levels.FlushInAnyOrder | core/src/coin_database/coin_database.cpp:250-285 | flushing one cached coin first, whichever, leads to the same levels |
| Levels.RunAppend | core/src/coin_database/coin_database.cpp:136-184 | runs of operations, and their definedness, compose |
| Levels.ReadingHolds | core/src/coin_database/coin_database.cpp:50-91 | the records that validation leaves behind change no coin |
| Levels.ReadingSpoilsSpendIff | core/src/coin_database/coin_database.cpp:59-87 | reading changes whether a later spend is defined exactly when its coin is missing, its transaction had no record, and the coin that was read is an uncached one of that transaction |
| Levels.ProbedAllIff | core/src/coin_database/coin_database.cpp:37-91 | validation looks in the records for exactly those inputs that are not cached and before which every input is there, so it stops at the first that is not |
| Refinement.HoldsThroughoutIff | core/src/coin_database/coin_database.cpp:136-184 | from coins held once each, the levels hold the locators of the flat map after every operation exactly when none spends a coin that was created while it was there and not cached; for all operations |
| Refinement.SafeRunHolds | core/src/coin_database/coin_database.cpp:136-184 | such a run holds exactly the coins of the flat map when what is created while it is there is created as it was |
| Refinement.RunCovers | core/src/coin_database/coin_database.cpp:171-181 | and it holds twice, or more often, exactly the coins that were created while there and not cached |
| Refinement.SpentStaysIff | core/src/coin_database/coin_database.cpp:146-169 | after such a run a coin stays when it is spent exactly when it is one of those |
| Refinement.RecreatedStaysIff | core/src/coin_database/coin_database.cpp:146-181 | in particular, a coin created while there and then spent stays exactly when it was not in the cache |
| Refinement.PlainRunHolds | core/src/coin_database/coin_database.cpp:136-184 | a run that spends nothing it created while it was there holds the flat map, wherever the flushes fall |
| Refinement.FreshRunHolds | core/src/coin_database/coin_database.cpp:136-184 | operations that create only new coins refine the flat map, wherever the flushes fall and whatever the spends find, and each coin is still held once |
| Refinement.FreshRunDefinedIff | core/src/coin_database/coin_database.cpp:157-167 | such a run erases past no end exactly when each spend whose coin is gone finds no record |
| Refinement.EnabledRunHolds | core/src/coin_database/coin_database.cpp:136-184 | when every spend finds its coin besides, the run is defined |
| Refinement.BlockHolds | core/src/coin_database/coin_database.cpp:136-184 | a block with new outputs, valid or not, leaves the flat map of its operations, and the total changes by what it creates minus what it takes out |
| Refinement.BlockPlaces | core/src/coin_database/coin_database.cpp:136-184 | the two levels hold the coins of a block with new outputs where they belong, wherever the flushes fall |
| Refinement.DoubleSpend | core/src/coin_database/coin_database.cpp:146-169 | a coin spent twice is gone once, and the second spend is defined exactly when its transaction has no record |
| Refinement.ReplayIsNothingIff | core/src/chain/chain.cpp:130-133 | storing operations on different coins once more leaves the coins as they are exactly when every created coin is there and no spent one is |
| CoinStore.SpendCached | core/src/coin_database/coin_database.cpp:150-154 | dropping a cached coin takes exactly that locator from the cached coins |
| CoinStore.SpendStored | core/src/coin_database/coin_database.cpp:157-167 | a stored coin is found in its record, and erasing that position takes the first stored output of its locator and nothing else |
| CoinStore.CreateCached | core/src/coin_database/coin_database.cpp:177-180 | inserting a coin that is not cached adds exactly it |
| CoinStore.FlushStored | core/src/coin_database/coin_database.cpp:267-285 | appending a cached coin to its record puts it behind what is stored for its locator, duplicates included |
| CoinStore.EraseOutputs | core/src/coin_database/coin_database.cpp:262-264 | erasing the first position of an index keeps the three vectors aligned and loses the first output of that index only |
| CoinStore.AppendOutputs | core/src/coin_database/coin_database.cpp:273-275 | appending keeps them aligned and adds one output, last of its index |
| CoinStore.StoredIff | core/src/coin_database/coin_database.cpp:59-87 | a record lists an index exactly when an output is stored for that locator |
| CoinStore.RecordedIff | core/src/coin_database/coin_database.cpp:158 | a transaction has a record in the store exactly when the machine says so, empty records included |
| CoinStore.CacheSize | core/src/coin_database/coin_database.cpp:150-154 | the cache has as many entries as there are cached locators |
| CoinStore.ReadRecord | core/src/coin_database/coin_database.cpp:59-87 | a read that inserts an empty record adds the transaction to those with a record, and changes no coin |
| CoinDatabase.CoinDatabase.constructor | core/src/coin_database/coin_database.cpp:30-35 | a new database has nothing cached, stored or recorded |
| CoinDatabase.CoinDatabase.CounterExactIff | core/src/coin_database/coin_database.cpp:150-180 | the cache counter counts the cache exactly when the counter of the machine is exact, as it is while each coin is held once |
| CoinDatabase.CoinDatabase.FindCoin | core/src/coin_database/coin_database.cpp:55-88 | an input is found exactly when its coin is held; a miss in the cache leaves a record and changes nothing else |
| CoinDatabase.CoinDatabase.ValidateTransaction | core/src/coin_database/coin_database.cpp:50-91 | true exactly when every input is held; the records it leaves are those up to the first that is not |
| CoinDatabase.CoinDatabase.ValidateBlock | core/src/coin_database/coin_database.cpp:37-48 | true exactly when every input of every transaction is held before the block; it leaves records and changes no coin |
| CoinDatabase.CoinDatabase.StoreBlock | core/src/coin_database/coin_database.cpp:93-97 | in every state the levels run through the operations of the block, and this is defined exactly when every spend that finds no coin finds no record; new outputs are held under the hash of their own transaction by position, and any other coin exactly if it was and no input names it |
| CoinDatabase.CoinDatabase.ValidateAndStoreBlock | core/src/coin_database/coin_database.cpp:104-114 | a block with an unknown input changes no coin; any other is run through, with exact definedness, double spends included, and leaves the mempool; nothing else leaves it |
| CoinDatabase.CoinDatabase.ValidateAndStoreTransaction | core/src/coin_database/coin_database.cpp:116-126 | a transaction enters the mempool exactly when its inputs are held and there was room, and no other entry changes |
| CoinDatabase.CoinDatabase.RemoveTransactionsFromMempool | core/src/coin_database/coin_database.cpp:128-134 | exactly the entries of the block go; the counter stays above their number |
| CoinDatabase.CoinDatabase.StoreTransactionsToMainCache | core/src/coin_database/coin_database.cpp:136-184 | the same for the transactions of a block |
| CoinDatabase.CoinDatabase.StoreTransactionToMainCache | core/src/coin_database/coin_database.cpp:141-183 | so are those of one transaction, its inputs before its outputs |
| CoinDatabase.CoinDatabase.SpendCoin | core/src/coin_database/coin_database.cpp:146-169 | a cached coin goes; otherwise the first stored one goes; otherwise nothing does, and the erase is defined exactly when there is no record |
| CoinDatabase.CoinDatabase.SpendStoredCoin | core/src/coin_database/coin_database.cpp:157-167 | the same for a coin that is not cached |
| CoinDatabase.CoinDatabase.CreateCoin | core/src/coin_database/coin_database.cpp:171-182 | an output joins the cache, flushed first when 70 are counted, unless its locator is cached; it is counted in any case |
| CoinDatabase.CoinDatabase.StoreTransactionInMempool | core/src/coin_database/coin_database.cpp:186-195 | the mempool takes a transaction exactly until 70 were admitted |
| CoinDatabase.CoinDatabase.UndoCoins | core/src/coin_database/coin_database.cpp:197-246 | undoing changes nothing, and stays in range exactly when every undo block has a transaction |
| CoinDatabase.CoinDatabase.FlushCoin | core/src/coin_database/coin_database.cpp:250-285 | writing one coin through, whichever comes next, moves it behind the stored ones of its locator |
| CoinDatabase.CoinDatabase.FlushMainCache | core/src/coin_database/coin_database.cpp:248-289 | flushing empties the cache and its counter and stores every cached coin, with the same levels for every order of the cache |
| BlockLog.WriteKeepsInv | core/src/chain_writer/chain_writer.cpp:69-131 | a write keeps the offset at the true length of the current file, with later files still to come |
| BlockLog.WriteReadsBack | core/src/chain_writer/chain_writer.cpp:69-153 | what was written reads back at the returned location, which starts at the old length of its file |
| BlockLog.EveryIssueReadsBack | core/src/chain_writer/chain_writer.cpp:69-153 | every location ever returned still reads back its text after any later interleaving of writes |
| BlockLog.IssuedRangesAreDisjoint | core/src/chain_writer/chain_writer.cpp:69-131 | two returned ranges of one file are of one kind and do not overlap |
| BlockLog.PathInjective | core/src/chain_writer/chain_writer.cpp:86 | different files have different names; block files are never undo files |
| BlockLog.WriteKeepsPacked | core/src/chain_writer/chain_writer.cpp:73-79 | a write keeps 1000 times the file number plus the offset within twice the bytes written |
| BlockLog.RunPacked | core/src/chain_writer/chain_writer.cpp:69-131 | so does every run: n files take at least 500 n bytes |
| BlockLog.SmallTextFits | core/src/chain_writer/chain_writer.cpp:107-113 | a text within the limit of its kind fits, and leaves the offset at most 1000, so the unsigned comparison sees no negative room |
| BlockLog.SmallRunFits | core/src/chain_writer/chain_writer.cpp:73-131 | small texts of at most 500 * 65535 bytes in all never wrap a file number or an offset |
| BlockLog.BlockGoes | core/src/chain_writer/chain_writer.cpp:69-101 | a block goes to the end of the current file of blocks if that stays below 1000 bytes, and otherwise to the beginning of the next; with a zero byte behind it, and nothing else changes |
| BlockLog.UndoGoes | core/src/chain_writer/chain_writer.cpp:103-131 | an undo block goes to the end of the current file of undo blocks if that stays within 1000 bytes, and otherwise to the beginning of the next |
| BlockLog.TrueRangeIff | core/src/chain_writer/chain_writer.cpp:73-98 | a returned location is the range that was written exactly when no offset wraps and the file number wraps to no full file |
| ChainWriter.SmallBlockFits | core/src/chain_writer/chain_writer.cpp:54-131 | after any small blocks that are within the byte budget, another small block and its undo block fit the log |
| ChainWriter.MakeUndoBlock | core/src/chain_writer/chain_writer.cpp:24-52 | entry i has the hash and version of transaction i, and position by position the indices, amounts and keys of the transactions up to it, each behind those of the transactions before |
| ChainWriter.UndoLists | core/src/chain_writer/chain_writer.cpp:24-52 | the undo block of the model lists just that |
| ChainWriter.KeptLists | core/src/chain_writer/undo_block.cpp:13-25 | and so does what serializing keeps, with as many amounts and keys as indices |
| ChainWriter.OwnRecordIff | core/src/chain_writer/chain_writer.cpp:28-49 | an undo record describes its own transaction exactly when all transactions before it are empty |
| ChainWriter.InRangeIff | core/src/chain_writer/undo_block.cpp:13-25 | serializing an undo block reads in range exactly when no prefix of the block has more inputs than outputs |
| ChainWriter.SerializeUndoBlock | core/src/chain_writer/undo_block.cpp:9-31 | copying an undo block out gives a text exactly when no access is out of range |
| ChainWriter.ChainWriter.StoreBlock | core/src/chain_writer/chain_writer.cpp:54-67 | defined exactly when the undo block can be serialized: then both texts are written, to their own streams, and the record has their locations; otherwise only the block is |
| ChainWriter.ChainWriter.WriteBlock | core/src/chain_writer/chain_writer.cpp:69-101 | the text is appended in the current file if that stays below 1000 bytes and in the next one otherwise, the location says where, and fields and files become those of the log after the write |
| ChainWriter.ChainWriter.WriteUndoBlock | core/src/chain_writer/chain_writer.cpp:103-131 | the same for an undo block, as long as the file stays within 1000 bytes |
| ChainWriter.ChainWriter.ReadBlock | core/src/chain_writer/chain_writer.cpp:133-153 | the text of a location without its terminator; nothing for a missing file |
| CryptCrypto.MajorityIsMaj | core/src/crypto/cryptcrypto.cpp:33-35 | the and/or form of majority is Maj of section 4.1.2 of FIPS 180-4 |
| CryptCrypto.ShiftsRotate | core/src/crypto/cryptcrypto.cpp:25-27 | rotr is rotation, for every distance in use |
| CryptCrypto.SigsAreSigmas | core/src/crypto/cryptcrypto.cpp:37-43 | sig0 and sig1 are the small sigma functions of section 4.1.2 |
| CryptCrypto.StepIsRound | core/src/crypto/cryptcrypto.cpp:61-81 | one pass of the loop, in the order it adds its terms, is a round of section 6.2.2 |
| CryptCrypto.ExpandSchedule | core/src/crypto/cryptcrypto.cpp:49-55 | the 64 words in the array are the recursive message schedule |
| CryptCrypto.RotateRegisters | core/src/crypto/cryptcrypto.cpp:62-80 | shifting the eight registers in place performs a round of the standard |
| CryptCrypto.Transform | core/src/crypto/cryptcrypto.cpp:45-86 | the state becomes the compression of the buffer by section 6.2.2 |
| CryptCrypto.WriteLength | core/src/crypto/cryptcrypto.cpp:105-112 | the last eight bytes become the bit length, big-endian, and the others stay |
| CryptCrypto.TailBlocks | core/src/crypto/cryptcrypto.cpp:88-113 | the padding of section 5.1.1 ends in one block when the length field still fits and in two otherwise |
| CryptCrypto.FoldTail | core/src/crypto/cryptcrypto.cpp:88-113 | compressing that padding is the one or two compressions of those blocks |
| CryptCrypto.Pad | core/src/crypto/cryptcrypto.cpp:88-114 | both branches of the padding compress exactly the rest of the message and what section 5.1.1 appends |
| CryptCrypto.Revert | core/src/crypto/cryptcrypto.cpp:116-124 | the bytes of the state, each word big-endian |
| CryptCrypto.Absorb | core/src/crypto/cryptcrypto.cpp:141-150 | the state has compressed all whole blocks of the message, the buffer holds the rest, and the bits are counted modulo 2^64 |
| CryptCrypto.Hash | core/src/crypto/cryptcrypto.cpp:126-159 | for every message the result is the sum of the bytes of its SHA-256 hash |
| CryptCrypto.Digest | core/src/crypto/cryptcrypto.cpp:154-158 | the sum of 32 bytes never exceeds 8160 |
| CryptCrypto.SumAppend | core/src/crypto/cryptcrypto.cpp:154-157 | every byte counts once, as its value |
| CryptCrypto.DigestsCollide | core/src/crypto/cryptcrypto.cpp:154-158 | of more than 8161 messages two have the same digest |
| Sha256.FoldAppend | core/src/crypto/cryptcrypto.cpp:141-152 | compressing two runs of blocks one after the other is compressing them together |
| Sha256.ZeroCountIsLeast | core/src/crypto/cryptcrypto.cpp:90-96 | the padding has the least number of zeros that section 5.1.1 allows |
| Sha256Facts.JoinIsBigEndian | core/src/crypto/cryptcrypto.cpp:49-51 | a word is the big-endian number of its four bytes |
| Sha256Facts.PrintedIsJoined | core/src/crypto/cryptcrypto.cpp:116-124 | printing a word gives back the bytes it was joined from, so the most significant comes first |
| Sha256Facts.LengthReadsBack | core/src/crypto/cryptcrypto.cpp:103-112 | the length field, read as a big-endian number, is the length modulo 2^(8k) |
| Sha256Facts.PlusIsModular | core/src/crypto/cryptcrypto.cpp:53-55 | adding words is adding in 64 bits, where nothing wraps, modulo 2^32 |
| Sha256Facts.Xor3IsParity | core/src/crypto/cryptcrypto.cpp:63-67 | a bit is set when it is set in one or in all three of the words |
| Sha256Facts.ChChooses | core/src/crypto/cryptcrypto.cpp:29-31 | the bits of the first word choose between the other two |
| Sha256Facts.MajIsOfPairs | core/src/crypto/cryptcrypto.cpp:33-35 | a bit is set when it is set in two of the three words |
| Sha256Facts.SquareRoots | core/src/crypto/cryptcrypto.cpp:127-135 | the initial hash value is made of the first 32 bits of the fractional parts of the square roots of 2, 3, 5, 7, 11, 13, 17 and 19 |
| Sha256Facts.CubeRoots0 | core/src/crypto/cryptcrypto.cpp:6-23 | constants 0 to 7 are the first 32 bits of the fractional parts of the cube roots of their primes |
| Sha256Facts.CubeRoots8 | core/src/crypto/cryptcrypto.cpp:6-23 | constants 8 to 15 are the first 32 bits of the fractional parts of the cube roots of their primes |
| Sha256Facts.CubeRoots16 | core/src/crypto/cryptcrypto.cpp:6-23 | constants 16 to 23 are the first 32 bits of the fractional parts of the cube roots of their primes |
| Sha256Facts.CubeRoots24 | core/src/crypto/cryptcrypto.cpp:6-23 | constants 24 to 31 are the first 32 bits of the fractional parts of the cube roots of their primes |
| Sha256Facts.CubeRoots32 | core/src/crypto/cryptcrypto.cpp:6-23 | constants 32 to 39 are the first 32 bits of the fractional parts of the cube roots of their primes |
| Sha256Facts.CubeRoots40 | core/src/crypto/cryptcrypto.cpp:6-23 | constants 40 to 47 are the first 32 bits of the fractional parts of the cube roots of their primes |
| Sha256Facts.CubeRoots48 | core/src/crypto/cryptcrypto.cpp:6-23 | constants 48 to 55 are the first 32 bits of the fractional parts of the cube roots of their primes |
| Sha256Facts.CubeRoots56 | core/src/crypto/cryptcrypto.cpp:6-23 | constants 56 to 63 are the first 32 bits of the fractional parts of the cube roots of their primes |
| Sha256Example.LastRound | core/src/crypto/cryptcrypto.cpp:45-81 | for the block of "abc" the schedule and the rounds go through the values of the standard's example, to the last |
| Sha256Example.DigestOfAbc | core/src/crypto/cryptcrypto.cpp:126-159 | the digest of "abc" is 3730 |
| ForkChoice.StepKeepsInv | core/src/chain/chain.cpp:96-139 | one block keeps the tree rooted and the tip highest, raises the length by at most one, and moves the tip only to a new block |
| ForkChoice.StepDecides | core/src/chain/chain.cpp:96-139 | case by case: which blocks are recorded and how high, and that the tip moves exactly to a valid block on it or to one on a block of its own height |
| ForkChoice.RunKeepsInv | core/src/chain/chain.cpp:96-139 | so does every run of blocks |
| ForkChoice.LengthNeverShrinks | core/src/chain/chain.cpp:96-139 | over a run the length never falls, and while it stays the tip stays |
| ForkChoice.FirstSeenWins | core/src/chain/chain.cpp:102-137 | when a block of the final height was ever recorded, the tip of that time is still the tip |
| ForkChoice.RecordKeepsTreeIff | core/src/chain/chain.cpp:115-122 | recording a new block keeps the tree exactly when its parent is recorded |
| ForkChoice.PathsMeetOnce | core/src/chain/chain.cpp:43-51 | paths that share a block share everything below it |
| ForkChoice.TakeoverMismatch | core/src/chain/chain.cpp:43-51 | on a takeover the first mismatch lies between index 1 and the length less 1 |
| ForkChoice.MismatchParentIsDeepest | core/src/chain/chain.cpp:50-54 | the parent of the first mismatching block is the deepest common ancestor |
| ForkChoice.TakeoverAncestor | core/src/chain/chain.cpp:34-54 | so on every takeover the search ends at the deepest common ancestor of old tip and new block |
| ForkChoice.DeepestIsUnique | core/src/chain/chain.cpp:50-54 | there is only one deepest common ancestor |
| ForkChoice.HashesBoundHeight | core/src/chain/chain.cpp:96-139 | with hashes below n no height exceeds n |
| BlockIndex.AcceptStored | core/src/chain/chain.cpp:106-109 | storing and indexing a block with its undo block keeps the index describing exactly the accepted blocks |
| BlockIndex.AcceptSide | core/src/chain/chain.cpp:115-122 | so does storing and indexing a side block |
| BlockIndex.KeepStored | core/src/chain/chain.cpp:107 | a block that reaches the log without a record leaves the index describing exactly the accepted blocks |
| BlockIndex.ReadKeepsIndexed | core/src/block_info_database/block_info_database.cpp:10-13 | reading the record of any hash, known or not, changes no record |
| Chain.GenesisAccepted | core/src/chain/chain.cpp:5-30 | the empty coin database accepts the genesis block |
| Chain.GenesisTotal | core/src/chain/chain.cpp:17-30 | the genesis block puts 600 into circulation |
| Chain.Chain.constructor | core/src/chain/chain.cpp:5-15 | a new chain satisfies every invariant, with the genesis block as tip, its outputs as coins, and its undo block located |
| Chain.Chain.NamesAreDigests | core/src/chain/chain.cpp:99 | blocks and coins are named by the digests of their texts |
| Chain.SliceLength | core/src/chain/chain.cpp:213-250 | a slice has as many entries as there are heights from start to end on the path |
| Chain.Chain.GetChainLength | core/src/chain/chain.cpp:146-156 | the height of an accepted block; zero exactly for any other hash |
| Chain.Chain.GetBlock | core/src/chain/chain.cpp:158-171 | the block that was accepted under the hash, out of the log; none exactly for any other hash |
| Chain.Chain.GetActiveChain | core/src/chain/chain.cpp:173-211 | for all start and end, block by block, the accepted blocks of the clamped slice of the genesis-to-tip path |
| Chain.Chain.GetActiveChainHashes | core/src/chain/chain.cpp:213-250 | for all start and end, the clamped slice of the genesis-to-tip path: how many there are, at which heights, and that the last is the tip if the query reaches it; empty for inverted or out-of-range ones |
| Chain.Chain.ActiveBlocksAccepted | core/src/chain/chain.cpp:173-250 | each hash of a slice names an accepted block at its height, and its header names the hash before it |
| Chain.Chain.GetLastBlockHash | core/src/chain/chain.cpp:252-262 | hashing the last block, serialized and read back, gives the tip |
| Chain.Chain.CollectBlocks | core/src/chain/chain.cpp:55-68 | the collecting loop, from any cursor on a path down to any ancestor, fetches the blocks between them, both included, and stops where the cursors meet |
| Chain.Chain.GetForkedBlocksStack | core/src/chain/chain.cpp:32-71 | as both cursors start there, the stack is the one block of the deepest common ancestor of old tip and new block |
| Chain.Chain.GetUndoBlocksQueue | core/src/chain/chain.cpp:73-94 | the undo blocks of exactly the active blocks above a height, from the tip down |
| Chain.Chain.UndoAtIs | core/src/chain/chain.cpp:73-94 | the undo block read for a hash lists the transactions of its block, with as many amounts and keys as indices; it is an empty one for a block from the side |
| Chain.Chain.QueueReady | core/src/chain/chain.cpp:128-129 | a queue of undo blocks has none without transactions exactly when every active block above the genesis block has its undo block and a transaction |
| Chain.Chain.MoveCoins | core/src/chain/chain.cpp:126-133 | on a takeover nothing is undone and the levels run through the ancestor's transactions once more, whatever the coins are; this is defined exactly when the undo blocks are all there and every spend that finds no coin finds no record |
| Chain.Chain.TakeOver | core/src/chain/chain.cpp:124-135 | the tip moves to the side block, one higher, with the coins as above |
| Chain.Chain.LengthBound | core/src/chain/chain.cpp:96-139 | as digests are at most 8160, a chain without collisions has at most 8161 blocks |
| Chain.Chain.AppendToTip | core/src/chain/chain.cpp:104-111 | the block becomes the tip, and log, index and tree describe it; unless its undo block is out of range, which is when this is not defined |
| Chain.Chain.RecordSideBlock | core/src/chain/chain.cpp:115-122 | the block is recorded one above its parent, at most one above the tip, without an undo block, and no other record changes |
| Chain.Chain.ProcessBlock | core/src/chain/chain.cpp:96-139 | for any coins: the verdict, the fork-choice step, the accepted blocks, what is written, the located undo blocks, the levels after validation and the operations of the step, and exactly when every access is in range |
| Chain.Chain.HandleBlock | core/src/chain/chain.cpp:96-139 | all of that; the new tip and length, case by case; the outputs of a block on the tip are held under the hash of the copy of their transaction with version and lock time zero; and the coins stay those of the active chain replayed from nothing as long as the tip is not left and what is put on it is stored whole and creates new coins, coins spent twice included; every spend of the replay finds its coin as long as no block spends one twice |
| Chain.Chain.RunAfter | core/src/chain/chain.cpp:96-139 | after such a step the transactions of the active chain come to the operations of the step on the coins before it |
| Chain.Chain.AcceptedAfter | core/src/chain/chain.cpp:98-104 | and are an accepted run when the step is valid and spends no coin twice |
| Chain.Chain.FirstSeenWins | core/src/chain/chain.cpp:102-137 | in every state, when a block of the present height was ever recorded, the tip of that time is still the tip |
| Chain.Chain.WrittenReadsBack | core/src/chain_writer/chain_writer.cpp:69-153 | of everything a chain ever wrote, each location still reads back its text, and no two overlap |
| Chain.Chain.BalancedChainKeepsTotal | core/src/chain/chain.cpp:17-30 | a chain that was only ever extended, by balanced blocks that spend no coin twice, has 600 in circulation |
| Chain.Chain.ChainNeverSpendsTwice | core/src/chain/chain.cpp:98-104 | along such a chain no coin is spent twice unless it was created again |
| Takeover.ReplayHolds | core/src/chain/chain.cpp:130-133 | storing a block of an accepted chain once more holds the locators of the flat map its operations lead to, and exactly that map when what is there is as it creates it, missing spends and present outputs included |
| Takeover.NotReusedAgrees | core/src/chain/chain.cpp:130-133 | the coins of a block that are there are as it created them, unless a later transaction has the hash of one of its transactions |
| Takeover.ReplayTotal | core/src/chain/chain.cpp:130-133 | storing a block once more changes the total by what it creates minus what it finds |
| Takeover.TakeoverTotalIff | core/src/chain/chain.cpp:126-133 | after a takeover the total is that of the new chain exactly when the ancestor creates as much as it finds among the coins of the old chain, spent and created alike |
| Takeover.GenesisReplay | core/src/chain/chain.cpp:126-133 | storing the genesis block once more, on the coins of any accepted chain from it, is defined and adds exactly the genesis coins that are gone |
| Takeover.TakeoverFromGenesis | core/src/chain/chain.cpp:126-133 | between balanced chains the total is then right exactly when no genesis coin is gone, and the coins are those of the new chain exactly when none is and both chains have the same |
| Takeover.TakenOverFromGenesis | core/src/chain/chain.cpp:96-139 | the same of the coins of a chain after a step that took over from the genesis block, whatever the new branch does |
| Runs.DoubleSpendGoesThrough | core/src/chain/chain.cpp:96-111 | from the constructor, a block that spends a genesis coin twice is valid and defined, becomes the tip, and leaves 700 in circulation, which are the coins of its chain replayed |
| Runs.JoiningIsUndefined | core/src/chain/chain.cpp:104-111 | from the constructor, a valid block that pays two genesis coins into one is not defined: the tip stays, the block is in the log without a record, and the two coins are gone |
| Runs.TakeoverMints | core/src/chain/chain.cpp:96-139 | from the constructor, a block that spends the genesis coins and two empty ones beside it are taken in, all of it defined; the chain takes over and has 1200 in circulation, where its active blocks come to 600 |

## Left out

- Chain.Chain.HandleBlock: nothing is promised of the program after a step that is not defined; the model then goes on as if
  the access out of range had not been made.
- CoinDatabase.CoinDatabase.UndoCoins: what follows the first access in the bodies of the two loops; a defined run never
  gets there.
- Takeover.ReplayTotal: when a later transaction has the hash of one of the stored block's and another output under the same
  locator is there, which of the two is then held depends on the cache, as `Levels` says; so in the lemmas on totals.
- A block with an unknown parent, a collision with a different accepted block, or the genesis block again: excluded by
  `Acceptable`; what the first does to the tree is `ForkChoice.RecordKeepsTreeIff`.
- A log without room: excluded by `Acceptable` too; what a location is then is `BlockLog.TrueRangeIff`.
- The protobuf encoding and the round trips of records through it: parameters of `Codec`, or structured values in the store.
- Real files: opening can fail, directories are created, and earlier processes leave files behind; here the disk starts
  empty and every write succeeds.
- The mutex of the store: calls are atomic here.
- Signatures, difficulty, nonce, Merkle root and timestamps: stored, never checked by the program.
- `handle_transaction` of the chain: passes a copy on to `ValidateAndStoreTransaction`.
- `get_all_utxo`: declared only.
- Setters and plain constructors of the primitives: only easy members.
