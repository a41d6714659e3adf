/**
 * How a cache of coins, by printed locator, and a store of records, by printed transaction hash, show the two abstract
 * levels; and that each single change to them shows the step the levels take.
 */
module CoinStore {
  import opened Types
  import opened Primitives
  import opened CoinLocator
  import opened Ledger
  import opened Levels
  import Database
  import Decimal

  datatype Coin = Coin(output: TransactionOutput, isSpent: bool)

  /** The stored coins of one transaction: three vectors, one entry each for every unspent output. */
  datatype CoinRecord = CoinRecord(version: uint8, utxo: seq<uint32>, amounts: seq<uint32>, publicKeys: seq<uint32>)

  type Cache = map<string, Coin>
  type Store = map<string, CoinRecord>

  const EMPTY_RECORD := CoinRecord(0, [], [], [])

  // ----- Records -----

  /** std::find: the first position of x, or the length. */
  function Find(s: seq<uint32>, x: uint32): (p: nat)
    ensures p <= |s|
    ensures p < |s| ==> s[p] == x
    ensures forall i | 0 <= i < p :: s[i] != x
  {
    if s == [] || s[0] == x then 0 else 1 + Find(s[1..], x)
  }

  function Without<T>(s: seq<T>, p: nat): (r: seq<T>)
    ensures |r| == if p < |s| then |s| - 1 else |s|
  {
    if p < |s| then s[..p] + s[p + 1..] else s
  }

  function Erase(r: CoinRecord, p: nat): CoinRecord {
    r.(utxo := Without(r.utxo, p), amounts := Without(r.amounts, p), publicKeys := Without(r.publicKeys, p))
  }

  function Append(r: CoinRecord, index: uint32, output: TransactionOutput): CoinRecord {
    r.(utxo := r.utxo + [index], amounts := r.amounts + [output.amount],
       publicKeys := r.publicKeys + [output.publicKey])
  }

  /** The three vectors go together, and every index is one that an output can have. */
  predicate Aligned(r: CoinRecord) {
    && |r.utxo| == |r.amounts| == |r.publicKeys|
    && forall i | 0 <= i < |r.utxo| :: r.utxo[i] < TWO_TO_THE_8
  }

  /** The outputs that three vectors keep under an index, by position. */
  function OutputsIn(utxo: seq<uint32>, amounts: seq<uint32>, keys: seq<uint32>, index: uint32): seq<TransactionOutput>
    requires |utxo| == |amounts| == |keys|
  {
    if utxo == [] then []
    else (if utxo[0] == index then [TransactionOutput(amounts[0], keys[0])] else [])
         + OutputsIn(utxo[1..], amounts[1..], keys[1..], index)
  }

  function Outputs(r: CoinRecord, index: uint32): seq<TransactionOutput> {
    if Aligned(r) then OutputsIn(r.utxo, r.amounts, r.publicKeys, index) else []
  }

  lemma {:induction false} FoundInIff(utxo: seq<uint32>, amounts: seq<uint32>, keys: seq<uint32>, index: uint32)
    requires |utxo| == |amounts| == |keys|
    ensures Find(utxo, index) < |utxo| <==> OutputsIn(utxo, amounts, keys, index) != []
  {
    if utxo != [] {
      FoundInIff(utxo[1..], amounts[1..], keys[1..], index);
    }
  }

  lemma WithoutFirst<T>(s: seq<T>, p: nat)
    requires 0 < p < |s|
    ensures Without(s, p)[0] == s[0] && Without(s, p)[1..] == Without(s[1..], p - 1)
  {
  }

  lemma {:induction false} EraseIn(utxo: seq<uint32>, amounts: seq<uint32>, keys: seq<uint32>, p: nat, index: uint32)
    requires |utxo| == |amounts| == |keys| && p < |utxo| && forall i | 0 <= i < p :: utxo[i] != utxo[p]
    ensures var before := OutputsIn(utxo, amounts, keys, index);
            OutputsIn(Without(utxo, p), Without(amounts, p), Without(keys, p), index) ==
            if index == utxo[p] && before != [] then before[1..] else before
  {
    FoundInIff(utxo, amounts, keys, index);
    if p == 0 {
      assert Without(utxo, 0) == utxo[1..] && Without(amounts, 0) == amounts[1..] && Without(keys, 0) == keys[1..];
    } else {
      WithoutFirst(utxo, p);
      WithoutFirst(amounts, p);
      WithoutFirst(keys, p);
      hide Without;
      EraseIn(utxo[1..], amounts[1..], keys[1..], p - 1, index);
    }
  }

  lemma {:induction false} AppendIn(utxo: seq<uint32>, amounts: seq<uint32>, keys: seq<uint32>, added: uint32,
                                    output: TransactionOutput, index: uint32)
    requires |utxo| == |amounts| == |keys|
    ensures OutputsIn(utxo + [added], amounts + [output.amount], keys + [output.publicKey], index) ==
            OutputsIn(utxo, amounts, keys, index) + if index == added then [output] else []
  {
    if utxo != [] {
      AppendIn(utxo[1..], amounts[1..], keys[1..], added, output, index);
      assert (utxo + [added])[1..] == utxo[1..] + [added];
      assert (amounts + [output.amount])[1..] == amounts[1..] + [output.amount];
      assert (keys + [output.publicKey])[1..] == keys[1..] + [output.publicKey];
    }
  }

  /** Erasing the first position of an index drops the first output under it, and nothing else. */
  lemma EraseOutputs(r: CoinRecord, erased: uint32, index: uint32)
    requires Aligned(r) && Find(r.utxo, erased) < |r.utxo|
    ensures var after := Erase(r, Find(r.utxo, erased));
            && Aligned(after)
            && Outputs(r, erased) != []
            && Outputs(after, index) == if index == erased then Outputs(r, index)[1..] else Outputs(r, index)
  {
    var p := Find(r.utxo, erased);
    FoundInIff(r.utxo, r.amounts, r.publicKeys, erased);
    EraseIn(r.utxo, r.amounts, r.publicKeys, p, index);
    hide OutputsIn;
  }

  lemma AppendOutputs(r: CoinRecord, added: uint8, output: TransactionOutput, index: uint32)
    requires Aligned(r)
    ensures Aligned(Append(r, added, output))
    ensures Outputs(Append(r, added, output), index) == Outputs(r, index) + if index == added then [output] else []
  {
    AppendIn(r.utxo, r.amounts, r.publicKeys, added, output, index);
    hide OutputsIn;
  }

  // ----- The cache -----

  ghost predicate IsKey(k: string) {
    exists l: Locator :: k == Serialize(l)
  }

  /** The cache has an unspent coin under the key of each cached locator, and nothing else. */
  ghost predicate ShowsCached(cache: Cache, cached: Utxos) {
    && (forall k | k in cache :: IsKey(k) && !cache[k].isSpent)
    && (forall l: Locator :: l in cached <==> Serialize(l) in cache)
    && (forall l | l in cached :: cache[Serialize(l)].output == cached[l])
  }

  lemma CachedIff(cache: Cache, cached: Utxos, l: Locator)
    requires ShowsCached(cache, cached)
    ensures Serialize(l) in cache <==> l in cached
    ensures Serialize(l) in cache ==> !cache[Serialize(l)].isSpent
  {
  }

  lemma SpendCached(cache: Cache, cached: Utxos, l: Locator)
    requires ShowsCached(cache, cached) && l in cached
    ensures ShowsCached(cache - {Serialize(l)}, cached - {l})
  {
    hide Serialize;
    forall m: Locator
      ensures Serialize(m) == Serialize(l) ==> m == l
    {
      if Serialize(m) == Serialize(l) {
        SerializeInjective(m, l);
      }
    }
  }

  lemma CreateCached(cache: Cache, cached: Utxos, l: Locator, output: TransactionOutput)
    requires ShowsCached(cache, cached) && l !in cached
    ensures ShowsCached(cache[Serialize(l) := Coin(output, false)], cached[l := output])
  {
    hide Serialize;
    forall m: Locator
      ensures Serialize(m) == Serialize(l) ==> m == l
    {
      if Serialize(m) == Serialize(l) {
        SerializeInjective(m, l);
      }
    }
  }

  lemma KeyOfCached(cache: Cache, cached: Utxos, k: string) returns (l: Locator)
    requires ShowsCached(cache, cached) && k in cache
    ensures k == Serialize(l) && l in cached
  {
    l :| k == Serialize(l);
  }

  lemma {:induction false} CacheSize(cache: Cache, cached: Utxos)
    requires ShowsCached(cache, cached)
    ensures |cache| == |cached|
    decreases |cached|
  {
    if l :| l in cached {
      SpendCached(cache, cached, l);
      CacheSize(cache - {Serialize(l)}, cached - {l});
      assert (cache - {Serialize(l)}).Keys == cache.Keys - {Serialize(l)};
      assert (cached - {l}).Keys == cached.Keys - {l};
    } else {
      forall k | k in cache
        ensures false
      {
        var _ := KeyOfCached(cache, cached, k);
      }
      assert cache == map[];
    }
  }

  // ----- The store -----

  function RecordOf(store: Store, transactionHash: uint32): CoinRecord {
    Database.LookupIn(store, Decimal.ToString(transactionHash), EMPTY_RECORD)
  }

  ghost predicate IsRecorded(recorded: set<uint32>, k: string) {
    exists h | h in recorded :: k == Decimal.ToString(h)
  }

  /** The store has a record for each recorded transaction, and no other, with the stored outputs in order. */
  ghost predicate ShowsStored(store: Store, levels: Levels) {
    && (forall k | k in store :: Aligned(store[k]) && IsRecorded(levels.recorded, k))
    && (forall h: uint32 :: h in levels.recorded ==> Decimal.ToString(h) in store)
    && forall l: Locator :: Outputs(RecordOf(store, l.transactionHash), l.outputIndex) == levels.StoredAt(l)
  }

  lemma NothingStored()
    ensures ShowsStored(map[], NOTHING) && ShowsCached(map[], NOTHING.cached)
  {
  }

  lemma StoredSame(store: Store, levels: Levels, next: Levels)
    requires ShowsStored(store, levels) && levels.recorded == next.recorded
    requires forall l: Locator :: levels.StoredAt(l) == next.StoredAt(l)
    ensures ShowsStored(store, next)
  {
    hide Outputs, Decimal.ToString;
  }

  lemma RecordedIff(store: Store, levels: Levels, h: uint32)
    requires ShowsStored(store, levels)
    ensures Decimal.ToString(h) in store <==> h in levels.recorded
  {
    hide Outputs, Decimal.ToString;
    if Decimal.ToString(h) in store {
      var g :| g in levels.recorded && Decimal.ToString(h) == Decimal.ToString(g);
      Decimal.ToStringInjective(h, g);
    }
  }

  lemma RecordAligned(store: Store, levels: Levels, h: uint32)
    requires ShowsStored(store, levels)
    ensures Aligned(RecordOf(store, h))
  {
  }

  /** Changing the record of one transaction does not touch that of another. */
  lemma OtherRecords(store: Store, h: uint32, r: CoinRecord, g: uint32)
    ensures RecordOf(store[Decimal.ToString(h) := r], g) == if g == h then r else RecordOf(store, g)
  {
    if Decimal.ToString(h) == Decimal.ToString(g) {
      Decimal.ToStringInjective(h, g);
    }
  }

  /** Writing one record. */
  lemma PutRecord(store: Store, levels: Levels, next: Levels, h: uint32, r: CoinRecord)
    requires ShowsStored(store, levels) && Aligned(r) && next.recorded == levels.recorded + {h}
    requires forall l: Locator ::
               next.StoredAt(l) == if l.transactionHash == h then Outputs(r, l.outputIndex) else levels.StoredAt(l)
    ensures ShowsStored(store[Decimal.ToString(h) := r], next)
  {
    hide Outputs, Decimal.ToString, RecordOf, Aligned;
    var after := store[Decimal.ToString(h) := r];
    forall k | k in after
      ensures Aligned(after[k]) && IsRecorded(next.recorded, k)
    {
      if k != Decimal.ToString(h) {
        var g :| g in levels.recorded && k == Decimal.ToString(g);
        assert g in next.recorded;
      } else {
        assert h in next.recorded;
      }
    }
    forall l: Locator
      ensures Outputs(RecordOf(after, l.transactionHash), l.outputIndex) == next.StoredAt(l)
    {
      OtherRecords(store, h, r, l.transactionHash);
      assert Outputs(RecordOf(store, l.transactionHash), l.outputIndex) == levels.StoredAt(l);
    }
  }

  /** Erasing the first position of a coin takes one stored output from its locator. */
  lemma SpendStored(store: Store, levels: Levels, l: Locator)
    requires ShowsStored(store, levels) && l !in levels.cached && levels.StoredAt(l) != []
    ensures var r := RecordOf(store, l.transactionHash);
            var p := Find(r.utxo, l.outputIndex);
            && p < |r.utxo| && l.transactionHash in levels.recorded
            && ShowsStored(store[Decimal.ToString(l.transactionHash) := Erase(r, p)], Spent(levels, l))
  {
    hide OutputsIn, Decimal.ToString, Erase, Find;
    var r := RecordOf(store, l.transactionHash);
    StoredIff(store, levels, l);
    RecordAligned(store, levels, l.transactionHash);
    var after := Erase(r, Find(r.utxo, l.outputIndex));
    forall index: uint32
      ensures Aligned(after) && Outputs(after, index) ==
              if index == l.outputIndex then Outputs(r, index)[1..] else Outputs(r, index)
    {
      EraseOutputs(r, l.outputIndex, index);
    }
    hide Aligned, Outputs;
    RecordedIff(store, levels, l.transactionHash);
    assert levels.recorded + {l.transactionHash} == levels.recorded;
    forall m: Locator
      ensures Spent(levels, l).StoredAt(m) ==
              if m.transactionHash == l.transactionHash then Outputs(after, m.outputIndex) else levels.StoredAt(m)
    {
      assert Outputs(RecordOf(store, m.transactionHash), m.outputIndex) == levels.StoredAt(m);
    }
    PutRecord(store, levels, Spent(levels, l), l.transactionHash, after);
  }

  /** A locator has stored outputs exactly when its record lists the index; then there is a record. */
  lemma StoredIff(store: Store, levels: Levels, l: Locator)
    requires ShowsStored(store, levels)
    ensures var utxo := RecordOf(store, l.transactionHash).utxo;
            Find(utxo, l.outputIndex) < |utxo| <==> levels.StoredAt(l) != []
    ensures levels.StoredAt(l) != [] ==>
              Decimal.ToString(l.transactionHash) in store && l.transactionHash in levels.recorded
  {
    hide Find, OutputsIn, Decimal.ToString;
    var r := RecordOf(store, l.transactionHash);
    RecordAligned(store, levels, l.transactionHash);
    FoundInIff(r.utxo, r.amounts, r.publicKeys, l.outputIndex);
    RecordedIff(store, levels, l.transactionHash);
    assert Outputs(r, l.outputIndex) == levels.StoredAt(l);
  }

  /** Appending a cached coin to its record moves it to the end of what is stored. */
  lemma FlushStored(store: Store, levels: Levels, l: Locator)
    requires ShowsStored(store, levels) && l in levels.cached
    ensures var r := Append(RecordOf(store, l.transactionHash), l.outputIndex, levels.cached[l]);
            ShowsStored(store[Decimal.ToString(l.transactionHash) := r], FlushedOne(levels, l))
  {
    hide OutputsIn, Decimal.ToString, Append;
    var before := RecordOf(store, l.transactionHash);
    RecordAligned(store, levels, l.transactionHash);
    var r := Append(before, l.outputIndex, levels.cached[l]);
    forall index: uint32
      ensures Aligned(r)
      ensures Outputs(r, index) ==
              Outputs(before, index) + if index == l.outputIndex then [levels.cached[l]] else []
    {
      AppendOutputs(before, l.outputIndex, levels.cached[l], index);
    }
    hide Aligned, Outputs;
    forall m: Locator
      ensures FlushedOne(levels, l).StoredAt(m) ==
              if m.transactionHash == l.transactionHash then Outputs(r, m.outputIndex) else levels.StoredAt(m)
    {
      assert Outputs(RecordOf(store, m.transactionHash), m.outputIndex) == levels.StoredAt(m);
    }
    PutRecord(store, levels, FlushedOne(levels, l), l.transactionHash, r);
  }

  /** Reading a record leaves one behind, and otherwise changes nothing. */
  lemma ReadRecord(store: Store, levels: Levels, h: uint32)
    requires ShowsStored(store, levels)
    ensures ShowsStored(store[Decimal.ToString(h) := RecordOf(store, h)], levels.(recorded := levels.recorded + {h}))
  {
    hide Outputs, Decimal.ToString, RecordOf, Aligned;
    RecordAligned(store, levels, h);
    var next := levels.(recorded := levels.recorded + {h});
    forall l: Locator
      ensures next.StoredAt(l) ==
              if l.transactionHash == h then Outputs(RecordOf(store, h), l.outputIndex) else levels.StoredAt(l)
    {
      assert Outputs(RecordOf(store, l.transactionHash), l.outputIndex) == levels.StoredAt(l);
    }
    PutRecord(store, levels, next, h, RecordOf(store, h));
  }
}
