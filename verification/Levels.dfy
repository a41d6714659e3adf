/**
 * The two levels of the coin database as an abstract machine: the cache by locator, the stored outputs of each locator
 * in the order of its record, the transactions that have a record, and the cache counter. The machine is exact in every
 * state; a locator may be held more than once, when a coin is created that is already there.
 */
module Levels {
  import opened Types
  import opened Primitives
  import opened CoinLocator
  import opened Ledger
  import opened Placement

  const CAPACITY: uint16 := 70

  datatype Levels = Levels(
    cached: Utxos, stored: map<Locator, seq<TransactionOutput>>, recorded: set<uint32>, count: nat)
  {
    function StoredAt(l: Locator): seq<TransactionOutput> {
      if l in stored then stored[l] else []
    }

    /** Everything that is held under a locator, the cached output first. */
    function Copies(l: Locator): seq<TransactionOutput> {
      (if l in cached then [cached[l]] else []) + StoredAt(l)
    }

    /** The flat map that the levels denote. */
    function Held(): Utxos {
      map l | l in cached.Keys + stored.Keys && Copies(l) != [] :: Copies(l)[0]
    }
  }

  const NOTHING := Levels(map[], map[], {}, 0)

  /** The levels denote the same coins, whatever their counters are. */
  ghost predicate Same(levels: Levels, next: Levels) {
    && levels.cached == next.cached && levels.recorded == next.recorded
    && forall l: Locator :: levels.StoredAt(l) == next.StoredAt(l)
  }

  // ----- One step -----

  /** Every cached coin moves to the end of its record. */
  function Flushed(levels: Levels): Levels {
    Levels(map[],
           map l | l in levels.cached.Keys + levels.stored.Keys ::
             levels.StoredAt(l) + if l in levels.cached then [levels.cached[l]] else [],
           levels.recorded + (set l | l in levels.cached :: l.transactionHash),
           0)
  }

  /** One cached coin does. */
  function FlushedOne(levels: Levels, l: Locator): Levels {
    if l !in levels.cached then levels
    else levels.(cached := levels.cached - {l}, stored := levels.stored[l := levels.StoredAt(l) + [levels.cached[l]]],
            recorded := levels.recorded + {l.transactionHash})
  }

  function Spent(levels: Levels, l: Locator): Levels {
    if l in levels.cached then
      levels.(cached := levels.cached - {l}, count := if levels.count == 0 then 0 else levels.count - 1)
    else if levels.StoredAt(l) == [] then levels
    else levels.(stored := levels.stored[l := levels.StoredAt(l)[1..]])
  }

  lemma SpentCounts(levels: Levels, l: Locator)
    ensures l in levels.cached ==> Spent(levels, l).cached == levels.cached - {l} && SpendDefined(levels, l)
    ensures l in levels.cached && levels.count > 0 ==> Spent(levels, l).count == levels.count - 1
    ensures l !in levels.cached ==> Spent(levels, l).cached == levels.cached && Spent(levels, l).count == levels.count
    ensures l in levels.cached ==>
              Spent(levels, l).recorded == levels.recorded && Spent(levels, l).stored == levels.stored
  {
  }

  /** A spend of a coin that is not there erases past the end of a record, if the transaction has one. */
  predicate SpendDefined(levels: Levels, l: Locator) {
    l in levels.Held() || l.transactionHash !in levels.recorded
  }

  /** Before a coin is cached, a full cache is flushed. */
  function Ready(levels: Levels): Levels {
    if levels.count >= CAPACITY then Flushed(levels) else levels
  }

  /** An output joins the cache, unless the cache has its locator; it is counted in any case. */
  function Created(levels: Levels, l: Locator, output: TransactionOutput): Levels {
    var R := Ready(levels);
    R.(cached := if l in R.cached then R.cached else R.cached[l := output], count := R.count + 1)
  }

  function Next(levels: Levels, operation: Operation): Levels {
    match operation
    case Spend(l) => Spent(levels, l)
    case Create(l, output) => Created(levels, l, output)
  }

  predicate NextDefined(levels: Levels, operation: Operation) {
    operation.Spend? ==> SpendDefined(levels, operation.locator)
  }

  /** The order in which the cached coins are flushed does not matter. */
  lemma FlushInAnyOrder(levels: Levels, l: Locator)
    requires l in levels.cached
    ensures Same(Flushed(FlushedOne(levels, l)), Flushed(levels)) && FlushedOne(levels, l).cached == levels.cached - {l}
  {
  }

  lemma ReadyCounts(levels: Levels, l: Locator, output: TransactionOutput)
    ensures Ready(levels).count < CAPACITY && Created(levels, l, output).count == Ready(levels).count + 1
    ensures Created(levels, l, output).cached ==
            if l in Ready(levels).cached then Ready(levels).cached else Ready(levels).cached[l := output]
    ensures Created(levels, l, output).recorded == Ready(levels).recorded
    ensures forall m: Locator :: Created(levels, l, output).StoredAt(m) == Ready(levels).StoredAt(m)
  {
    hide Flushed;
    FlushedEmpty(levels);
  }

  lemma FlushedEmpty(levels: Levels)
    ensures Flushed(levels).cached == map[] && Flushed(levels).count == 0
  {
  }

  lemma FlushNone(levels: Levels)
    requires levels.cached == map[]
    ensures Same(levels, Flushed(levels))
  {
  }

  // ----- Reading -----

  /** Looking for a coin that is not cached leaves a record of its transaction behind. */
  function Touches(levels: Levels, l: Locator): set<uint32> {
    if l in levels.cached then {} else {l.transactionHash}
  }

  /** The transactions that have a record after validating inputs up to the first that is not there. */
  function Probed(levels: Levels, inputs: seq<TransactionInput>): set<uint32> {
    if inputs == [] then {}
    else
      var l := Referenced(inputs[0]);
      Touches(levels, l) + if l in levels.Held() then Probed(levels, inputs[1..]) else {}
  }

  function ProbedAll(levels: Levels, ts: seq<Transaction>): set<uint32> {
    if ts == [] then {}
    else Probed(levels, ts[0].inputs) + if AllKnown(levels.Held(), ts[0].inputs) then ProbedAll(levels, ts[1..]) else {}
  }

  function Reading(levels: Levels, touched: set<uint32>): Levels {
    levels.(recorded := levels.recorded + touched)
  }

  /** The levels after validating the transactions of a block. */
  function Validated(levels: Levels, ts: seq<Transaction>): Levels {
    Reading(levels, ProbedAll(levels, ts))
  }

  /** Reading changes no coin. */
  lemma ReadingHolds(levels: Levels, touched: set<uint32>)
    ensures Reading(levels, touched).Held() == levels.Held()
  {
    var next := Reading(levels, touched);
    assert forall l: Locator :: next.Copies(l) == levels.Copies(l);
  }

  /** Validating inputs that are all cached reads no record. */
  lemma {:induction false} CachedReadsNothing(levels: Levels, inputs: seq<TransactionInput>)
    requires forall i | 0 <= i < |inputs| :: Referenced(inputs[i]) in levels.cached
    ensures Probed(levels, inputs) == {} && AllKnown(levels.Held(), inputs)
  {
    if inputs != [] {
      assert forall i | 0 < i < |inputs| :: inputs[i] == inputs[1..][i - 1];
      CachedReadsNothing(levels, inputs[1..]);
      assert levels.Copies(Referenced(inputs[0])) != [];
    }
  }

  /** Input i of transaction k is looked for in the records: all before it are there, and it is not cached. */
  ghost predicate Reads(levels: Levels, ts: seq<Transaction>, k: nat, i: nat) {
    && k < |ts| && i < |ts[k].inputs| && InputAt(ts, k, i) !in levels.cached
    && (forall m, n | 0 <= m < k && 0 <= n < |ts[m].inputs| :: InputAt(ts, m, n) in levels.Held())
    && forall n | 0 <= n < i :: InputAt(ts, k, n) in levels.Held()
  }

  lemma {:induction false} ProbedIff(levels: Levels, inputs: seq<TransactionInput>, h: uint32)
    ensures h in Probed(levels, inputs) <==>
            exists i | 0 <= i < |inputs| ::
              && Referenced(inputs[i]) !in levels.cached && inputs[i].referenceTransactionHash == h
              && forall n | 0 <= n < i :: Referenced(inputs[n]) in levels.Held()
  {
    if inputs != [] {
      var rest := inputs[1..];
      ProbedIff(levels, rest, h);
      hide Levels.Held;
      if h in Probed(levels, inputs) && h !in Touches(levels, Referenced(inputs[0])) {
        var i :| 0 <= i < |rest| && Referenced(rest[i]) !in levels.cached && rest[i].referenceTransactionHash == h
                 && forall n | 0 <= n < i :: Referenced(rest[n]) in levels.Held();
        assert inputs[i + 1] == rest[i];
        forall n | 0 <= n < i + 1
          ensures Referenced(inputs[n]) in levels.Held()
        {
          assert n > 0 ==> inputs[n] == rest[n - 1];
        }
      }
      if i :| 0 <= i < |inputs| && Referenced(inputs[i]) !in levels.cached && inputs[i].referenceTransactionHash == h
              && forall n | 0 <= n < i :: Referenced(inputs[n]) in levels.Held() {
        if i > 0 {
          assert rest[i - 1] == inputs[i];
          forall n | 0 <= n < i - 1
            ensures Referenced(rest[n]) in levels.Held()
          {
            assert rest[n] == inputs[n + 1];
          }
        }
      }
    }
  }

  lemma ReadsFirst(levels: Levels, ts: seq<Transaction>, i: nat)
    requires ts != [] && i < |ts[0].inputs|
    ensures Reads(levels, ts, 0, i) <==>
            && Referenced(ts[0].inputs[i]) !in levels.cached
            && forall n | 0 <= n < i :: Referenced(ts[0].inputs[n]) in levels.Held()
  {
    hide Levels.Held;
    assert forall n | 0 <= n < |ts[0].inputs| :: InputAt(ts, 0, n) == Referenced(ts[0].inputs[n]);
  }

  lemma ReadsLater(levels: Levels, ts: seq<Transaction>, k: nat, i: nat)
    requires ts != []
    ensures Reads(levels, ts, k + 1, i) <==> AllKnown(levels.Held(), ts[0].inputs) && Reads(levels, ts[1..], k, i)
  {
    hide Levels.Held;
    var rest := ts[1..];
    assert forall n | 0 <= n < |ts[0].inputs| :: InputAt(ts, 0, n) == Referenced(ts[0].inputs[n]);
    assert forall m, n | 0 <= m < |rest| && 0 <= n < |rest[m].inputs| :: InputAt(rest, m, n) == InputAt(ts, m + 1, n);
    if AllKnown(levels.Held(), ts[0].inputs) && Reads(levels, rest, k, i) {
      forall m, n | 0 <= m < k + 1 && 0 <= n < |ts[m].inputs|
        ensures InputAt(ts, m, n) in levels.Held()
      {
        assert m > 0 ==> InputAt(rest, m - 1, n) in levels.Held();
      }
      var next := k + 1;
      forall n | 0 <= n < i
        ensures InputAt(ts, next, n) in levels.Held()
      {
        assert InputAt(rest, k, n) in levels.Held();
      }
    }
    if Reads(levels, ts, k + 1, i) {
      forall n | 0 <= n < |ts[0].inputs|
        ensures Referenced(ts[0].inputs[n]) in levels.Held()
      {
        assert InputAt(ts, 0, n) in levels.Held();
      }
      forall m, n | 0 <= m < k && 0 <= n < |rest[m].inputs|
        ensures InputAt(rest, m, n) in levels.Held()
      {
        assert InputAt(ts, m + 1, n) in levels.Held();
      }
    }
  }

  ghost predicate AnyReads(levels: Levels, ts: seq<Transaction>, h: uint32) {
    exists k: nat, i: nat :: Reads(levels, ts, k, i) && ts[k].inputs[i].referenceTransactionHash == h
  }

  /** Whether one of the inputs is not cached, and all before it are there. */
  ghost predicate AnyOf(levels: Levels, inputs: seq<TransactionInput>, h: uint32) {
    exists i | 0 <= i < |inputs| ::
      && Referenced(inputs[i]) !in levels.cached && inputs[i].referenceTransactionHash == h
      && forall n | 0 <= n < i :: Referenced(inputs[n]) in levels.Held()
  }

  lemma AnyReadsFirst(levels: Levels, ts: seq<Transaction>, h: uint32)
    requires ts != []
    ensures AnyOf(levels, ts[0].inputs, h) ==> AnyReads(levels, ts, h)
  {
    if AnyOf(levels, ts[0].inputs, h) {
      hide Levels.Held, Reads;
      var inputs := ts[0].inputs;
      var i :| 0 <= i < |inputs| && Referenced(inputs[i]) !in levels.cached && inputs[i].referenceTransactionHash == h
               && forall n | 0 <= n < i :: Referenced(inputs[n]) in levels.Held();
      ReadsFirst(levels, ts, i);
    }
  }

  lemma AnyReadsLater(levels: Levels, ts: seq<Transaction>, h: uint32)
    requires ts != [] && AllKnown(levels.Held(), ts[0].inputs)
    ensures AnyReads(levels, ts[1..], h) ==> AnyReads(levels, ts, h)
  {
    hide Levels.Held, AllKnown;
    if AnyReads(levels, ts[1..], h) {
      var k: nat, i: nat :| Reads(levels, ts[1..], k, i) && ts[1..][k].inputs[i].referenceTransactionHash == h;
      ReadsLater(levels, ts, k, i);
      assert Reads(levels, ts, k + 1, i);
    }
  }

  lemma AnyReadsSplit(levels: Levels, ts: seq<Transaction>, h: uint32)
    requires ts != [] && AnyReads(levels, ts, h)
    ensures AnyOf(levels, ts[0].inputs, h) || (AllKnown(levels.Held(), ts[0].inputs) && AnyReads(levels, ts[1..], h))
  {
    hide Levels.Held, AllKnown;
    var k: nat, i: nat :| Reads(levels, ts, k, i) && ts[k].inputs[i].referenceTransactionHash == h;
    if k == 0 {
      ReadsFirst(levels, ts, i);
    } else {
      ReadsLater(levels, ts, k - 1, i);
      assert Reads(levels, ts[1..], k - 1, i) && ts[1..][k - 1] == ts[k];
    }
  }

  /** Validation looks for exactly these inputs in the records, and stops at the first that is not there. */
  lemma {:induction false} ProbedAllIff(levels: Levels, ts: seq<Transaction>, h: uint32)
    ensures h in ProbedAll(levels, ts) <==>
            exists k: nat, i: nat :: Reads(levels, ts, k, i) && ts[k].inputs[i].referenceTransactionHash == h
  {
    assert AnyReads(levels, ts, h) <==>
           exists k: nat, i: nat :: Reads(levels, ts, k, i) && ts[k].inputs[i].referenceTransactionHash == h;
    hide Probed, Levels.Held, Reads, AllKnown, AnyReads;
    if ts != [] {
      ProbedAllIff(levels, ts[1..], h);
      AnyReadsIs(levels, ts[1..], h);
      ProbedIff(levels, ts[0].inputs, h);
      assert AnyOf(levels, ts[0].inputs, h) <==> h in Probed(levels, ts[0].inputs);
      hide AnyOf;
      AnyReadsFirst(levels, ts, h);
      if AllKnown(levels.Held(), ts[0].inputs) {
        AnyReadsLater(levels, ts, h);
      }
      if AnyReads(levels, ts, h) {
        AnyReadsSplit(levels, ts, h);
      }
    } else {
      NothingReads(levels, h);
    }
  }

  lemma AnyReadsIs(levels: Levels, ts: seq<Transaction>, h: uint32)
    ensures AnyReads(levels, ts, h) <==>
            exists k: nat, i: nat :: Reads(levels, ts, k, i) && ts[k].inputs[i].referenceTransactionHash == h
  {
    hide Reads;
  }

  lemma NothingReads(levels: Levels, h: uint32)
    ensures !AnyReads(levels, [], h)
  {
  }

  lemma ProbedFrom(levels: Levels, inputs: seq<TransactionInput>, i: nat)
    requires i < |inputs|
    ensures var l := Referenced(inputs[i]);
            Probed(levels, inputs[i..]) ==
            Touches(levels, l) + if l in levels.Held() then Probed(levels, inputs[i + 1..]) else {}
  {
    assert inputs[i..][0] == inputs[i] && inputs[i..][1..] == inputs[i + 1..];
  }

  lemma ProbedNone(levels: Levels, inputs: seq<TransactionInput>)
    ensures Probed(levels, inputs[|inputs|..]) == {} && inputs[0..] == inputs
  {
  }

  lemma ReadingAgain(levels: Levels, touched: set<uint32>, l: Locator)
    ensures Reading(Reading(levels, touched), Touches(Reading(levels, touched), l)) ==
            Reading(levels, touched + Touches(levels, l))
  {
    assert levels.recorded + touched + Touches(levels, l) == levels.recorded + (touched + Touches(levels, l));
  }

  lemma {:induction false} ProbedSame(levels: Levels, touched: set<uint32>, inputs: seq<TransactionInput>)
    ensures Probed(Reading(levels, touched), inputs) == Probed(levels, inputs)
  {
    if inputs != [] {
      ReadingHolds(levels, touched);
      ProbedSame(levels, touched, inputs[1..]);
    }
  }

  /** But it changes what a later spend does, exactly when the coin is missing and its transaction had no record. */
  lemma ReadingSpoilsSpendIff(levels: Levels, read: Locator, spent: Locator)
    ensures SpendDefined(Reading(levels, Touches(levels, read)), spent) != SpendDefined(levels, spent) <==>
            && spent !in levels.Held() && spent.transactionHash !in levels.recorded
            && read !in levels.cached && read.transactionHash == spent.transactionHash
  {
    ReadingHolds(levels, Touches(levels, read));
  }

  // ----- Runs -----

  function Run(levels: Levels, operations: seq<Operation>): Levels {
    var n := |operations|;
    if n == 0 then levels else Next(Run(levels, operations[..n - 1]), operations[n - 1])
  }

  /** Every spend that finds no coin finds no record either. */
  predicate RunDefined(levels: Levels, operations: seq<Operation>) {
    forall i | 0 <= i < |operations| :: NextDefined(Run(levels, operations[..i]), operations[i])
  }

  lemma RunNext(levels: Levels, operations: seq<Operation>, i: nat)
    requires i < |operations|
    ensures Run(levels, operations[..i + 1]) == Next(Run(levels, operations[..i]), operations[i])
    ensures RunDefined(levels, operations[..i + 1]) <==>
            RunDefined(levels, operations[..i]) && NextDefined(Run(levels, operations[..i]), operations[i])
  {
    var now, next := operations[..i], operations[..i + 1];
    hide NextDefined, Next;
    assert next[..i] == now;
    forall j | 0 <= j < i
      ensures next[..j] == now[..j]
    {
    }
    if RunDefined(levels, next) {
      forall j | 0 <= j < i
        ensures NextDefined(Run(levels, now[..j]), now[j])
      {
        assert next[..j] == now[..j] && next[j] == now[j];
      }
      assert next[i] == operations[i];
    }
  }

  lemma RunNone(levels: Levels)
    ensures Run(levels, []) == levels && RunDefined(levels, [])
  {
  }

  lemma {:induction false} RunAppend(levels: Levels, a: seq<Operation>, b: seq<Operation>)
    ensures Run(levels, a + b) == Run(Run(levels, a), b)
    ensures RunDefined(levels, a + b) <==> RunDefined(levels, a) && RunDefined(Run(levels, a), b)
  {
    hide *;
    if b == [] {
      assert a + b == a;
      RunNone(Run(levels, a));
    } else {
      var n := |b| - 1;
      RunAppend(levels, a, b[..n]);
      RunNext(levels, a + b, |a| + n);
      RunNext(Run(levels, a), b, n);
      assert (a + b)[..|a| + n] == a + b[..n] && (a + b)[..|a| + n + 1] == a + b && b[..n + 1] == b;
    }
  }
}
