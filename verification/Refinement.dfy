/**
 * When the two levels denote the flat map that the operations lead to. Spends of missing coins and creations of coins
 * that are already there are included; what goes wrong, and exactly when, is a spend of a coin that was created while
 * it was there and not cached.
 */
module Refinement {
  import opened Types
  import opened Primitives
  import opened CoinLocator
  import opened Ledger
  import opened Levels
  import opened Placement

  /** Each coin is held once, and the counter is exact. */
  ghost predicate Clean(levels: Levels) {
    |levels.cached| == levels.count && forall l: Locator :: |levels.Copies(l)| <= 1
  }

  /** The levels hold coins under the locators of u and no others. */
  ghost predicate Covers(levels: Levels, u: Utxos) {
    forall l: Locator :: levels.Copies(l) != [] <==> l in u
  }

  predicate Only(copies: seq<TransactionOutput>, c: TransactionOutput) {
    forall i | 0 <= i < |copies| :: copies[i] == c
  }

  /** And under those of u only its coins. */
  ghost predicate Agree(levels: Levels, u: Utxos) {
    forall l | l in u :: Only(levels.Copies(l), u[l])
  }

  lemma HeldAt(levels: Levels, l: Locator)
    ensures l in levels.Held() <==> levels.Copies(l) != []
    ensures l in levels.Held() ==> levels.Held()[l] == levels.Copies(l)[0]
    ensures l in levels.cached ==> levels.Copies(l) != []
  {
  }

  lemma HeldCovers(levels: Levels)
    ensures Covers(levels, levels.Held())
    ensures Clean(levels) ==> Agree(levels, levels.Held())
  {
    hide Levels.Copies, Levels.Held;
    forall l: Locator
      ensures levels.Copies(l) != [] <==> l in levels.Held()
      ensures l in levels.Held() ==> levels.Held()[l] == levels.Copies(l)[0]
    {
      HeldAt(levels, l);
    }
  }

  lemma CoversHeld(levels: Levels, u: Utxos)
    requires Covers(levels, u)
    ensures levels.Held().Keys == u.Keys
    ensures Agree(levels, u) ==> levels.Held() == u
  {
    hide Levels.Copies, Levels.Held;
    forall l: Locator
      ensures l in levels.Held() <==> l in u
      ensures l in u && Agree(levels, u) ==> levels.Held()[l] == u[l]
    {
      HeldAt(levels, l);
    }
  }

  // ----- The copies under a locator, step by step -----

  lemma SpentCopies(levels: Levels, l: Locator, m: Locator)
    ensures Spent(levels, l).Copies(m) ==
            if m == l && levels.Copies(l) != [] then levels.Copies(l)[1..] else levels.Copies(m)
  {
  }

  lemma OnlyMoved(first: TransactionOutput, rest: seq<TransactionOutput>, c: TransactionOutput)
    ensures Only([first] + rest, c) ==> Only(rest + [first], c)
  {
    assert ([first] + rest)[0] == first;
    assert forall i | 0 <= i < |rest| :: ([first] + rest)[i + 1] == rest[i];
  }

  lemma FlushedCopies(levels: Levels, m: Locator)
    ensures Flushed(levels).Copies(m) ==
            if m in levels.cached then levels.StoredAt(m) + [levels.cached[m]] else levels.Copies(m)
  {
  }

  lemma ReadyCopies(levels: Levels, m: Locator)
    ensures |Ready(levels).Copies(m)| == |levels.Copies(m)|
    ensures forall c | Only(levels.Copies(m), c) :: Only(Ready(levels).Copies(m), c)
  {
    FlushedCopies(levels, m);
    assert levels.Copies(m) ==
           if m in levels.cached then [levels.cached[m]] + levels.StoredAt(m) else levels.StoredAt(m);
    hide Flushed, Levels.Copies, Levels.StoredAt, Only;
    if m in levels.cached {
      forall c
        ensures Only([levels.cached[m]] + levels.StoredAt(m), c) ==> Only(levels.StoredAt(m) + [levels.cached[m]], c)
      {
        OnlyMoved(levels.cached[m], levels.StoredAt(m), c);
      }
    }
  }

  lemma CreatedCopies(levels: Levels, l: Locator, output: TransactionOutput, m: Locator)
    ensures Created(levels, l, output).Copies(m) ==
            if m == l && l !in Ready(levels).cached then [output] + Ready(levels).Copies(m) else Ready(levels).Copies(m)
  {
    hide Ready;
  }

  /** Reading changes none of this. */
  lemma ReadingCopies(levels: Levels, touched: set<uint32>)
    ensures forall l: Locator :: Reading(levels, touched).Copies(l) == levels.Copies(l)
    ensures Clean(levels) ==> Clean(Reading(levels, touched))
  {
    assert forall l: Locator :: Reading(levels, touched).StoredAt(l) == levels.StoredAt(l);
  }

  /** The locators that are held more than once. */
  ghost predicate Twice(levels: Levels, doubled: set<Locator>) {
    forall l: Locator :: |levels.Copies(l)| > 1 <==> l in doubled
  }

  lemma CoversSpent(levels: Levels, u: Utxos, l: Locator, doubled: set<Locator>)
    requires Covers(levels, u) && Twice(levels, doubled) && l !in doubled
    ensures Covers(Spent(levels, l), u - {l}) && Twice(Spent(levels, l), doubled)
    ensures Agree(levels, u) ==> Agree(Spent(levels, l), u - {l})
  {
    hide Spent, Levels.Copies;
    var next := Spent(levels, l);
    assert |levels.Copies(l)| <= 1;
    forall m: Locator
      ensures next.Copies(m) == if m == l then [] else levels.Copies(m)
    {
      SpentCopies(levels, l, m);
    }
  }

  lemma CoversReady(levels: Levels, u: Utxos, doubled: set<Locator>)
    requires Covers(levels, u) && Twice(levels, doubled)
    ensures Covers(Ready(levels), u) && Twice(Ready(levels), doubled)
    ensures Agree(levels, u) ==> Agree(Ready(levels), u)
  {
    hide Ready, Levels.Copies;
    var next := Ready(levels);
    forall m: Locator
      ensures |next.Copies(m)| == |levels.Copies(m)|
      ensures forall c | Only(levels.Copies(m), c) :: Only(next.Copies(m), c)
    {
      ReadyCopies(levels, m);
    }
  }

  lemma CoversCreated(levels: Levels, u: Utxos, l: Locator, output: TransactionOutput, doubled: set<Locator>)
    requires Covers(levels, u) && Twice(levels, doubled)
    ensures Covers(Created(levels, l, output), u[l := output])
    ensures Twice(Created(levels, l, output), doubled + if l in u && l !in Ready(levels).cached then {l} else {})
    ensures Agree(levels, u) && (l in u ==> u[l] == output) ==> Agree(Created(levels, l, output), u[l := output])
  {
    hide Ready, Created, Levels.Copies, Levels.Held;
    CoversReady(levels, u, doubled);
    var ready, next := Ready(levels), Created(levels, l, output);
    HeldAt(ready, l);
    forall m: Locator
      ensures next.Copies(m) == if m == l && l !in ready.cached then [output] + ready.Copies(m) else ready.Copies(m)
    {
      CreatedCopies(levels, l, output, m);
    }
  }

  // ----- Creations of coins that are there and not cached -----

  /** The locators that a run creates a second time: they are there, and the insert does not find them in the cache. */
  function Doubled(levels: Levels, operations: seq<Operation>): set<Locator> {
    var n := |operations|;
    if n == 0 then {}
    else
      var before, last := operations[..n - 1], operations[n - 1];
      Doubled(levels, before) +
      if && last.Create? && last.locator in ApplyAll(levels.Held(), before)
         && last.locator !in Ready(Run(levels, before)).cached
      then {last.locator} else {}
  }

  /** None of them is spent afterwards. */
  predicate Safe(levels: Levels, operations: seq<Operation>) {
    var n := |operations|;
    n == 0 ||
    (&& Safe(levels, operations[..n - 1])
     && (operations[n - 1].Spend? ==> operations[n - 1].locator !in Doubled(levels, operations[..n - 1])))
  }

  /** Whatever is created while it is there is created as it was. */
  predicate Repeats(u: Utxos, operations: seq<Operation>) {
    var n := |operations|;
    n == 0 ||
    (&& Repeats(u, operations[..n - 1])
     && var before, last := ApplyAll(u, operations[..n - 1]), operations[n - 1];
        (last.Create? && last.locator in before ==> before[last.locator] == last.output))
  }

  /** The central step: what a safe run holds, and what it holds twice. */
  lemma {:induction false} RunCovers(levels: Levels, operations: seq<Operation>)
    requires Clean(levels) && Safe(levels, operations)
    ensures Covers(Run(levels, operations), ApplyAll(levels.Held(), operations))
    ensures Twice(Run(levels, operations), Doubled(levels, operations))
    ensures Repeats(levels.Held(), operations) ==> Agree(Run(levels, operations), ApplyAll(levels.Held(), operations))
  {
    var n := |operations|;
    if n == 0 {
      HeldCovers(levels);
    } else {
      hide Covers, Agree, Twice, Ready, Created, Spent, Levels.Held, Levels.Copies, Clean;
      var before, last := operations[..n - 1], operations[n - 1];
      RunCovers(levels, before);
      var u, doubled := ApplyAll(levels.Held(), before), Doubled(levels, before);
      match last {
        case Spend(l) => CoversSpent(Run(levels, before), u, l, doubled);
        case Create(l, output) => CoversCreated(Run(levels, before), u, l, output, doubled);
      }
    }
  }

  /** A safe run holds the locators of the flat map, and exactly that map when it repeats what was there. */
  lemma SafeRunHolds(levels: Levels, operations: seq<Operation>)
    requires Clean(levels) && Safe(levels, operations)
    ensures Run(levels, operations).Held().Keys == ApplyAll(levels.Held(), operations).Keys
    ensures Repeats(levels.Held(), operations) ==>
              Run(levels, operations).Held() == ApplyAll(levels.Held(), operations)
  {
    RunCovers(levels, operations);
    CoversHeld(Run(levels, operations), ApplyAll(levels.Held(), operations));
  }

  /** After a safe run, a coin stays when it is spent exactly when it was doubled. */
  lemma SpentStaysIff(levels: Levels, operations: seq<Operation>, l: Locator)
    requires Clean(levels) && Safe(levels, operations)
    ensures l in Spent(Run(levels, operations), l).Held() <==> l in Doubled(levels, operations)
  {
    RunCovers(levels, operations);
    assert |Run(levels, operations).Copies(l)| > 1 <==> l in Doubled(levels, operations);
    hide *;
    SpentCopies(Run(levels, operations), l, l);
    HeldAt(Spent(Run(levels, operations), l), l);
  }

  /** The levels hold the locators of the flat map after each operation of a run. */
  ghost predicate HoldsThroughout(levels: Levels, operations: seq<Operation>) {
    forall i | 0 <= i <= |operations| ::
      Run(levels, operations[..i]).Held().Keys == ApplyAll(levels.Held(), operations[..i]).Keys
  }

  lemma ThroughoutBefore(levels: Levels, operations: seq<Operation>)
    requires |operations| > 0
    ensures var before := operations[..|operations| - 1];
            HoldsThroughout(levels, operations) <==>
            && HoldsThroughout(levels, before)
            && Run(levels, operations).Held().Keys == ApplyAll(levels.Held(), operations).Keys
  {
    hide Run, ApplyAll, Levels.Held;
    var n := |operations| - 1;
    assert operations[..n + 1] == operations;
    assert forall i | 0 <= i <= n :: operations[..n][..i] == operations[..i];
    if HoldsThroughout(levels, operations) {
      forall i | 0 <= i <= n
        ensures Run(levels, operations[..n][..i]).Held().Keys == ApplyAll(levels.Held(), operations[..n][..i]).Keys
      {
        assert operations[..n][..i] == operations[..i];
      }
    } else {
      var i :| 0 <= i <= n + 1 &&
               Run(levels, operations[..i]).Held().Keys != ApplyAll(levels.Held(), operations[..i]).Keys;
      assert i <= n ==> operations[..n][..i] == operations[..i];
    }
  }

  /** They do exactly when the run spends no coin that it created while it was there and not cached. */
  lemma {:induction false} HoldsThroughoutIff(levels: Levels, operations: seq<Operation>)
    requires Clean(levels)
    ensures HoldsThroughout(levels, operations) <==> Safe(levels, operations)
  {
    var n := |operations|;
    if n == 0 {
      assert operations[..0] == [] && ApplyAll(levels.Held(), []) == levels.Held();
    } else {
      var before, last := operations[..n - 1], operations[n - 1];
      HoldsThroughoutIff(levels, before);
      ThroughoutBefore(levels, operations);
      if Safe(levels, operations) {
        SafeRunHolds(levels, operations);
      } else if Safe(levels, before) {
        SpentStaysIff(levels, before, last.locator);
        assert Run(levels, operations) == Spent(Run(levels, before), last.locator);
        assert ApplyAll(levels.Held(), operations) == ApplyAll(levels.Held(), before) - {last.locator};
        hide *;
        assert last.locator in Run(levels, operations).Held().Keys;
        assert last.locator !in ApplyAll(levels.Held(), operations).Keys;
      }
    }
  }

  lemma OneCreation(levels: Levels, l: Locator, output: TransactionOutput)
    requires l in levels.Held()
    ensures Safe(levels, [Create(l, output)])
    ensures l in Doubled(levels, [Create(l, output)]) <==> l !in Ready(levels).cached
    ensures Run(levels, [Create(l, output), Spend(l)]) == Spent(Run(levels, [Create(l, output)]), l)
  {
    hide Created, Spent, Ready, Levels.Held;
    var one, two := [Create(l, output)], [Create(l, output), Spend(l)];
    assert two[..|two| - 1] == one && one[..|one| - 1] == [];
    assert Run(levels, []) == levels && ApplyAll(levels.Held(), []) == levels.Held() && Doubled(levels, []) == {};
  }

  /** In particular, a coin created while it is there and then spent stays exactly when it was not in the cache. */
  lemma RecreatedStaysIff(levels: Levels, l: Locator, output: TransactionOutput)
    requires Clean(levels) && l in levels.Held()
    ensures l in Run(levels, [Create(l, output), Spend(l)]).Held() <==> l !in Ready(levels).cached
  {
    hide *;
    OneCreation(levels, l, output);
    SpentStaysIff(levels, [Create(l, output)], l);
  }

  // ----- A condition on the flat map alone -----

  /** The locators created while they were there. */
  function Recreated(u: Utxos, operations: seq<Operation>): set<Locator> {
    var n := |operations|;
    if n == 0 then {}
    else
      var last := operations[n - 1];
      Recreated(u, operations[..n - 1]) +
      if last.Create? && last.locator in ApplyAll(u, operations[..n - 1]) then {last.locator} else {}
  }

  /** None of them is spent afterwards. */
  predicate Plain(u: Utxos, operations: seq<Operation>) {
    var n := |operations|;
    n == 0 || (&& Plain(u, operations[..n - 1])
               && (operations[n - 1].Spend? ==> operations[n - 1].locator !in Recreated(u, operations[..n - 1])))
  }

  /** It makes a run safe wherever the flushes fall. */
  lemma {:induction false} PlainIsSafe(levels: Levels, operations: seq<Operation>)
    ensures Doubled(levels, operations) <= Recreated(levels.Held(), operations)
    ensures Plain(levels.Held(), operations) ==> Safe(levels, operations)
  {
    hide Ready, Run, ApplyAll, Levels.Held;
    var n := |operations|;
    if n > 0 {
      PlainIsSafe(levels, operations[..n - 1]);
    }
  }

  lemma PlainRunHolds(levels: Levels, operations: seq<Operation>)
    requires Clean(levels) && Plain(levels.Held(), operations)
    ensures Run(levels, operations).Held().Keys == ApplyAll(levels.Held(), operations).Keys
    ensures Repeats(levels.Held(), operations) ==>
              Run(levels, operations).Held() == ApplyAll(levels.Held(), operations)
  {
    hide *;
    PlainIsSafe(levels, operations);
    SafeRunHolds(levels, operations);
  }

  // ----- Runs that create only new coins -----

  lemma {:induction false} NothingRecreated(u: Utxos, operations: seq<Operation>)
    requires Recreated(u, operations) == {}
    ensures Plain(u, operations) && Repeats(u, operations)
  {
    var n := |operations|;
    if n > 0 {
      NothingRecreated(u, operations[..n - 1]);
    }
  }

  lemma {:induction false} CountStays(levels: Levels, operations: seq<Operation>)
    requires Clean(levels) && Recreated(levels.Held(), operations) == {}
    ensures |Run(levels, operations).cached| == Run(levels, operations).count
  {
    var n := |operations|;
    if n > 0 {
      var before, last := Run(levels, operations[..n - 1]), operations[n - 1];
      CountStays(levels, operations[..n - 1]);
      NothingRecreated(levels.Held(), operations[..n - 1]);
      PlainIsSafe(levels, operations[..n - 1]);
      RunCovers(levels, operations[..n - 1]);
      hide Run, Recreated, Plain, Repeats, ApplyAll, Clean, Agree;
      assert last.Create? ==> before.Copies(last.locator) == [];
      CountNext(before, last);
    }
  }

  lemma CountNext(levels: Levels, operation: Operation)
    requires |levels.cached| == levels.count && (operation.Create? ==> levels.Copies(operation.locator) == [])
    ensures |Next(levels, operation).cached| == Next(levels, operation).count
  {
    hide Spent, Created, Ready;
    match operation {
      case Spend(l) => CountSpent(levels, l);
      case Create(l, output) => CountCreated(levels, l, output);
    }
  }

  lemma CountSpent(levels: Levels, l: Locator)
    requires |levels.cached| == levels.count
    ensures |Spent(levels, l).cached| == Spent(levels, l).count
  {
    assert (levels.cached - {l}).Keys == levels.cached.Keys - {l};
  }

  lemma CountCreated(levels: Levels, l: Locator, output: TransactionOutput)
    requires |levels.cached| == levels.count && levels.Copies(l) == []
    ensures |Created(levels, l, output).cached| == Created(levels, l, output).count
  {
    hide Ready, Levels.Copies, Levels.Held;
    var ready := Ready(levels);
    ReadyCopies(levels, l);
    ReadyCount(levels);
    HeldAt(ready, l);
    assert (ready.cached[l := output]).Keys == ready.cached.Keys + {l};
  }

  lemma ReadyCount(levels: Levels)
    requires |levels.cached| == levels.count
    ensures |Ready(levels).cached| == Ready(levels).count
  {
  }

  /** Such a run refines the flat map, spends that find no coin included, and each coin is still held once. */
  lemma FreshRunHolds(levels: Levels, operations: seq<Operation>)
    requires Clean(levels) && Recreated(levels.Held(), operations) == {}
    ensures Clean(Run(levels, operations)) && Run(levels, operations).Held() == ApplyAll(levels.Held(), operations)
  {
    NothingRecreated(levels.Held(), operations);
    PlainIsSafe(levels, operations);
    RunCovers(levels, operations);
    CoversHeld(Run(levels, operations), ApplyAll(levels.Held(), operations));
    CountStays(levels, operations);
  }

  /** New outputs, each created once. */
  lemma {:induction false} FreshIsNotRecreated(u: Utxos, operations: seq<Operation>)
    requires FreshCreates(u, operations)
    ensures Recreated(u, operations) == {}
  {
    var n := |operations|;
    if n > 0 {
      FreshIsNotRecreated(u, operations[..n - 1]);
      if operations[n - 1].Create? {
        NotCreatedStaysOut(u, operations[..n - 1], operations[n - 1].locator);
      }
    }
  }

  lemma {:induction false} NotCreatedStaysOut(u: Utxos, operations: seq<Operation>, l: Locator)
    requires l !in u && forall i | 0 <= i < |operations| && operations[i].Create? :: operations[i].locator != l
    ensures l !in ApplyAll(u, operations)
  {
    var n := |operations|;
    if n > 0 {
      NotCreatedStaysOut(u, operations[..n - 1], l);
    }
  }

  /** A block with new outputs, validated or not: what it leaves, and what that is worth. */
  lemma BlockHolds(levels: Levels, ts: seq<Transaction>, hashOf: Transaction -> uint32)
    requires Clean(levels) && FreshCreates(levels.Held(), BlockOperations(ts, hashOf))
    ensures var operations := BlockOperations(ts, hashOf);
            var after := Run(Validated(levels, ts), operations);
            && Clean(after) && after.Held() == ApplyAll(levels.Held(), operations)
            && Total(after.Held()) + LostValue(levels.Held(), operations) ==
               Total(levels.Held()) + CreatedValue(operations)
  {
    var operations := BlockOperations(ts, hashOf);
    hide Run, Clean, FreshCreates, ApplyAll, Recreated, LostValue, CreatedValue, Total, BlockOperations, ProbedAll;
    ReadingHolds(levels, ProbedAll(levels, ts));
    ReadingCopies(levels, ProbedAll(levels, ts));
    FreshIsNotRecreated(levels.Held(), operations);
    FreshRunHolds(Validated(levels, ts), operations);
    TotalAlwaysChanges(levels.Held(), operations);
  }

  /** Where its coins end up, said without those operations. */
  lemma BlockPlaces(levels: Levels, ts: seq<Transaction>, hashOf: Transaction -> uint32)
    requires Clean(levels) && NewOutputs(levels.Held(), ts, Names(ts, hashOf))
    ensures var after := Run(levels, BlockOperations(ts, hashOf));
            Clean(after) && Leaves(levels.Held(), ts, Names(ts, hashOf), after.Held())
  {
    var operations := BlockOperations(ts, hashOf);
    hide *;
    assert |Names(ts, hashOf)| == |ts| && forall k | 0 <= k < |ts| :: Names(ts, hashOf)[k] == hashOf(ts[k]);
    NewIsFresh(levels.Held(), ts, hashOf, Names(ts, hashOf));
    FreshIsNotRecreated(levels.Held(), operations);
    FreshRunHolds(levels, operations);
    BlockLeaves(levels.Held(), ts, hashOf, Names(ts, hashOf));
  }

  lemma {:induction false} PrefixNotRecreated(u: Utxos, operations: seq<Operation>, i: nat)
    requires i <= |operations| && Recreated(u, operations) == {}
    ensures Recreated(u, operations[..i]) == {}
  {
    var n := |operations|;
    if i == n {
      assert operations[..i] == operations;
    } else {
      PrefixNotRecreated(u, operations[..n - 1], i);
      assert operations[..n - 1][..i] == operations[..i];
    }
  }

  /** It is defined exactly when every spend whose coin is not in the flat map finds no record. */
  lemma FreshRunDefinedIff(levels: Levels, operations: seq<Operation>)
    requires Clean(levels) && Recreated(levels.Held(), operations) == {}
    ensures RunDefined(levels, operations) <==>
            forall i | 0 <= i < |operations| && operations[i].Spend? ::
              || operations[i].locator in ApplyAll(levels.Held(), operations[..i])
              || operations[i].locator.transactionHash !in Run(levels, operations[..i]).recorded
  {
    hide Run, ApplyAll, Recreated, Clean;
    forall i | 0 <= i < |operations|
      ensures Run(levels, operations[..i]).Held() == ApplyAll(levels.Held(), operations[..i])
    {
      PrefixNotRecreated(levels.Held(), operations, i);
      FreshRunHolds(levels, operations[..i]);
    }
  }

  lemma {:induction false} EnabledIsNotRecreated(u: Utxos, operations: seq<Operation>)
    requires AllEnabled(u, operations)
    ensures Recreated(u, operations) == {}
  {
    var n := |operations|;
    if n > 0 {
      EnabledIsNotRecreated(u, operations[..n - 1]);
    }
  }

  /** When every spend finds its coin besides, it is defined. */
  lemma EnabledRunHolds(levels: Levels, operations: seq<Operation>)
    requires Clean(levels) && AllEnabled(levels.Held(), operations)
    ensures Clean(Run(levels, operations)) && Run(levels, operations).Held() == ApplyAll(levels.Held(), operations)
    ensures RunDefined(levels, operations)
  {
    EnabledIsNotRecreated(levels.Held(), operations);
    hide Run, ApplyAll, Recreated, Clean, RunDefined, AllEnabled;
    FreshRunHolds(levels, operations);
    FreshRunDefinedIff(levels, operations);
    forall i | 0 <= i < |operations|
      ensures Enabled(ApplyAll(levels.Held(), operations[..i]), operations[i])
    {
      EnabledAt(levels.Held(), operations, i);
    }
  }

  /** A coin spent twice is gone once; the second spend is defined exactly when its transaction has no record. */
  lemma DoubleSpend(levels: Levels, l: Locator)
    requires Clean(levels) && l in levels.Held()
    ensures var operations := [Spend(l), Spend(l)];
            && Run(levels, operations).Held() == levels.Held() - {l}
            && (RunDefined(levels, operations) <==> l.transactionHash !in levels.recorded)
  {
    hide *;
    var operations := [Spend(l), Spend(l)];
    TwoSpends(levels.Held(), l);
    SpendKeepsRecords(levels, l);
    FreshRunHolds(levels, operations);
    FreshRunDefinedIff(levels, operations);
  }

  lemma TwoSpends(u: Utxos, l: Locator)
    requires l in u
    ensures var operations := [Spend(l), Spend(l)];
            && Recreated(u, operations) == {} && ApplyAll(u, operations) == u - {l}
            && ApplyAll(u, operations[..0]) == u && ApplyAll(u, operations[..1]) == u - {l}
  {
    var operations := [Spend(l), Spend(l)];
    var one := [Spend(l)];
    assert operations[..|operations| - 1] == operations[..1] == one && one[..|one| - 1] == operations[..0] == [];
    assert ApplyAll(u, one) == u - {l} && Recreated(u, one) == {};
  }

  lemma SpendKeepsRecords(levels: Levels, l: Locator)
    ensures var operations := [Spend(l), Spend(l)];
            Run(levels, operations[..0]).recorded == Run(levels, operations[..1]).recorded == levels.recorded
  {
    var operations := [Spend(l), Spend(l)];
    assert operations[..1] == [Spend(l)] && operations[..1][..0] == [] && operations[..0] == [];
  }

  // ----- Operations on different coins, in any state -----

  /** Created coins that are already there are there as they would be created. */
  predicate CreatesAgree(u: Utxos, operations: seq<Operation>) {
    forall i | 0 <= i < |operations| && operations[i].Create? && operations[i].locator in u ::
      u[operations[i].locator] == operations[i].output
  }

  lemma {:induction false} DistinctIsPlain(u: Utxos, operations: seq<Operation>)
    requires DistinctLocators(operations)
    ensures Plain(u, operations)
    ensures forall l | l in Recreated(u, operations) :: exists i :: 0 <= i < |operations| && operations[i].locator == l
    ensures CreatesAgree(u, operations) ==> Repeats(u, operations)
  {
    var n := |operations|;
    if n > 0 {
      DistinctIsPlain(u, operations[..n - 1]);
      UnmentionedStays(u, operations[..n - 1], operations[n - 1].locator);
      assert operations[n - 1].locator !in Recreated(u, operations[..n - 1]);
    }
  }

  /** They leave the coins as they are exactly when every created coin is there and no spent one is. */
  lemma ReplayIsNothingIff(u: Utxos, operations: seq<Operation>)
    requires DistinctLocators(operations) && CreatesAgree(u, operations)
    ensures ApplyAll(u, operations) == u <==>
            forall i | 0 <= i < |operations| :: operations[i].Create? <==> operations[i].locator in u
  {
    if forall i | 0 <= i < |operations| :: operations[i].Create? <==> operations[i].locator in u {
      NothingChanges(u, operations);
    } else {
      var i :| 0 <= i < |operations| && !(operations[i].Create? <==> operations[i].locator in u);
      LastOnLocator(u, operations, i);
    }
  }

  lemma {:induction false} NothingChanges(u: Utxos, operations: seq<Operation>)
    requires CreatesAgree(u, operations)
    requires forall i | 0 <= i < |operations| :: operations[i].Create? <==> operations[i].locator in u
    ensures ApplyAll(u, operations) == u
  {
    var n := |operations|;
    if n > 0 {
      NothingChanges(u, operations[..n - 1]);
    }
  }

  lemma {:induction false} LastOnLocator(u: Utxos, operations: seq<Operation>, i: nat)
    requires i < |operations| && DistinctLocators(operations)
    ensures operations[i].locator in ApplyAll(u, operations) <==> operations[i].Create?
  {
    var n := |operations|;
    if i < n - 1 {
      LastOnLocator(u, operations[..n - 1], i);
    }
  }
}
