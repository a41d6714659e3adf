/**
 * What a takeover does to the coins. A takeover undoes nothing and stores the transactions of the common ancestor once
 * more, on top of the coins of the old chain.
 */
module Takeover {
  import opened Types
  import opened Primitives
  import opened CoinLocator
  import opened Ledger
  import L = Levels
  import R = Refinement
  import Chain
  import F = ForkChoice

  // ----- Storing a block of a chain once more -----

  lemma {:induction false} AcceptedAt(was: seq<seq<Transaction>>, k: nat, hashOf: Transaction -> uint32)
    requires k < |was| && AcceptedRun(was, hashOf)
    ensures Accepted(After(was[..k], hashOf), BlockOperations(was[k], hashOf))
  {
    var n := |was|;
    if k < n - 1 {
      AcceptedAt(was[..n - 1], k, hashOf);
      assert was[..n - 1][..k] == was[..k];
    }
  }

  /**
   * What is then held: the coins of the old chain without those that the block spends, and with all that it creates;
   * spends of coins that are gone and creations of coins that are there included.
   */
  lemma ReplayHolds(levels: L.Levels, was: seq<seq<Transaction>>, k: nat, hashOf: Transaction -> uint32)
    requires k < |was| && AcceptedRun(was, hashOf)
    requires R.Clean(levels) && levels.Held() == After(was, hashOf)
    ensures var operations := BlockOperations(was[k], hashOf);
            var u, after := After(was, hashOf), L.Run(levels, operations).Held();
            && DistinctLocators(operations)
            && after.Keys == ApplyAll(u, operations).Keys
            && (R.CreatesAgree(u, operations) ==> after == ApplyAll(u, operations))
  {
    hide *;
    var operations := BlockOperations(was[k], hashOf);
    AcceptedAt(was, k, hashOf);
    AcceptedIsDistinct(After(was[..k], hashOf), operations);
    R.DistinctIsPlain(After(was, hashOf), operations);
    R.PlainRunHolds(levels, operations);
  }

  // ----- Coins that are there are there as they were created, unless a transaction hash was used again -----

  /** No block behind block k has a transaction with the hash of one of its transactions. */
  predicate NotReused(was: seq<seq<Transaction>>, k: nat, hashOf: Transaction -> uint32)
    requires k < |was|
  {
    forall n, s, t | k < n < |was| && s in was[k] && t in was[n] :: hashOf(s) != hashOf(t)
  }

  lemma {:induction false} CreatesOf(ts: seq<Transaction>, hashOf: Transaction -> uint32, i: nat)
    requires i < |BlockOperations(ts, hashOf)| && BlockOperations(ts, hashOf)[i].Create?
    ensures exists t :: t in ts && hashOf(t) == BlockOperations(ts, hashOf)[i].locator.transactionHash
  {
    var n := |ts|;
    var before := BlockOperations(ts[..n - 1], hashOf);
    if i < |before| {
      CreatesOf(ts[..n - 1], hashOf, i);
      var t :| t in ts[..n - 1] && hashOf(t) == before[i].locator.transactionHash;
      assert t in ts;
    } else {
      assert BlockOperations(ts, hashOf)[i] == TransactionOperations(ts[n - 1], hashOf)[i - |before|];
      assert ts[n - 1] in ts;
    }
  }

  /** A coin that no operation creates was there before, as it is. */
  lemma {:induction false} NotCreatedKeeps(u: Utxos, operations: seq<Operation>, l: Locator)
    requires forall i | 0 <= i < |operations| && operations[i].Create? :: operations[i].locator != l
    ensures l in ApplyAll(u, operations) ==> l in u && u[l] == ApplyAll(u, operations)[l]
  {
    var n := |operations|;
    if n > 0 {
      NotCreatedKeeps(u, operations[..n - 1], l);
    }
  }

  lemma {:induction false} CreatedAsIs(u: Utxos, operations: seq<Operation>)
    requires DistinctLocators(operations)
    ensures R.CreatesAgree(ApplyAll(u, operations), operations)
  {
    var n := |operations|;
    if n > 0 {
      CreatedAsIs(u, operations[..n - 1]);
      assert forall i | 0 <= i < n - 1 :: operations[..n - 1][i] == operations[i];
    }
  }

  lemma BlockKeepsAgreement(u: Utxos, ts: seq<Transaction>, made: seq<Transaction>, hashOf: Transaction -> uint32)
    requires R.CreatesAgree(u, BlockOperations(made, hashOf))
    requires forall s, t | s in made && t in ts :: hashOf(s) != hashOf(t)
    ensures R.CreatesAgree(ApplyAll(u, BlockOperations(ts, hashOf)), BlockOperations(made, hashOf))
  {
    hide BlockOperations, ApplyAll;
    var operations, creates := BlockOperations(ts, hashOf), BlockOperations(made, hashOf);
    forall i | 0 <= i < |creates| && creates[i].Create? && creates[i].locator in ApplyAll(u, operations)
      ensures ApplyAll(u, operations)[creates[i].locator] == creates[i].output
    {
      CreatesOf(made, hashOf, i);
      forall j | 0 <= j < |operations| && operations[j].Create?
        ensures operations[j].locator != creates[i].locator
      {
        CreatesOf(ts, hashOf, j);
      }
      NotCreatedKeeps(u, operations, creates[i].locator);
    }
  }

  lemma AfterLast(was: seq<seq<Transaction>>, hashOf: Transaction -> uint32)
    requires |was| > 0
    ensures var n := |was| - 1;
            && After(was, hashOf) == ApplyAll(After(was[..n], hashOf), BlockOperations(was[n], hashOf))
            && (AcceptedRun(was, hashOf) ==> AcceptedRun(was[..n], hashOf))
  {
    ApplyAppend(map[], RunOperations(was[..|was| - 1], hashOf), BlockOperations(was[|was| - 1], hashOf));
  }

  lemma NotReusedBefore(was: seq<seq<Transaction>>, k: nat, hashOf: Transaction -> uint32)
    requires k < |was| - 1 && NotReused(was, k, hashOf)
    ensures NotReused(was[..|was| - 1], k, hashOf)
    ensures forall s, t | s in was[k] && t in was[|was| - 1] :: hashOf(s) != hashOf(t)
  {
  }

  lemma {:induction false} NotReusedAgrees(was: seq<seq<Transaction>>, k: nat, hashOf: Transaction -> uint32)
    requires k < |was| && AcceptedRun(was, hashOf) && NotReused(was, k, hashOf)
    ensures R.CreatesAgree(After(was, hashOf), BlockOperations(was[k], hashOf))
  {
    hide *;
    var n := |was| - 1;
    AfterLast(was, hashOf);
    if k == n {
      AcceptedAt(was, k, hashOf);
      AcceptedIsDistinct(After(was[..k], hashOf), BlockOperations(was[k], hashOf));
      CreatedAsIs(After(was[..k], hashOf), BlockOperations(was[k], hashOf));
    } else {
      NotReusedBefore(was, k, hashOf);
      NotReusedAgrees(was[..n], k, hashOf);
      BlockKeepsAgreement(After(was[..n], hashOf), was[n], was[k], hashOf);
    }
  }

  // ----- The value in circulation -----

  /** The total changes by what the block creates minus what it finds, spent and created alike. */
  lemma ReplayTotal(levels: L.Levels, was: seq<seq<Transaction>>, k: nat, hashOf: Transaction -> uint32)
    requires k < |was| && AcceptedRun(was, hashOf)
    requires R.Clean(levels) && levels.Held() == After(was, hashOf)
    requires R.CreatesAgree(After(was, hashOf), BlockOperations(was[k], hashOf))
    ensures var u, again := After(was, hashOf), BlockOperations(was[k], hashOf);
            Total(L.Run(levels, again).Held()) + FoundValue(u, again) == Total(u) + CreatedValue(again)
  {
    hide *;
    ReplayHolds(levels, was, k, hashOf);
    TotalAlwaysChanges(After(was, hashOf), BlockOperations(was[k], hashOf));
    DistinctLosesFound(After(was, hashOf), BlockOperations(was[k], hashOf));
  }

  /** So it comes out as that of the new chain exactly when the block creates as much as it finds. */
  lemma TakeoverTotalIff(levels: L.Levels, was: seq<seq<Transaction>>, k: nat, now: seq<seq<Transaction>>,
                         hashOf: Transaction -> uint32)
    requires k < |was| && |now| > 0 && was[0] == now[0]
    requires AcceptedRun(was, hashOf) && BalancedRun(was, hashOf)
    requires AcceptedRun(now, hashOf) && BalancedRun(now, hashOf)
    requires R.Clean(levels) && levels.Held() == After(was, hashOf)
    requires R.CreatesAgree(After(was, hashOf), BlockOperations(was[k], hashOf))
    ensures var again := BlockOperations(was[k], hashOf);
            Total(L.Run(levels, again).Held()) == Total(After(now, hashOf)) <==>
            CreatedValue(again) == FoundValue(After(was, hashOf), again)
  {
    hide *;
    assert was[..1] == now[..1];
    BalancedRunKeepsTotal(was, hashOf);
    BalancedRunKeepsTotal(now, hashOf);
    ReplayTotal(levels, was, k, hashOf);
  }

  // ----- From the genesis block -----

  function GenesisHash(hashOf: Transaction -> uint32): uint32 {
    hashOf(Chain.GENESIS.GetTransactions()[0])
  }

  function GenesisAgain(hashOf: Transaction -> uint32): seq<Operation> {
    BlockOperations(Chain.GENESIS.GetTransactions(), hashOf)
  }

  /** Whether a genesis coin is still there. */
  predicate Unspent(u: Utxos, index: uint8, hashOf: Transaction -> uint32) {
    Locator(GenesisHash(hashOf), index) in u
  }

  predicate AllUnspent(u: Utxos, hashOf: Transaction -> uint32) {
    Unspent(u, 0, hashOf) && Unspent(u, 1, hashOf) && Unspent(u, 2, hashOf)
  }

  /** What the genesis coins that are gone were worth. */
  function Gone(u: Utxos, hashOf: Transaction -> uint32): nat {
    (if Unspent(u, 0, hashOf) then 0 else 100) + (if Unspent(u, 1, hashOf) then 0 else 200)
    + if Unspent(u, 2, hashOf) then 0 else 300
  }

  lemma GenesisFound(u: Utxos, hashOf: Transaction -> uint32)
    requires R.CreatesAgree(u, GenesisAgain(hashOf))
    ensures FoundValue(u, GenesisAgain(hashOf)) == 600 - Gone(u, hashOf)
    ensures AllUnspent(u, hashOf) <==>
            forall i | 0 <= i < |GenesisAgain(hashOf)| ::
              GenesisAgain(hashOf)[i].Create? <==> GenesisAgain(hashOf)[i].locator in u
  {
    Chain.GenesisOperations(hashOf);
    hide BlockOperations, Chain.GENESIS;
    var operations := GenesisAgain(hashOf);
    assert AmountIn(u, operations[0].locator) == if Unspent(u, 0, hashOf) then 100 else 0;
    assert AmountIn(u, operations[1].locator) == if Unspent(u, 1, hashOf) then 200 else 0;
    assert AmountIn(u, operations[2].locator) == if Unspent(u, 2, hashOf) then 300 else 0;
    FoundInThree(u, operations);
  }

  lemma FoundInThree(u: Utxos, operations: seq<Operation>)
    requires |operations| == 3
    ensures FoundValue(u, operations) ==
            AmountIn(u, operations[0].locator) + AmountIn(u, operations[1].locator) + AmountIn(u, operations[2].locator)
  {
    var one, two := operations[..1], operations[..2];
    assert operations[..|operations| - 1] == two && two[..|two| - 1] == one && one[..|one| - 1] == [];
    assert one[0] == operations[0] && two[1] == operations[1];
    assert FoundValue(u, one) == AmountIn(u, operations[0].locator);
    assert FoundValue(u, two) == AmountIn(u, operations[0].locator) + AmountIn(u, operations[1].locator);
  }

  lemma GenesisHasNoSpend(hashOf: Transaction -> uint32, levels: L.Levels)
    ensures L.RunDefined(levels, GenesisAgain(hashOf))
  {
    Chain.GenesisOperations(hashOf);
    hide BlockOperations, Chain.GENESIS, L.Run;
  }

  /** Storing the genesis block again makes the genesis coins that are gone anew, and nothing else. */
  lemma GenesisReplay(levels: L.Levels, was: seq<seq<Transaction>>, hashOf: Transaction -> uint32)
    requires |was| > 0 && was[0] == Chain.GENESIS.GetTransactions() && AcceptedRun(was, hashOf)
    requires R.Clean(levels) && levels.Held() == After(was, hashOf)
    requires R.CreatesAgree(After(was, hashOf), GenesisAgain(hashOf))
    ensures var u, after := After(was, hashOf), L.Run(levels, GenesisAgain(hashOf)).Held();
            && L.RunDefined(levels, GenesisAgain(hashOf))
            && Total(after) == Total(u) + Gone(u, hashOf)
            && (after == u <==> AllUnspent(u, hashOf))
  {
    hide After, AcceptedRun, Accepted, ApplyAll, Chain.GENESIS, L.Run, L.RunDefined, R.Clean, BlockOperations;
    hide CreatedValue, FoundValue, LostValue, R.CreatesAgree, Total, Gone, AllUnspent;
    var u, again := After(was, hashOf), GenesisAgain(hashOf);
    GenesisHasNoSpend(hashOf, levels);
    ReplayHolds(levels, was, 0, hashOf);
    ReplayTotal(levels, was, 0, hashOf);
    Chain.GenesisValues(u, hashOf);
    GenesisFound(u, hashOf);
    R.ReplayIsNothingIff(u, again);
  }

  /** A balanced chain from the genesis block has 600 in circulation. */
  predicate Sound(run: seq<seq<Transaction>>, hashOf: Transaction -> uint32) {
    && |run| > 0 && run[0] == Chain.GENESIS.GetTransactions()
    && AcceptedRun(run, hashOf) && BalancedRun(run, hashOf)
  }

  lemma SoundTotal(run: seq<seq<Transaction>>, hashOf: Transaction -> uint32)
    requires Sound(run, hashOf)
    ensures Total(After(run, hashOf)) == 600
  {
    hide After, AcceptedRun, BalancedRun, Chain.GENESIS, Total;
    assert run[..1] == [Chain.GENESIS.GetTransactions()];
    BalancedRunKeepsTotal(run, hashOf);
    Chain.GenesisTotal(hashOf);
  }

  lemma GoneIff(u: Utxos, hashOf: Transaction -> uint32)
    ensures Gone(u, hashOf) == 0 <==> AllUnspent(u, hashOf)
  {
  }

  /**
   * When both chains are balanced, the total is right exactly when no genesis coin is gone, and the coins are those of
   * the new chain exactly when none is and both chains have the same.
   */
  lemma TakeoverFromGenesis(levels: L.Levels, was: seq<seq<Transaction>>, now: seq<seq<Transaction>>,
                            hashOf: Transaction -> uint32)
    requires Sound(was, hashOf) && Sound(now, hashOf)
    requires R.Clean(levels) && levels.Held() == After(was, hashOf)
    requires R.CreatesAgree(After(was, hashOf), GenesisAgain(hashOf))
    ensures var u, after := After(was, hashOf), L.Run(levels, GenesisAgain(hashOf)).Held();
            && Total(after) == 600 + Gone(u, hashOf)
            && (Total(after) == Total(After(now, hashOf)) <==> AllUnspent(u, hashOf))
            && (after == After(now, hashOf) <==> AllUnspent(u, hashOf) && u == After(now, hashOf))
  {
    assert |was| > 0 && was[0] == Chain.GENESIS.GetTransactions() && AcceptedRun(was, hashOf);
    hide *;
    SoundTotal(was, hashOf);
    SoundTotal(now, hashOf);
    GenesisReplay(levels, was, hashOf);
    GoneIff(After(was, hashOf), hashOf);
  }

  /** The same of a chain whose tip has moved to a branch from the genesis block, whatever that branch does. */
  lemma TakenOverFromGenesis(c: Chain.Chain, before: F.State, levels: L.Levels, block: Block, valid: bool,
                             was: seq<seq<Transaction>>)
    requires c.Linked() && c.TookOver(before, block)
    requires F.Ancestor(c.fork.tree, c.Genesis(), before.tip, c.fork.tip) == c.Genesis()
    requires |was| > 0 && was[0] == Chain.GENESIS.GetTransactions() && AcceptedRun(was, c.hashOf)
    requires R.Clean(levels) && levels.Held() == After(was, c.hashOf)
    requires R.CreatesAgree(After(was, c.hashOf), GenesisAgain(c.hashOf))
    requires c.coins.levels ==
             L.Run(L.Validated(levels, block.GetTransactions()), c.CoinOperations(before, block, valid))
    ensures var u := After(was, c.hashOf);
            && Total(c.coins.Utxos()) == Total(u) + Gone(u, c.hashOf)
            && (c.coins.Utxos() == u <==> AllUnspent(u, c.hashOf))
    ensures var u, wanted := After(was, c.hashOf), After(c.ActiveTransactions(), c.hashOf);
            Sound(was, c.hashOf) && Sound(c.ActiveTransactions(), c.hashOf) ==>
              && (Total(c.coins.Utxos()) == Total(wanted) <==> AllUnspent(u, c.hashOf))
              && (c.coins.Utxos() == wanted <==> AllUnspent(u, c.hashOf) && u == wanted)
  {
    hide Chain.GENESIS, AcceptedRun, BalancedRun, Accepted, After, ApplyAll, L.Run, R.Clean, Gone, AllUnspent, Sound;
    hide R.CreatesAgree, Total;
    assert c.CoinOperations(before, block, valid) == GenesisAgain(c.hashOf);
    L.ReadingHolds(levels, L.ProbedAll(levels, block.GetTransactions()));
    R.ReadingCopies(levels, L.ProbedAll(levels, block.GetTransactions()));
    GenesisReplay(L.Validated(levels, block.GetTransactions()), was, c.hashOf);
    if Sound(was, c.hashOf) && Sound(c.ActiveTransactions(), c.hashOf) {
      TakeoverFromGenesis(L.Validated(levels, block.GetTransactions()), was, c.ActiveTransactions(), c.hashOf);
    }
  }
}
