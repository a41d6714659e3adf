/**
 * The meaning of the coin database: one flat map from locators to unspent outputs, changed by one spend or one
 * creation at a time.
 */
module Ledger {
  import opened Types
  import opened Primitives
  import opened CoinLocator

  type Utxos = map<Locator, TransactionOutput>

  datatype Operation = Spend(locator: Locator) | Create(locator: Locator, output: TransactionOutput)

  predicate Enabled(u: Utxos, operation: Operation) {
    operation.Spend? <==> operation.locator in u
  }

  function Apply(u: Utxos, operation: Operation): Utxos {
    match operation
    case Spend(l) => u - {l}
    case Create(l, output) => u[l := output]
  }

  function ApplyAll(u: Utxos, operations: seq<Operation>): Utxos {
    var n := |operations|;
    if n == 0 then u else Apply(ApplyAll(u, operations[..n - 1]), operations[n - 1])
  }

  /** Every spend finds its coin and no creation meets one. */
  predicate AllEnabled(u: Utxos, operations: seq<Operation>) {
    var n := |operations|;
    n == 0 || (AllEnabled(u, operations[..n - 1]) && Enabled(ApplyAll(u, operations[..n - 1]), operations[n - 1]))
  }

  // ----- What a transaction and a block do -----

  function Referenced(input: TransactionInput): Locator {
    Locator(input.referenceTransactionHash, input.utxoIndex)
  }

  function Spends(inputs: seq<TransactionInput>): (r: seq<Operation>)
    ensures |r| == |inputs|
  {
    seq(|inputs|, i requires 0 <= i < |inputs| => Spend(Referenced(inputs[i])))
  }

  /** The output counter is kept in eight bits. */
  function Creates(hash: uint32, outputs: seq<TransactionOutput>): (r: seq<Operation>)
    ensures |r| == |outputs|
  {
    seq(|outputs|, i requires 0 <= i < |outputs| => Create(Locator(hash, Low8(i)), outputs[i]))
  }

  function TransactionOperations(t: Transaction, hashOf: Transaction -> uint32): seq<Operation> {
    Spends(t.inputs) + Creates(hashOf(t), t.outputs)
  }

  function BlockOperations(ts: seq<Transaction>, hashOf: Transaction -> uint32): seq<Operation> {
    var n := |ts|;
    if n == 0 then [] else BlockOperations(ts[..n - 1], hashOf) + TransactionOperations(ts[n - 1], hashOf)
  }

  /** The hashes under which the mempool would keep the transactions of a block. */
  function HashesOf(ts: seq<Transaction>, hashOf: Transaction -> uint32): set<uint32> {
    set t | t in ts :: hashOf(t)
  }

  lemma HashesOfNext(ts: seq<Transaction>, hashOf: Transaction -> uint32, i: nat)
    requires i < |ts|
    ensures HashesOf(ts[..i + 1], hashOf) == HashesOf(ts[..i], hashOf) + {hashOf(ts[i])}
  {
    assert ts[..i + 1] == ts[..i] + [ts[i]];
  }

  // ----- Runs compose -----

  lemma {:induction false} ApplyAppend(u: Utxos, a: seq<Operation>, b: seq<Operation>)
    ensures ApplyAll(u, a + b) == ApplyAll(ApplyAll(u, a), b)
  {
    if b == [] {
      assert a + b == a;
    } else {
      assert (a + b)[..|a + b| - 1] == a + b[..|b| - 1];
      ApplyAppend(u, a, b[..|b| - 1]);
    }
  }

  lemma {:induction false} EnabledAppend(u: Utxos, a: seq<Operation>, b: seq<Operation>)
    ensures AllEnabled(u, a + b) <==> AllEnabled(u, a) && AllEnabled(ApplyAll(u, a), b)
  {
    if b == [] {
      assert a + b == a;
    } else {
      assert (a + b)[..|a + b| - 1] == a + b[..|b| - 1];
      EnabledAppend(u, a, b[..|b| - 1]);
      ApplyAppend(u, a, b[..|b| - 1]);
    }
  }

  lemma {:induction false} EnabledAt(u: Utxos, operations: seq<Operation>, i: nat)
    requires i < |operations|
    requires AllEnabled(u, operations)
    ensures AllEnabled(u, operations[..i]) && Enabled(ApplyAll(u, operations[..i]), operations[i])
  {
    var n := |operations|;
    if i < n - 1 {
      EnabledAt(u, operations[..n - 1], i);
      assert operations[..n - 1][..i] == operations[..i];
    }
  }

  // ----- A coin is spent once for each time it is created -----

  lemma {:induction false} UnmentionedStays(u: Utxos, operations: seq<Operation>, l: Locator)
    requires forall k | 0 <= k < |operations| :: operations[k].locator != l
    ensures l in ApplyAll(u, operations) <==> l in u
    ensures l in u ==> ApplyAll(u, operations)[l] == u[l]
  {
    var n := |operations|;
    if n > 0 {
      UnmentionedStays(u, operations[..n - 1], l);
    }
  }

  /** Between two spends of one locator, the output was created anew. */
  lemma NoDoubleSpend(u: Utxos, operations: seq<Operation>, i: nat, j: nat)
    requires i < j < |operations| && AllEnabled(u, operations)
    requires operations[i].Spend? && operations[j] == operations[i]
    ensures exists k :: i < k < j && operations[k].Create? && operations[k].locator == operations[i].locator
  {
    var l := operations[i].locator;
    if forall k | i < k < j :: !(operations[k].Create? && operations[k].locator == l) {
      NeverBack(u, operations, i, j);
      EnabledAt(u, operations, j);
      assert false;
    }
  }

  lemma {:induction false} NeverBack(u: Utxos, operations: seq<Operation>, i: nat, j: nat)
    requires i < j <= |operations|
    requires operations[i].Spend?
    requires forall k | i < k < j :: !(operations[k].Create? && operations[k].locator == operations[i].locator)
    ensures operations[i].locator !in ApplyAll(u, operations[..j])
  {
    assert operations[..j][..j - 1] == operations[..j - 1];
    if i < j - 1 {
      NeverBack(u, operations, i, j - 1);
    }
  }

  // ----- When validation against the state before the block is enough -----

  /** What validate_block checks: every spent coin is there before the block starts. */
  predicate AllSpendsIn(u: Utxos, operations: seq<Operation>) {
    forall i | 0 <= i < |operations| && operations[i].Spend? :: operations[i].locator in u
  }

  predicate AllKnown(u: Utxos, inputs: seq<TransactionInput>) {
    forall i | 0 <= i < |inputs| :: Referenced(inputs[i]) in u
  }

  predicate AllInputsKnown(u: Utxos, ts: seq<Transaction>) {
    forall i | 0 <= i < |ts| :: AllKnown(u, ts[i].inputs)
  }

  lemma {:induction false} KnownInputsAreSpends(u: Utxos, ts: seq<Transaction>, hashOf: Transaction -> uint32)
    ensures AllInputsKnown(u, ts) <==> AllSpendsIn(u, BlockOperations(ts, hashOf))
  {
    var n := |ts|;
    if n > 0 {
      var before, t := BlockOperations(ts[..n - 1], hashOf), ts[n - 1];
      var operations := BlockOperations(ts, hashOf);
      KnownInputsAreSpends(u, ts[..n - 1], hashOf);
      assert forall i | 0 <= i < |before| :: operations[i] == before[i];
      assert forall i | 0 <= i < |t.inputs| :: operations[|before| + i] == Spend(Referenced(t.inputs[i]));
      assert AllInputsKnown(u, ts) <==> AllInputsKnown(u, ts[..n - 1]) && AllKnown(u, t.inputs);
      if AllInputsKnown(u, ts) {
        forall i | 0 <= i < |operations| && operations[i].Spend?
          ensures operations[i].locator in u
        {
          assert i >= |before| ==> operations[i] == TransactionOperations(t, hashOf)[i - |before|];
        }
      }
    }
  }

  /** The outputs are new to the map and to each other. */
  predicate FreshCreates(u: Utxos, operations: seq<Operation>) {
    && (forall i | 0 <= i < |operations| && operations[i].Create? :: operations[i].locator !in u)
    && forall i, j | 0 <= i < j < |operations| && operations[i].Create? && operations[j].Create? ::
        operations[i].locator != operations[j].locator
  }

  predicate DistinctSpends(operations: seq<Operation>) {
    forall i, j | 0 <= i < j < |operations| && operations[i].Spend? && operations[j].Spend? ::
      operations[i].locator != operations[j].locator
  }

  /** Validation only looks at the map before the block; it is enough exactly when no coin is spent twice. */
  lemma ValidatedIsEnabledIffDistinct(u: Utxos, operations: seq<Operation>)
    requires AllSpendsIn(u, operations) && FreshCreates(u, operations)
    ensures AllEnabled(u, operations) <==> DistinctSpends(operations)
  {
    if DistinctSpends(operations) {
      DistinctIsEnabled(u, operations);
    }
    if AllEnabled(u, operations) {
      forall i, j | 0 <= i < j < |operations| && operations[i].Spend? && operations[j].Spend?
        ensures operations[i].locator != operations[j].locator
      {
        if operations[i].locator == operations[j].locator {
          NoDoubleSpend(u, operations, i, j);
        }
      }
    }
  }

  lemma {:induction false} DistinctIsEnabled(u: Utxos, operations: seq<Operation>)
    requires AllSpendsIn(u, operations) && FreshCreates(u, operations) && DistinctSpends(operations)
    ensures AllEnabled(u, operations)
  {
    var n := |operations|;
    if n > 0 {
      DistinctIsEnabled(u, operations[..n - 1]);
      UnmentionedStays(u, operations[..n - 1], operations[n - 1].locator);
    }
  }

  /** A block may spend one coin twice and still pass validation. */
  lemma ValidatedDoubleSpend(l: Locator, output: TransactionOutput)
    ensures AllSpendsIn(map[l := output], [Spend(l), Spend(l)]) && !AllEnabled(map[l := output], [Spend(l), Spend(l)])
  {
    var operations := [Spend(l), Spend(l)];
    assert operations[..1] == [Spend(l)] && operations[..1][..0] == [];
  }

  // ----- Value -----

  ghost function Total(u: Utxos): nat {
    if u == map[] then 0
    else
      var l :| l in u;
      u[l].amount + Total(u - {l})
  }

  /** The total does not depend on the order in which the coins are added up. */
  lemma {:induction false} TotalWithout(u: Utxos, l: Locator)
    requires l in u
    ensures Total(u) == u[l].amount + Total(u - {l})
    decreases |u|
  {
    var m :| m in u && Total(u) == u[m].amount + Total(u - {m});
    if m != l {
      TotalWithout(u - {m}, l);
      TotalWithout(u - {l}, m);
      assert u - {m} - {l} == u - {l} - {m};
    }
  }

  function CreatedValue(operations: seq<Operation>): nat {
    var n := |operations|;
    if n == 0 then 0
    else CreatedValue(operations[..n - 1]) +
         if operations[n - 1].Create? then operations[n - 1].output.amount else 0
  }

  function AmountIn(u: Utxos, l: Locator): nat {
    if l in u then u[l].amount else 0
  }

  /** What the spends of a block are worth in the map before the block. */
  function SpentValue(u: Utxos, operations: seq<Operation>): nat {
    var n := |operations|;
    if n == 0 then 0
    else SpentValue(u, operations[..n - 1]) +
         if operations[n - 1].Spend? then AmountIn(u, operations[n - 1].locator) else 0
  }

  predicate Accepted(u: Utxos, operations: seq<Operation>) {
    AllSpendsIn(u, operations) && FreshCreates(u, operations) && DistinctSpends(operations)
  }

  /** The total changes by what is created minus what is spent. */
  lemma {:induction false} TotalChanges(u: Utxos, operations: seq<Operation>)
    requires Accepted(u, operations)
    ensures Total(ApplyAll(u, operations)) + SpentValue(u, operations) == Total(u) + CreatedValue(operations)
  {
    var n := |operations|;
    if n > 0 {
      var before, operation := ApplyAll(u, operations[..n - 1]), operations[n - 1];
      TotalChanges(u, operations[..n - 1]);
      UnmentionedStays(u, operations[..n - 1], operation.locator);
      match operation {
        case Spend(l) => TotalWithout(before, l);
        case Create(l, output) =>
          TotalWithout(before[l := output], l);
          assert before[l := output] - {l} == before;
      }
    }
  }

  /** What operations take out of a map: the coin under the locator of each, if there is one when its turn comes. */
  function LostValue(u: Utxos, operations: seq<Operation>): nat {
    var n := |operations|;
    if n == 0 then 0
    else LostValue(u, operations[..n - 1]) + AmountIn(ApplyAll(u, operations[..n - 1]), operations[n - 1].locator)
  }

  /** Any operations, accepted or not, change the total by what they create minus what they take out. */
  lemma {:induction false} TotalAlwaysChanges(u: Utxos, operations: seq<Operation>)
    ensures Total(ApplyAll(u, operations)) + LostValue(u, operations) == Total(u) + CreatedValue(operations)
  {
    var n := |operations|;
    if n > 0 {
      var before, l := ApplyAll(u, operations[..n - 1]), operations[n - 1].locator;
      var after := ApplyAll(u, operations);
      TotalAlwaysChanges(u, operations[..n - 1]);
      assert after - {l} == before - {l};
      if l in before {
        TotalWithout(before, l);
      } else {
        assert before - {l} == before;
      }
      if l in after {
        TotalWithout(after, l);
      } else {
        assert after - {l} == after;
      }
    }
  }

  /** What the operations find in the map before them. */
  function FoundValue(u: Utxos, operations: seq<Operation>): nat {
    var n := |operations|;
    if n == 0 then 0 else FoundValue(u, operations[..n - 1]) + AmountIn(u, operations[n - 1].locator)
  }

  /** No locator occurs twice, spent or created. */
  predicate DistinctLocators(operations: seq<Operation>) {
    forall i, j | 0 <= i < j < |operations| :: operations[i].locator != operations[j].locator
  }

  lemma AcceptedIsDistinct(u: Utxos, operations: seq<Operation>)
    requires Accepted(u, operations)
    ensures DistinctLocators(operations)
  {
  }

  lemma {:induction false} DistinctLosesFound(u: Utxos, operations: seq<Operation>)
    requires DistinctLocators(operations)
    ensures LostValue(u, operations) == FoundValue(u, operations)
  {
    var n := |operations|;
    if n > 0 {
      DistinctLosesFound(u, operations[..n - 1]);
      UnmentionedStays(u, operations[..n - 1], operations[n - 1].locator);
    }
  }

  lemma {:induction false} ValuesAppend(u: Utxos, a: seq<Operation>, b: seq<Operation>)
    ensures CreatedValue(a + b) == CreatedValue(a) + CreatedValue(b)
    ensures SpentValue(u, a + b) == SpentValue(u, a) + SpentValue(u, b)
  {
    if b == [] {
      assert a + b == a;
    } else {
      assert (a + b)[..|a + b| - 1] == a + b[..|b| - 1];
      ValuesAppend(u, a, b[..|b| - 1]);
    }
  }

  /** The outputs of a transaction are worth as much as the coins it spends. */
  predicate Balanced(u: Utxos, t: Transaction) {
    SpentValue(u, Spends(t.inputs)) == CreatedValue(Creates(0, t.outputs))
  }

  predicate AllBalanced(u: Utxos, ts: seq<Transaction>) {
    forall t | t in ts :: Balanced(u, t)
  }

  lemma {:induction false} PureOperations(u: Utxos, hash: uint32, inputs: seq<TransactionInput>,
                                          outputs: seq<TransactionOutput>)
    ensures CreatedValue(Spends(inputs)) == 0
    ensures SpentValue(u, Creates(hash, outputs)) == 0
    ensures CreatedValue(Creates(hash, outputs)) == CreatedValue(Creates(0, outputs))
    decreases |inputs| + |outputs|
  {
    if inputs != [] {
      assert Spends(inputs)[..|inputs| - 1] == Spends(inputs[..|inputs| - 1]);
      PureOperations(u, hash, inputs[..|inputs| - 1], outputs);
    } else if outputs != [] {
      assert Creates(hash, outputs)[..|outputs| - 1] == Creates(hash, outputs[..|outputs| - 1]);
      assert Creates(0, outputs)[..|outputs| - 1] == Creates(0, outputs[..|outputs| - 1]);
      PureOperations(u, hash, inputs, outputs[..|outputs| - 1]);
    }
  }

  lemma {:induction false} BalancedBlock(u: Utxos, ts: seq<Transaction>, hashOf: Transaction -> uint32)
    requires AllBalanced(u, ts)
    ensures SpentValue(u, BlockOperations(ts, hashOf)) == CreatedValue(BlockOperations(ts, hashOf))
  {
    var n := |ts|;
    if n > 0 {
      var t := ts[n - 1];
      assert Balanced(u, t);
      BalancedBlock(u, ts[..n - 1], hashOf);
      PureOperations(u, hashOf(t), t.inputs, t.outputs);
      ValuesAppend(u, Spends(t.inputs), Creates(hashOf(t), t.outputs));
      ValuesAppend(u, BlockOperations(ts[..n - 1], hashOf), TransactionOperations(t, hashOf));
    }
  }

  // ----- Whole runs of blocks -----

  function RunOperations(blocks: seq<seq<Transaction>>, hashOf: Transaction -> uint32): seq<Operation> {
    var n := |blocks|;
    if n == 0 then [] else RunOperations(blocks[..n - 1], hashOf) + BlockOperations(blocks[n - 1], hashOf)
  }

  /** The map after the blocks of a run, from an empty map. */
  function After(blocks: seq<seq<Transaction>>, hashOf: Transaction -> uint32): Utxos {
    ApplyAll(map[], RunOperations(blocks, hashOf))
  }

  /** Every block was accepted by the map the blocks before it left. */
  predicate AcceptedRun(blocks: seq<seq<Transaction>>, hashOf: Transaction -> uint32) {
    var n := |blocks|;
    n == 0 || (&& AcceptedRun(blocks[..n - 1], hashOf)
               && Accepted(After(blocks[..n - 1], hashOf), BlockOperations(blocks[n - 1], hashOf)))
  }

  lemma AfterNext(blocks: seq<seq<Transaction>>, block: seq<Transaction>, hashOf: Transaction -> uint32)
    ensures After(blocks + [block], hashOf) == ApplyAll(After(blocks, hashOf), BlockOperations(block, hashOf))
  {
    assert (blocks + [block])[..|blocks|] == blocks;
    ApplyAppend(map[], RunOperations(blocks, hashOf), BlockOperations(block, hashOf));
  }

  lemma AcceptNext(blocks: seq<seq<Transaction>>, block: seq<Transaction>, hashOf: Transaction -> uint32)
    requires AcceptedRun(blocks, hashOf) && Accepted(After(blocks, hashOf), BlockOperations(block, hashOf))
    ensures AcceptedRun(blocks + [block], hashOf)
  {
    assert (blocks + [block])[..|blocks|] == blocks;
  }

  /** In an accepted run every spend, in any block, finds its coin; so no coin is ever spent twice. */
  lemma {:induction false} AcceptedRunIsEnabled(blocks: seq<seq<Transaction>>, hashOf: Transaction -> uint32)
    requires AcceptedRun(blocks, hashOf)
    ensures AllEnabled(map[], RunOperations(blocks, hashOf))
  {
    var n := |blocks|;
    if n > 0 {
      var before, block := RunOperations(blocks[..n - 1], hashOf), BlockOperations(blocks[n - 1], hashOf);
      AcceptedRunIsEnabled(blocks[..n - 1], hashOf);
      DistinctIsEnabled(ApplyAll(map[], before), block);
      EnabledAppend(map[], before, block);
    }
  }

  lemma RunNeverSpendsTwice(blocks: seq<seq<Transaction>>, hashOf: Transaction -> uint32, i: nat, j: nat)
    requires AcceptedRun(blocks, hashOf)
    requires var operations := RunOperations(blocks, hashOf);
             i < j < |operations| && operations[i].Spend? && operations[j] == operations[i]
    ensures var operations := RunOperations(blocks, hashOf);
            exists k :: i < k < j && operations[k].Create? && operations[k].locator == operations[i].locator
  {
    AcceptedRunIsEnabled(blocks, hashOf);
    NoDoubleSpend(map[], RunOperations(blocks, hashOf), i, j);
  }

  /** Every block after the first balances each of its transactions. */
  predicate BalancedRun(blocks: seq<seq<Transaction>>, hashOf: Transaction -> uint32) {
    var n := |blocks|;
    n <= 1 || (&& BalancedRun(blocks[..n - 1], hashOf)
               && AllBalanced(After(blocks[..n - 1], hashOf), blocks[n - 1]))
  }

  /** Such a run keeps the value the first block put into circulation. */
  lemma {:induction false} BalancedRunKeepsTotal(blocks: seq<seq<Transaction>>, hashOf: Transaction -> uint32)
    requires |blocks| > 0 && AcceptedRun(blocks, hashOf) && BalancedRun(blocks, hashOf)
    ensures Total(After(blocks, hashOf)) == Total(After(blocks[..1], hashOf))
  {
    var n := |blocks|;
    if n == 1 {
      assert blocks[..1] == blocks;
    } else {
      var u, block := After(blocks[..n - 1], hashOf), BlockOperations(blocks[n - 1], hashOf);
      BalancedRunKeepsTotal(blocks[..n - 1], hashOf);
      assert blocks[..n - 1][..1] == blocks[..1];
      ApplyAppend(map[], RunOperations(blocks[..n - 1], hashOf), block);
      TotalChanges(u, block);
      BalancedBlock(u, blocks[n - 1], hashOf);
    }
  }
}
