/**
 * Where the coins of a block end up, said without the operations that put them there: under the hash of each
 * transaction, its outputs by their positions, unless a later input names them.
 */
module Placement {
  import opened Types
  import opened Primitives
  import opened CoinLocator
  import opened Ledger

  /** Output j of the transaction with hash h. The position is kept in eight bits. */
  function CoinAt(h: uint32, j: nat): Locator {
    Locator(h, j % 0x100)
  }

  /** Output j of transaction k, whose hash is hashes[k]. */
  function OutputAt(hashes: seq<uint32>, k: nat, j: nat): Locator
    requires k < |hashes|
  {
    CoinAt(hashes[k], j)
  }

  /** The coin that input i of transaction k names. */
  function InputAt(ts: seq<Transaction>, k: nat, i: nat): Locator
    requires k < |ts| && i < |ts[k].inputs|
  {
    Locator(ts[k].inputs[i].referenceTransactionHash, ts[k].inputs[i].utxoIndex)
  }

  /** Whether an input of transaction number from, or of a later one, names a coin. */
  predicate Named(ts: seq<Transaction>, from: nat, l: Locator) {
    exists k, i :: from <= k < |ts| && 0 <= i < |ts[k].inputs| && InputAt(ts, k, i) == l
  }

  predicate IsOutput(ts: seq<Transaction>, hashes: seq<uint32>, l: Locator)
    requires |hashes| == |ts|
  {
    exists k, j :: 0 <= k < |ts| && 0 <= j < |ts[k].outputs| && OutputAt(hashes, k, j) == l
  }

  /** The outputs have different names, and none is the name of a coin that is there. */
  ghost predicate NewOutputs(u: Utxos, ts: seq<Transaction>, hashes: seq<uint32>)
    requires |hashes| == |ts|
  {
    && (forall k, j | 0 <= k < |ts| && 0 <= j < |ts[k].outputs| :: OutputAt(hashes, k, j) !in u)
    && forall k, j, m, i | 0 <= k < |ts| && 0 <= j < |ts[k].outputs| && 0 <= m < |ts| && 0 <= i < |ts[m].outputs|
                           && OutputAt(hashes, k, j) == OutputAt(hashes, m, i) ::
        k == m && j == i
  }

  /** Each output is there unless a later transaction spent it; any other coin is there if no input names it. */
  ghost predicate Leaves(u: Utxos, ts: seq<Transaction>, hashes: seq<uint32>, after: Utxos)
    requires |hashes| == |ts|
  {
    && (forall k, j | 0 <= k < |ts| && 0 <= j < |ts[k].outputs| ::
          var l := OutputAt(hashes, k, j);
          && (l in after <==> !Named(ts, k + 1, l))
          && (l in after ==> after[l] == ts[k].outputs[j]))
    && forall l: Locator | !IsOutput(ts, hashes, l) ::
        && (l in after <==> l in u && !Named(ts, 0, l))
        && (l in after ==> after[l] == u[l])
  }

  /** The hashes of the transactions of a block. */
  function Names(ts: seq<Transaction>, hashOf: Transaction -> uint32): (r: seq<uint32>)
    ensures |r| == |ts| && forall k | 0 <= k < |ts| :: r[k] == hashOf(ts[k])
  {
    seq(|ts|, k requires 0 <= k < |ts| => hashOf(ts[k]))
  }

  lemma SameNames(ts: seq<Transaction>, copies: seq<Transaction>, from: nat, l: Locator)
    requires |ts| == |copies| && forall k | 0 <= k < |ts| :: ts[k].inputs == copies[k].inputs
    ensures Named(ts, from, l) ==> Named(copies, from, l)
  {
    if Named(ts, from, l) {
      var k, i :| from <= k < |ts| && 0 <= i < |ts[k].inputs| && InputAt(ts, k, i) == l;
      assert InputAt(copies, k, i) == l;
    }
  }

  lemma SameOutputs(ts: seq<Transaction>, copies: seq<Transaction>, hashes: seq<uint32>, l: Locator)
    requires |ts| == |copies| == |hashes| && forall k | 0 <= k < |ts| :: ts[k].outputs == copies[k].outputs
    ensures IsOutput(ts, hashes, l) ==> IsOutput(copies, hashes, l)
  {
    hide OutputAt;
    if IsOutput(ts, hashes, l) {
      var k, j :| 0 <= k < |ts| && 0 <= j < |ts[k].outputs| && OutputAt(hashes, k, j) == l;
      assert 0 <= j < |copies[k].outputs|;
    }
  }

  /** Only inputs and outputs matter, so the copies of a block leave what the block does. */
  lemma SamePlaces(u: Utxos, ts: seq<Transaction>, copies: seq<Transaction>, hashes: seq<uint32>, after: Utxos)
    requires |hashes| == |ts| == |copies|
    requires forall k | 0 <= k < |ts| :: ts[k].inputs == copies[k].inputs && ts[k].outputs == copies[k].outputs
    ensures NewOutputs(u, ts, hashes) ==> NewOutputs(u, copies, hashes)
    ensures Leaves(u, copies, hashes, after) ==> Leaves(u, ts, hashes, after)
  {
    hide OutputAt, Named, IsOutput;
    forall from: nat, l: Locator
      ensures Named(ts, from, l) <==> Named(copies, from, l)
    {
      SameNames(ts, copies, from, l);
      SameNames(copies, ts, from, l);
    }
    forall l: Locator
      ensures IsOutput(ts, hashes, l) <==> IsOutput(copies, hashes, l)
    {
      SameOutputs(ts, copies, hashes, l);
      SameOutputs(copies, ts, hashes, l);
    }
  }

  // ----- One transaction -----

  predicate NamedBy(inputs: seq<TransactionInput>, l: Locator) {
    exists i :: 0 <= i < |inputs| && Locator(inputs[i].referenceTransactionHash, inputs[i].utxoIndex) == l
  }

  lemma {:induction false} AfterSpends(u: Utxos, inputs: seq<TransactionInput>, l: Locator)
    ensures var after := ApplyAll(u, Spends(inputs));
            && (l in after <==> l in u && !NamedBy(inputs, l))
            && (l in after ==> after[l] == u[l])
  {
    var n := |inputs|;
    if n > 0 {
      var before, last := inputs[..n - 1], inputs[n - 1];
      AfterSpends(u, before, l);
      assert Spends(inputs)[..n - 1] == Spends(before);
      if NamedBy(inputs, l) {
        var i :| 0 <= i < n && Locator(inputs[i].referenceTransactionHash, inputs[i].utxoIndex) == l;
        assert i < n - 1 ==> before[i] == inputs[i];
      }
      if NamedBy(before, l) {
        var i :| 0 <= i < n - 1 && Locator(before[i].referenceTransactionHash, before[i].utxoIndex) == l;
        assert inputs[i] == before[i];
      }
    }
  }

  lemma {:induction false} AfterCreates(u: Utxos, h: uint32, outputs: seq<TransactionOutput>, l: Locator)
    requires forall i, j | 0 <= i < j < |outputs| :: CoinAt(h, i) != CoinAt(h, j)
    ensures var after := ApplyAll(u, Creates(h, outputs));
            && (forall j | 0 <= j < |outputs| && l == CoinAt(h, j) :: l in after && after[l] == outputs[j])
            && ((forall j | 0 <= j < |outputs| :: l != CoinAt(h, j)) ==>
                  (l in after <==> l in u) && (l in after ==> after[l] == u[l]))
  {
    var n := |outputs|;
    if n > 0 {
      AfterCreates(u, h, outputs[..n - 1], l);
      assert Creates(h, outputs)[..n - 1] == Creates(h, outputs[..n - 1]);
      assert Creates(h, outputs)[n - 1] == Create(CoinAt(h, n - 1), outputs[n - 1]);
    }
  }

  /** What one transaction does to one coin. */
  lemma AfterTransaction(u: Utxos, t: Transaction, hashOf: Transaction -> uint32, l: Locator)
    requires forall i, j | 0 <= i < j < |t.outputs| :: CoinAt(hashOf(t), i) != CoinAt(hashOf(t), j)
    ensures var after := ApplyAll(u, TransactionOperations(t, hashOf));
            && (forall j | 0 <= j < |t.outputs| && l == CoinAt(hashOf(t), j) :: l in after && after[l] == t.outputs[j])
            && ((forall j | 0 <= j < |t.outputs| :: l != CoinAt(hashOf(t), j)) ==>
                  (l in after <==> l in u && !NamedBy(t.inputs, l)) && (l in after ==> after[l] == u[l]))
  {
    hide ApplyAll, Spends, Creates, NamedBy;
    ApplyAppend(u, Spends(t.inputs), Creates(hashOf(t), t.outputs));
    AfterSpends(u, t.inputs, l);
    AfterCreates(ApplyAll(u, Spends(t.inputs)), hashOf(t), t.outputs, l);
  }

  // ----- A block -----

  lemma NamedNext(ts: seq<Transaction>, from: nat, l: Locator)
    requires |ts| > 0 && from < |ts|
    ensures Named(ts, from, l) <==> Named(ts[..|ts| - 1], from, l) || NamedBy(ts[|ts| - 1].inputs, l)
  {
    var n := |ts| - 1;
    var before := ts[..n];
    if Named(ts, from, l) {
      var k, i :| from <= k < |ts| && 0 <= i < |ts[k].inputs| && InputAt(ts, k, i) == l;
      assert k < n ==> InputAt(before, k, i) == l;
    }
    if Named(before, from, l) {
      var k, i :| from <= k < n && 0 <= i < |before[k].inputs| && InputAt(before, k, i) == l;
      assert InputAt(ts, k, i) == l;
    }
    if NamedBy(ts[n].inputs, l) {
      var i :| 0 <= i < |ts[n].inputs|
               && Locator(ts[n].inputs[i].referenceTransactionHash, ts[n].inputs[i].utxoIndex) == l;
      assert InputAt(ts, n, i) == l;
    }
  }

  lemma NewBefore(u: Utxos, ts: seq<Transaction>, hashes: seq<uint32>)
    requires |ts| == |hashes| > 0 && NewOutputs(u, ts, hashes)
    ensures NewOutputs(u, ts[..|ts| - 1], hashes[..|ts| - 1])
  {
    var n := |ts| - 1;
    assert forall k: nat, j: nat | k < n :: OutputAt(hashes[..n], k, j) == OutputAt(hashes, k, j);
  }

  /** What a block leaves of one coin. */
  ghost predicate LeavesAt(u: Utxos, ts: seq<Transaction>, hashes: seq<uint32>, after: Utxos, l: Locator)
    requires |hashes| == |ts|
  {
    && (forall k, j | 0 <= k < |ts| && 0 <= j < |ts[k].outputs| && OutputAt(hashes, k, j) == l ::
          (l in after <==> !Named(ts, k + 1, l)) && (l in after ==> after[l] == ts[k].outputs[j]))
    && (!IsOutput(ts, hashes, l) ==>
          (l in after <==> l in u && !Named(ts, 0, l)) && (l in after ==> after[l] == u[l]))
  }

  lemma LeavesNext(u: Utxos, ts: seq<Transaction>, hashes: seq<uint32>, before: Utxos, after: Utxos, l: Locator)
    requires |ts| == |hashes| > 0 && NewOutputs(u, ts, hashes)
    requires LeavesAt(u, ts[..|ts| - 1], hashes[..|ts| - 1], before, l)
    requires var n := |ts| - 1;
             var h, t := hashes[n], ts[n];
             && (forall j | 0 <= j < |t.outputs| && l == CoinAt(h, j) :: l in after && after[l] == t.outputs[j])
             && ((forall j | 0 <= j < |t.outputs| :: l != CoinAt(h, j)) ==>
                   (l in after <==> l in before && !NamedBy(t.inputs, l)) && (l in after ==> after[l] == before[l]))
    ensures LeavesAt(u, ts, hashes, after, l)
  {
    hide NamedBy, Named, CoinAt;
    var n := |ts| - 1;
    assert forall k: nat, j: nat | k < n :: OutputAt(hashes[..n], k, j) == OutputAt(hashes, k, j);
    assert forall j: nat :: OutputAt(hashes, n, j) == CoinAt(hashes[n], j);
    forall k, j | 0 <= k < |ts| && 0 <= j < |ts[k].outputs| && OutputAt(hashes, k, j) == l
      ensures (l in after <==> !Named(ts, k + 1, l)) && (l in after ==> after[l] == ts[k].outputs[j])
    {
      if k == n {
        NothingLater(ts, l);
      } else {
        NamedNext(ts, k + 1, l);
        assert OutputAt(hashes[..n], k, j) == l && ts[..n][k] == ts[k];
        forall i | 0 <= i < |ts[n].outputs|
          ensures l != CoinAt(hashes[n], i)
        {
          assert OutputAt(hashes, n, i) == CoinAt(hashes[n], i);
        }
      }
    }
    if !IsOutput(ts, hashes, l) {
      NamedNext(ts, 0, l);
      forall i | 0 <= i < |ts[n].outputs|
        ensures l != CoinAt(hashes[n], i)
      {
        assert OutputAt(hashes, n, i) == CoinAt(hashes[n], i);
      }
    }
  }

  lemma NothingLater(ts: seq<Transaction>, l: Locator)
    ensures !Named(ts, |ts|, l)
  {
  }

  lemma DistinctPositions(u: Utxos, ts: seq<Transaction>, hashes: seq<uint32>)
    requires |ts| == |hashes| > 0 && NewOutputs(u, ts, hashes)
    ensures var n := |ts| - 1;
            forall i, j | 0 <= i < j < |ts[n].outputs| :: CoinAt(hashes[n], i) != CoinAt(hashes[n], j)
  {
    var n := |ts| - 1;
    assert forall j: nat :: OutputAt(hashes, n, j) == CoinAt(hashes[n], j);
  }

  lemma {:induction false} BlockLeavesAt(u: Utxos, ts: seq<Transaction>, hashOf: Transaction -> uint32,
                                         hashes: seq<uint32>, l: Locator)
    requires |hashes| == |ts| && forall k | 0 <= k < |ts| :: hashes[k] == hashOf(ts[k])
    requires NewOutputs(u, ts, hashes)
    ensures LeavesAt(u, ts, hashes, ApplyAll(u, BlockOperations(ts, hashOf)), l)
  {
    var n := |ts|;
    if n > 0 {
      var before := BlockOperations(ts[..n - 1], hashOf);
      var now := TransactionOperations(ts[n - 1], hashOf);
      assert BlockOperations(ts, hashOf) == before + now;
      hide *;
      NewBefore(u, ts, hashes);
      BlockLeavesAt(u, ts[..n - 1], hashOf, hashes[..n - 1], l);
      DistinctPositions(u, ts, hashes);
      ApplyAppend(u, before, now);
      AfterTransaction(ApplyAll(u, before), ts[n - 1], hashOf, l);
      LeavesNext(u, ts, hashes, ApplyAll(u, before), ApplyAll(u, before + now), l);
    }
  }

  /** What a block with new outputs leaves. */
  lemma BlockLeaves(u: Utxos, ts: seq<Transaction>, hashOf: Transaction -> uint32, hashes: seq<uint32>)
    requires |hashes| == |ts| && forall k | 0 <= k < |ts| :: hashes[k] == hashOf(ts[k])
    requires NewOutputs(u, ts, hashes)
    ensures Leaves(u, ts, hashes, ApplyAll(u, BlockOperations(ts, hashOf)))
  {
    hide ApplyAll, BlockOperations, NewOutputs, Named, IsOutput, OutputAt;
    var after := ApplyAll(u, BlockOperations(ts, hashOf));
    forall l: Locator
      ensures LeavesAt(u, ts, hashes, after, l)
    {
      BlockLeavesAt(u, ts, hashOf, hashes, l);
    }
    forall k, j | 0 <= k < |ts| && 0 <= j < |ts[k].outputs|
      ensures var l := OutputAt(hashes, k, j);
              (l in after <==> !Named(ts, k + 1, l)) && (l in after ==> after[l] == ts[k].outputs[j])
    {
      assert LeavesAt(u, ts, hashes, after, OutputAt(hashes, k, j));
    }
    forall l: Locator | !IsOutput(ts, hashes, l)
      ensures (l in after <==> l in u && !Named(ts, 0, l)) && (l in after ==> after[l] == u[l])
    {
      assert LeavesAt(u, ts, hashes, after, l);
    }
  }

  // ----- The operations of a block -----

  lemma {:induction false} BlocksAppend(a: seq<Transaction>, b: seq<Transaction>, hashOf: Transaction -> uint32)
    ensures BlockOperations(a + b, hashOf) == BlockOperations(a, hashOf) + BlockOperations(b, hashOf)
  {
    if b == [] {
      assert a + b == a;
    } else {
      assert (a + b)[..|a + b| - 1] == a + b[..|b| - 1];
      BlocksAppend(a, b[..|b| - 1], hashOf);
    }
  }

  lemma OneTransaction(t: Transaction, hashOf: Transaction -> uint32)
    ensures BlockOperations([t], hashOf) == TransactionOperations(t, hashOf)
  {
    assert [t][..0] == [] && BlockOperations([], hashOf) == [];
  }

  lemma {:induction false} CreateIsOutput(ts: seq<Transaction>, hashOf: Transaction -> uint32, hashes: seq<uint32>,
                                          i: nat)
    requires |hashes| == |ts| && forall k | 0 <= k < |ts| :: hashes[k] == hashOf(ts[k])
    requires i < |BlockOperations(ts, hashOf)| && BlockOperations(ts, hashOf)[i].Create?
    ensures IsOutput(ts, hashes, BlockOperations(ts, hashOf)[i].locator)
  {
    var n := |ts| - 1;
    var before, l := BlockOperations(ts[..n], hashOf), BlockOperations(ts, hashOf)[i].locator;
    if i < |before| {
      CreateIsOutput(ts[..n], hashOf, hashes[..n], i);
      var k, j :| 0 <= k < n && 0 <= j < |ts[..n][k].outputs| && OutputAt(hashes[..n], k, j) == l;
      assert OutputAt(hashes, k, j) == l;
    } else {
      var j := i - |before| - |ts[n].inputs|;
      assert TransactionOperations(ts[n], hashOf)[i - |before|].Create?;
      assert j >= 0 && OutputAt(hashes, n, j) == l;
    }
  }

  lemma FreshNext(u: Utxos, ts: seq<Transaction>, hashOf: Transaction -> uint32, hashes: seq<uint32>, i: nat, j: nat)
    requires |hashes| == |ts| > 0 && forall k | 0 <= k < |ts| :: hashes[k] == hashOf(ts[k])
    requires NewOutputs(u, ts, hashes)
    requires var operations := BlockOperations(ts, hashOf);
             && i < j < |operations| && operations[i].Create? && operations[j].Create?
             && j >= |BlockOperations(ts[..|ts| - 1], hashOf)|
    ensures BlockOperations(ts, hashOf)[i].locator != BlockOperations(ts, hashOf)[j].locator
    ensures BlockOperations(ts, hashOf)[j].locator !in u
  {
    var n := |ts| - 1;
    var before, t, operations := BlockOperations(ts[..n], hashOf), ts[n], BlockOperations(ts, hashOf);
    var q := j - |before| - |t.inputs|;
    assert operations == before + TransactionOperations(t, hashOf);
    assert q >= 0 && operations[j].locator == OutputAt(hashes, n, q);
    if i < |before| {
      CreateIsOutput(ts[..n], hashOf, hashes[..n], i);
      var k, m :| 0 <= k < n && 0 <= m < |ts[..n][k].outputs|
                  && OutputAt(hashes[..n], k, m) == operations[i].locator;
      assert OutputAt(hashes, k, m) == operations[i].locator;
    } else {
      assert operations[i].locator == OutputAt(hashes, n, i - |before| - |t.inputs|);
    }
  }

  /** New outputs are what the operations of a block create anew. */
  lemma NewIsFresh(u: Utxos, ts: seq<Transaction>, hashOf: Transaction -> uint32, hashes: seq<uint32>)
    requires |hashes| == |ts| && forall k | 0 <= k < |ts| :: hashes[k] == hashOf(ts[k])
    requires NewOutputs(u, ts, hashes)
    ensures FreshCreates(u, BlockOperations(ts, hashOf))
    decreases |ts|
  {
    if |ts| > 0 {
      var n := |ts| - 1;
      NewBefore(u, ts, hashes);
      NewIsFresh(u, ts[..n], hashOf, hashes[..n]);
      var before, operations := BlockOperations(ts[..n], hashOf), BlockOperations(ts, hashOf);
      assert operations == before + TransactionOperations(ts[n], hashOf);
      hide NewOutputs, BlockOperations, TransactionOperations;
      forall i | 0 <= i < |operations| && operations[i].Create?
        ensures operations[i].locator !in u
      {
        CreateIsOutput(ts, hashOf, hashes, i);
        OutputIsNew(u, ts, hashes, operations[i].locator);
      }
      forall i, j | 0 <= i < j < |operations| && operations[i].Create? && operations[j].Create?
        ensures operations[i].locator != operations[j].locator
      {
        if j < |before| {
          assert operations[i] == before[i] && operations[j] == before[j];
        } else {
          FreshNext(u, ts, hashOf, hashes, i, j);
        }
      }
    }
  }

  lemma OutputIsNew(u: Utxos, ts: seq<Transaction>, hashes: seq<uint32>, l: Locator)
    requires |hashes| == |ts| && NewOutputs(u, ts, hashes) && IsOutput(ts, hashes, l)
    ensures l !in u
  {
  }
}
