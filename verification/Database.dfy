/**
 * The key-value store under the coin database and the block index. Values are structured where the program keeps
 * serialized strings; `empty` is the value that the empty string deserializes to.
 */
module Database {

  datatype BatchOperation<V> = Delete(key: string) | Put(key: string, value: V)

  function LookupIn<V>(store: map<string, V>, key: string, empty: V): V {
    if key in store then store[key] else empty
  }

  function Apply<V>(store: map<string, V>, operation: BatchOperation<V>): map<string, V> {
    match operation
    case Delete(key) => store - {key}
    case Put(key, value) => store[key := value]
  }

  function ApplyAll<V>(store: map<string, V>, batch: seq<BatchOperation<V>>): map<string, V> {
    if batch == [] then store else Apply(ApplyAll(store, batch[..|batch| - 1]), batch[|batch| - 1])
  }

  /** What a batch leaves under a key is decided by the last operation on that key alone. */
  lemma {:induction false} LastOperationWins<V>(store: map<string, V>, batch: seq<BatchOperation<V>>, last: nat)
    requires last < |batch|
    requires forall i | last < i < |batch| :: batch[i].key != batch[last].key
    ensures var key, after := batch[last].key, ApplyAll(store, batch);
            if batch[last].Put? then key in after && after[key] == batch[last].value else key !in after
  {
    if last < |batch| - 1 {
      LastOperationWins(store, batch[..|batch| - 1], last);
    }
  }

  /** A batch leaves alone every key it does not mention. */
  lemma {:induction false} UnmentionedKeysStay<V>(store: map<string, V>, batch: seq<BatchOperation<V>>, key: string)
    requires forall operation | operation in batch :: operation.key != key
    ensures key in ApplyAll(store, batch) <==> key in store
    ensures key in store ==> ApplyAll(store, batch)[key] == store[key]
  {
    if batch != [] {
      UnmentionedKeysStay(store, batch[..|batch| - 1], key);
    }
  }

  class Database<V> {
    var store: map<string, V>
    const empty: V

    constructor (empty: V)
      ensures store == map[] && this.empty == empty
    {
      store := map[];
      this.empty := empty;
    }

    function Lookup(key: string): V
      reads this
    {
      LookupIn(store, key, empty)
    }

    /** Reading a missing key inserts the empty value under it. */
    method GetSafely(key: string) returns (value: V)
      modifies this
      ensures value == old(Lookup(key))
      ensures store == old(store)[key := value]
      ensures forall k :: Lookup(k) == old(Lookup(k))
    {
      if key !in store {
        store := store[key := empty];
      }
      value := store[key];
    }

    method PutSafely(key: string, value: V)
      modifies this
      ensures store == old(store)[key := value]
    {
      store := store[key := value];
    }

    method DeleteSafely(key: string)
      modifies this
      ensures store == old(store) - {key}
    {
      store := store - {key};
    }

    method Has(key: string) returns (found: bool)
      ensures found == (key in store)
    {
      found := key in store;
    }

    method BatchWriteSafely(batch: seq<BatchOperation<V>>)
      modifies this
      ensures store == ApplyAll(old(store), batch)
    {
      for i := 0 to |batch|
        invariant store == ApplyAll(old(store), batch[..i])
      {
        assert batch[..i + 1][..i] == batch[..i];
        match batch[i] {
          case Delete(key) => store := store - {key};
          case Put(key, value) => store := store[key := value];
        }
      }
      assert batch[..|batch|] == batch;
    }

    /** Reads never change what any key reads as, whatever they insert. */
    method BatchReadSafely(keys: seq<string>) returns (values: seq<V>)
      modifies this
      ensures |values| == |keys| && forall i | 0 <= i < |keys| :: values[i] == old(Lookup(keys[i]))
      ensures forall k :: Lookup(k) == old(Lookup(k))
      ensures store.Keys == old(store.Keys) + set k | k in keys
    {
      values := [];
      for i := 0 to |keys|
        invariant |values| == i && forall j | 0 <= j < i :: values[j] == old(Lookup(keys[j]))
        invariant forall k :: Lookup(k) == old(Lookup(k))
        invariant store.Keys == old(store.Keys) + set k | k in keys[..i]
      {
        var value := GetSafely(keys[i]);
        values := values + [value];
      }
      assert keys[..|keys|] == keys;
    }
  }
}
