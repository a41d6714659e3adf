/** The name of a transaction output, and the string under which the coin cache keeps it. */
module CoinLocator {
  import opened Types
  import Decimal

  datatype Locator = Locator(transactionHash: uint32, outputIndex: uint8)

  function Serialize(l: Locator): string {
    SerializeFromConstruct(l.transactionHash, l.outputIndex)
  }

  function SerializeFromConstruct(transactionHash: uint32, outputIndex: uint8): string {
    Decimal.ToString(transactionHash) + "-" + Decimal.ToString(outputIndex)
  }

  /** The position of the first '-', or no value. */
  function FindDash(s: string): (r: Option<nat>)
    ensures r.Some? ==> r.value < |s| && s[r.value] == '-'
  {
    if s == [] then None
    else if s[0] == '-' then Some(0)
    else var r := FindDash(s[1..]);
         if r.Some? then Some(r.value + 1) else None
  }

  /** Without a '-' both parts are the whole string. No value stands for an exception of stoul. */
  function Deserialize(s: string): Option<Locator> {
    var dash := FindDash(s);
    var hash := Decimal.Stoul(if dash.Some? then s[..dash.value] else s);
    var index := Decimal.Stoul(if dash.Some? then s[dash.value + 1..] else s);
    if hash.Some? && index.Some? then Some(Locator(Low32(hash.value), Low8(index.value))) else None
  }

  lemma {:induction false} FindDashBehindDigits(s: string, t: string)
    requires forall i | 0 <= i < |s| :: '0' <= s[i] <= '9'
    ensures FindDash(s + "-" + t) == Some(|s|)
  {
    if s != [] {
      assert (s + "-" + t)[1..] == s[1..] + "-" + t;
      FindDashBehindDigits(s[1..], t);
    }
  }

  /** Deserializing undoes serializing. */
  lemma RoundTrip(l: Locator)
    ensures Deserialize(Serialize(l)) == Some(l)
  {
    hide Decimal.Stoul, Decimal.ToString, FindDash;
    var hash, index := Decimal.ToString(l.transactionHash), Decimal.ToString(l.outputIndex);
    FindDashBehindDigits(hash, index);
    assert Serialize(l)[..|hash|] == hash;
    assert Serialize(l)[|hash| + 1..] == index;
    Decimal.StoulToString(l.transactionHash);
    Decimal.StoulToString(l.outputIndex);
  }

  /** Different locators have different keys. */
  lemma SerializeInjective(l: Locator, m: Locator)
    requires Serialize(l) == Serialize(m)
    ensures l == m
  {
    RoundTrip(l);
    RoundTrip(m);
  }

  /** The key of output 7 of transaction 120. */
  lemma SerializeExample()
    ensures Serialize(Locator(120, 7)) == "120-7"
  {
    assert Decimal.ToString(1) == "1" && Decimal.ToString(12) == "12" && Decimal.ToString(120) == "120";
    assert Decimal.ToString(7) == "7";
  }
}
