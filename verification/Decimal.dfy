/** std::to_string for unsigned numbers, and std::stoul with base detection, which reads them back. */
module Decimal {
  import opened Types

  function Digit(d: nat): (c: char)
    requires d < 10
    ensures '0' <= c <= '9'
  {
    '0' + d as char
  }

  function ToString(n: nat): (s: string)
    ensures s != []
    ensures forall i | 0 <= i < |s| :: '0' <= s[i] <= '9'
  {
    if n < 10 then [Digit(n)] else ToString(n / 10) + [Digit(n % 10)]
  }

  /** The value of a character as a digit; letters count from 10. */
  function DigitValue(c: char): (v: nat)
    ensures v <= 36
  {
    if '0' <= c <= '9' then (c - '0') as nat
    else if 'a' <= c <= 'z' then 10 + (c - 'a') as nat
    else if 'A' <= c <= 'Z' then 10 + (c - 'A') as nat
    else 36
  }

  /** The length of the longest prefix of s that is digits of the given base. */
  function Run(s: string, base: nat): (k: nat)
    requires base <= 36
    ensures k <= |s|
    ensures forall i | 0 <= i < k :: DigitValue(s[i]) < base
  {
    if s == [] || DigitValue(s[0]) >= base then 0 else 1 + Run(s[1..], base)
  }

  function ValueOf(s: string, base: nat): nat {
    if s == [] then 0 else ValueOf(s[..|s| - 1], base) * base + DigitValue(s[|s| - 1])
  }

  predicate IsSpace(c: char) {
    c == ' ' || '\t' <= c <= '\r'
  }

  function SkipSpaces(s: string): string {
    if s != [] && IsSpace(s[0]) then SkipSpaces(s[1..]) else s
  }

  /** Base 16 behind "0x", base 8 behind "0", base 10 otherwise, with what follows the prefix. */
  function DetectBase(s: string): (r: (nat, string))
    ensures r.0 <= 36
  {
    if |s| >= 3 && s[0] == '0' && (s[1] == 'x' || s[1] == 'X') && DigitValue(s[2]) < 16 then (16, s[2..])
    else if s != [] && s[0] == '0' then (8, s)
    else (10, s)
  }

  /** stoul(s, nullptr, 0): no value stands for the exceptions invalid_argument and out_of_range. */
  function Stoul(s: string): Option<uint64> {
    var t := SkipSpaces(s);
    var negative := t != [] && t[0] == '-';
    var unsigned := if t != [] && (t[0] == '-' || t[0] == '+') then t[1..] else t;
    var (base, digits) := DetectBase(unsigned);
    var k := Run(digits, base);
    var v := ValueOf(digits[..k], base);
    if k == 0 || v >= TWO_TO_THE_64 then None
    else Some(if negative then Low64(0 - v) else v)
  }

  lemma {:induction false} ValueOfToString(n: nat)
    ensures ValueOf(ToString(n), 10) == n
  {
    if n >= 10 {
      var s := ToString(n);
      assert s[..|s| - 1] == ToString(n / 10);
      ValueOfToString(n / 10);
    }
  }

  lemma {:induction false} RunOfDigits(s: string)
    requires forall i | 0 <= i < |s| :: '0' <= s[i] <= '9'
    ensures Run(s, 10) == |s|
  {
    if s != [] {
      RunOfDigits(s[1..]);
    }
  }

  /** No decimal representation but that of zero starts with '0', so none is taken for an octal number. */
  lemma {:induction false} NoLeadingZero(n: nat)
    ensures ToString(n)[0] == '0' <==> n == 0
  {
    if n >= 10 {
      NoLeadingZero(n / 10);
    }
  }

  lemma StoulZero()
    ensures Stoul("0") == Some(0)
  {
    assert Run("0", 8) == 1 && ValueOf("0", 8) == 0;
  }

  /** Reading back what was printed, for every value that fits an unsigned long. */
  lemma StoulToString(n: uint64)
    ensures Stoul(ToString(n)) == Some(n)
  {
    var s := ToString(n);
    if n == 0 {
      assert s == "0";
      StoulZero();
    } else {
      NoLeadingZero(n);
      ValueOfToString(n);
      RunOfDigits(s);
      hide Run, ValueOf, ToString;
      assert s[..|s|] == s;
    }
  }

  lemma ToStringInjective(m: nat, n: nat)
    requires ToString(m) == ToString(n)
    ensures m == n
  {
    ValueOfToString(m);
    ValueOfToString(n);
  }
}
