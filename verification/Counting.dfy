/** Two counting facts about finite sets. */
module Counting {

  /** A set that maps one-to-one into the numbers below n has at most n elements. */
  lemma {:induction false} InjectionBound<T(!new)>(s: set<T>, f: T -> nat, n: nat)
    requires forall x | x in s :: f(x) < n
    requires forall x, y | x in s && y in s && f(x) == f(y) :: x == y
    ensures |s| <= n
    decreases n
  {
    if x :| x in s && f(x) == n - 1 {
      InjectionBound(s - {x}, f, n - 1);
    } else if s != {} {
      InjectionBound(s, f, n - 1);
    }
  }

  /** A sequence without repetition is no longer than the set it draws from. */
  lemma DistinctBound<T>(p: seq<T>, s: set<T>)
    requires forall i, j | 0 <= i < j < |p| :: p[i] != p[j]
    requires forall i | 0 <= i < |p| :: p[i] in s
    ensures |p| <= |s|
  {
    if p != [] {
      DistinctBound(p[1..], s - {p[0]});
    }
  }
}
