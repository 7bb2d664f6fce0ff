/** Remainders and pigeonhole counting, shared by the models. */
module Counting {

  predicate NoDup<T(==)>(s: seq<T>) {
    forall i, j :: 0 <= i < j < |s| ==> s[i] != s[j]
  }

  lemma MulBounds(n: nat, d: int)
    requires n > 0
    ensures d >= 1 ==> n * d >= n
    ensures d <= -1 ==> n * d + n <= 0
    ensures d == 0 ==> n * d == 0
  {}

  lemma ModUnique(x: int, n: nat, q: int, r: nat)
    requires n > 0 && r < n && x == n * q + r
    ensures x % n == r && x / n == q
  {
    var d := x / n - q;
    assert n * d == n * (x / n) - n * q;
    MulBounds(n, d);
  }

  lemma ModAddMultiple(r: int, n: nat, k: int)
    requires n > 0
    ensures (r + n * k) % n == r % n
  {
    assert r + n * k == n * (r / n + k) + r % n;
    ModUnique(r + n * k, n, r / n + k, r % n);
  }

  /** Counts less than n apart have different remainders. */
  lemma RemaindersDiffer(n: nat, a: int, b: int)
    requires 0 < n && a < b < a + n
    ensures a % n != b % n
  {
    var d := b / n - a / n;
    assert n * d == b - a - (b % n - a % n);
    MulBounds(n, d);
  }

  function UpTo(n: nat): (r: set<nat>)
    ensures |r| == n && forall x: nat :: x in r <==> x < n
  {
    if n == 0 then {} else UpTo(n - 1) + {n - 1}
  }

  lemma {:induction false} SetOfDistinct<T>(s: seq<T>)
    requires NoDup(s)
    ensures |set x | x in s| == |s|
  {
    if s != [] {
      var t := s[..|s| - 1];
      SetOfDistinct(t);
      assert s == t + [s[|s| - 1]];
      assert (set x | x in s) == (set x | x in t) + {s[|s| - 1]};
    }
  }

  lemma {:induction false} SubsetSize<T>(a: set<T>, b: set<T>)
    requires a <= b
    ensures |a| <= |b|
    decreases |a|
  {
    if a != {} {
      var x :| x in a;
      SubsetSize(a - {x}, b - {x});
    }
  }

  /** Pigeonhole: distinct numbers below n are at most n many. */
  lemma DistinctBelow(s: seq<nat>, n: nat)
    requires NoDup(s) && forall i :: 0 <= i < |s| ==> s[i] < n
    ensures |s| <= n
  {
    SetOfDistinct(s);
    SubsetSize((set x | x in s), UpTo(n));
  }
}
