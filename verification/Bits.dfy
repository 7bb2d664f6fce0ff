/** Bitwise operations on numbers, bit by bit. */
module Bits {
  import opened Counting

  predicate PowerOfTwo(n: nat) {
    n == 1 || (n > 0 && n % 2 == 0 && PowerOfTwo(n / 2))
  }

  /** The bitwise conjunction a & b, bit by bit from the lowest. */
  function And(a: nat, b: nat): nat {
    if a == 0 || b == 0 then 0
    else 2 * And(a / 2, b / 2) + if a % 2 == 1 && b % 2 == 1 then 1 else 0
  }

  lemma {:induction false} AndSelf(a: nat)
    ensures And(a, a) == a
  {
    if a > 0 { AndSelf(a / 2); }
  }

  /** The test of virtqueue_create: num & (num - 1) is 0 exactly for powers of two. */
  lemma {:induction false} PowerTest(n: nat)
    requires n > 0
    ensures And(n, n - 1) == 0 <==> PowerOfTwo(n)
  {
    if n > 1 {
      if n % 2 == 0 {
        PowerTest(n / 2);
        assert (n - 1) / 2 == n / 2 - 1;
      } else {
        assert (n - 1) / 2 == n / 2;
        AndSelf(n / 2);
      }
    }
  }

  lemma HalfMod(a: nat, m: nat)
    requires m > 0
    ensures a % (2 * m) == 2 * ((a / 2) % m) + a % 2
  {
    var q, s := (a / 2) / m, (a / 2) % m;
    assert a / 2 == m * q + s;
    assert a == 2 * (a / 2) + a % 2;
    assert a == (2 * m) * q + (2 * s + a % 2);
    ModUnique(a, 2 * m, q, 2 * s + a % 2);
  }

  lemma {:induction false} MaskIsMod(a: nat, n: nat)
    requires PowerOfTwo(n)
    ensures And(a, n - 1) == a % n
    decreases n
  {
    if n > 1 {
      MaskIsMod(a / 2, n / 2);
      HalfMod(a, n / 2);
      assert (n - 1) / 2 == n / 2 - 1 && (n - 1) % 2 == 1;
      AndZero(n - 1);
    }
  }

  lemma AndZero(b: nat)
    ensures And(0, b) == 0 && And(b, 0) == 0
  {}

  lemma {:induction false} SmallerPowerDivides(n: nat, m: nat)
    requires PowerOfTwo(n) && PowerOfTwo(m) && n <= m
    ensures m % n == 0
  {
    if n > 1 {
      SmallerPowerDivides(n / 2, m / 2);
      var k := (m / 2) / (n / 2);
      assert m / 2 == (n / 2) * k;
      assert m == n * k;
      ModUnique(m, n, k, 0);
    }
  }

  // ---- Complements ----

  /** A number of w bits splits along a mask and its complement. */
  lemma {:induction false} AndComplement(x: nat, m: nat, n: nat)
    requires PowerOfTwo(n) && x < n && m < n
    ensures And(x, m) + And(x, n - 1 - m) == x
    decreases n
  {
    AndZero(x);
    AndZero(m);
    AndZero(n - 1 - m);
    if n > 1 && x > 0 {
      var c := n - 1 - m;
      assert c / 2 == n / 2 - 1 - m / 2 && c % 2 == 1 - m % 2;
      AndComplement(x / 2, m / 2, n / 2);
      AndStep(x, m);
      AndStep(x, c);
    }
  }

  lemma AndStep(a: nat, b: nat)
    ensures And(a, b) == 2 * And(a / 2, b / 2) + (if a % 2 == 1 && b % 2 == 1 then 1 else 0)
  {
    AndZero(a / 2);
    AndZero(b / 2);
  }

  /** Clearing the low bits of a number of w bits: x & ~(p - 1) for powers of two p up to 2^w. */
  lemma ClearLow(x: nat, p: nat, n: nat)
    requires PowerOfTwo(p) && PowerOfTwo(n) && p <= n && x < n
    ensures p > 0 && And(x, n - p) == x - x % p
  {
    hide And;
    AndComplement(x, n - p, n);
    MaskIsMod(x, p);
  }
}
