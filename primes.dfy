/**
 * `is_prime(n)`: trial division by an inner `helper(x)` that steps the
 * divisor x up from 2 and stops once x exceeds the square root of n.
 * The source compares x with the float n ** 0.5; for x >= 0 that is the
 * exact integer test x * x > n used here.
 */
module Primes {

  predicate Divides(d: int, n: int)
  {
    d != 0 && n % d == 0
  }

  lemma SquareGrows(x: int, d: int)
    requires 0 <= x <= d
    ensures x * x <= d * d
  {
  }

  /**
   * `helper(x)`: true exactly when no divisor d >= x with d * d <= n
   * divides n. The divisor x itself is still tried when x * x == n.
   */
  function Helper(n: nat, x: nat): (r: bool)
    requires x >= 2
    ensures r <==> forall d :: x <= d && d * d <= n ==> !Divides(d, n)
    decreases n - x
  {
    if x * x > n then
      assert forall d :: x <= d ==> x * x <= d * d by {
        forall d | x <= d ensures x * x <= d * d { SquareGrows(x, d); }
      }
      true
    else if n % x == 0 then
      assert Divides(x, n);
      false
    else
      assert x <= x * x;
      Helper(n, x + 1)
  }

  /** `is_prime(n)`: tries every divisor from 2 up to the square root of n. */
  function IsPrime(n: nat): (r: bool)
    ensures r <==> forall d :: 2 <= d && d * d <= n ==> !Divides(d, n)
  {
    Helper(n, 2)
  }

  lemma MulMonotone(a: int, b: int, c: int)
    ensures 0 <= a && b <= c ==> a * b <= a * c
  {
  }

  /** A multiple of q leaves no remainder when divided by q. */
  lemma MulMod(q: int, k: int)
    requires q > 0
    ensures (q * k) % q == 0
  {
    var t := (q * k) / q - k;
    assert q * t == -((q * k) % q);
    MulMonotone(q, 1, t);
    MulMonotone(q, t, -1);
  }

  /** A proper divisor of n has a partner divisor, and one of the two is at most the root. */
  lemma SmallDivisor(n: nat, d: int) returns (e: int)
    requires 2 <= d < n && Divides(d, n)
    ensures 2 <= e && e * e <= n && Divides(e, n)
  {
    var q := n / d;
    assert n == d * q;
    MulMonotone(d, q, 1);
    assert q >= 2;
    if d * d <= n {
      e := d;
    } else {
      MulMonotone(d, d, q);
      assert q < d;
      MulMonotone(q, q, d);
      MulMod(q, d);
      e := q;
    }
  }

  /**
   * For n >= 2, is_prime(n) is true exactly when no x with 2 <= x < n
   * divides n, in both directions.
   */
  lemma IsPrimeIffNoProperDivisor(n: nat)
    requires n >= 2
    ensures IsPrime(n) <==> forall d :: 2 <= d < n ==> !Divides(d, n)
  {
    if IsPrime(n) {
      forall d | 2 <= d < n
        ensures !Divides(d, n)
      {
        if Divides(d, n) {
          var e := SmallDivisor(n, d);
        }
      }
    } else {
      var d :| 2 <= d && d * d <= n && Divides(d, n);
      assert d < n by {
        assert d * d >= 2 * d;
      }
    }
  }

  /** The docstring examples, plus 4, whose divisor 2 equals its root. */
  lemma DocExamples()
    ensures IsPrime(2)
    ensures !IsPrime(16)
    ensures !IsPrime(4)
  {
  }

  lemma Prime521()
    ensures IsPrime(521)
  {
    assert Helper(521, 23);
    assert Helper(521, 22);
    assert Helper(521, 21);
    assert Helper(521, 20);
    assert Helper(521, 19);
    assert Helper(521, 18);
    assert Helper(521, 17);
    assert Helper(521, 16);
    assert Helper(521, 15);
    assert Helper(521, 14);
    assert Helper(521, 13);
    assert Helper(521, 12);
    assert Helper(521, 11);
    assert Helper(521, 10);
    assert Helper(521, 9);
    assert Helper(521, 8);
    assert Helper(521, 7);
    assert Helper(521, 6);
    assert Helper(521, 5);
    assert Helper(521, 4);
    assert Helper(521, 3);
    assert Helper(521, 2);
  }

  /** The source has no guard below 2: is_prime(0) and is_prime(1) are true. */
  lemma BelowTwo()
    ensures IsPrime(0) && IsPrime(1)
  {
  }
}
