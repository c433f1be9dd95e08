/**
 * Products computed by recursion: `multiply` (repeated addition) and
 * `skip_mul` (the product n * (n - 2) * (n - 4) * ... down to 1 or 2).
 * Both recurse forever on n <= 0, so their callers must pass n >= 1.
 */
module Products {

  /** `multiply(m, n)`: adds m to itself n times. */
  function Multiply(m: int, n: int): (r: int)
    requires n >= 1
    ensures r == m * n
    decreases n
  {
    if n == 1 then m else m + Multiply(m, n - 1)
  }

  /** `skip_mul(n)`: n itself when 0 < n <= 2, otherwise n times skip_mul(n - 2). */
  function SkipMul(n: int): (r: int)
    requires n >= 1
    ensures r >= n
    decreases n
  {
    if n <= 2 && n > 0 then n else n * SkipMul(n - 2)
  }

  /** The factors n, n - 2, n - 4, ... that are still positive. */
  function SkipFactors(n: nat): (s: seq<int>)
    ensures |s| == (n + 1) / 2
  {
    seq((n + 1) / 2, i => n - 2 * i)
  }

  function Product(s: seq<int>): int
  {
    if s == [] then 1 else s[0] * Product(s[1..])
  }

  function Factorial(n: nat): nat
  {
    if n == 0 then 1 else n * Factorial(n - 1)
  }

  function Pow2(k: nat): nat
  {
    if k == 0 then 1 else 2 * Pow2(k - 1)
  }

  /** The factors of skip_mul start at n, step down by 2 and stop at 1 or 2. */
  lemma SkipFactorsShape(n: int)
    requires n >= 1
    ensures var s := SkipFactors(n);
      && s[0] == n
      && s[|s| - 1] in {1, 2}
      && (forall i :: 0 < i < |s| ==> s[i] == s[i - 1] - 2)
  {
  }

  lemma SkipFactorsStep(n: int)
    requires n > 2
    ensures SkipFactors(n) == [n] + SkipFactors(n - 2)
  {
    var s, t := SkipFactors(n), SkipFactors(n - 2);
    assert |s| == |t| + 1;
    forall i | 0 <= i < |s|
      ensures s[i] == ([n] + t)[i]
    {
      if i > 0 {
        assert ([n] + t)[i] == t[i - 1];
      }
    }
  }

  /** skip_mul(n) is the product of n, n - 2, ... ending at 1 or 2. */
  lemma {:induction false} SkipMulIsProduct(n: int)
    requires n >= 1
    ensures SkipMul(n) == Product(SkipFactors(n))
    decreases n
  {
    if n <= 2 {
      assert SkipFactors(n) == [n];
    } else {
      SkipFactorsStep(n);
      assert SkipFactors(n)[1..] == SkipFactors(n - 2);
      SkipMulIsProduct(n - 2);
    }
  }

  /** Two neighbouring skip products make a factorial: n!! * (n - 1)!! == n!. */
  lemma {:induction false} SkipMulTimesPrevious(n: int)
    requires n >= 2
    ensures SkipMul(n) * SkipMul(n - 1) == Factorial(n)
    decreases n
  {
    if n == 2 {
    } else if n == 3 {
    } else {
      SkipMulTimesPrevious(n - 2);
      var a, b := SkipMul(n - 2), SkipMul(n - 3);
      assert SkipMul(n) == n * a;
      assert SkipMul(n - 1) == (n - 1) * b;
      assert a * b == Factorial(n - 2);
      assert Factorial(n) == n * ((n - 1) * Factorial(n - 2));
      Rearrange(n, n - 1, a, b);
    }
  }

  lemma Rearrange(x: int, y: int, a: int, b: int)
    ensures (x * a) * (y * b) == x * (y * (a * b))
  {
  }

  /** The even case in closed form: skip_mul(2k) == 2^k * k!. */
  lemma {:induction false} SkipMulEven(k: int)
    requires k >= 1
    ensures SkipMul(2 * k) == Pow2(k) * Factorial(k)
    decreases k
  {
    if k > 1 {
      SkipMulEven(k - 1);
      calc {
        SkipMul(2 * k);
        2 * k * SkipMul(2 * (k - 1));
        2 * k * (Pow2(k - 1) * Factorial(k - 1));
        { assert 2 * k * (Pow2(k - 1) * Factorial(k - 1)) == (2 * Pow2(k - 1)) * (k * Factorial(k - 1)); }
        Pow2(k) * Factorial(k);
      }
    }
  }

  /** The docstring examples of multiply and skip_mul. */
  lemma DocExamples()
    ensures Multiply(5, 3) == 15
    ensures SkipMul(5) == 15
    ensures SkipMul(8) == 384
  {
  }
}
