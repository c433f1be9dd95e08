/**
 * Decimal digits of non-negative integers and the two "digits never
 * increase from left to right" tests: the loop `descending` and the
 * recursion `descending_rec`. They differ: the loop returns on its first
 * iteration, so it only compares the last two digits.
 */
module Numerals {

  /** The decimal digits of n, most significant first; 0 has no digits. */
  function Digits(n: nat): (s: seq<nat>)
    ensures forall i :: 0 <= i < |s| ==> s[i] < 10
    ensures s == [] <==> n == 0
    ensures s != [] ==> s[0] != 0
  {
    if n == 0 then [] else Digits(n / 10) + [n % 10]
  }

  /** The number whose decimal digits, most significant first, are s. */
  function Value(s: seq<nat>): nat
  {
    if s == [] then 0 else Value(s[..|s| - 1]) * 10 + s[|s| - 1]
  }

  /** Appending a digit d to a positive m gives the digits of m * 10 + d. */
  lemma DigitsAppend(m: nat, d: nat)
    requires d < 10 && m * 10 + d > 0
    ensures Digits(m * 10 + d) == Digits(m) + [d]
  {
    assert (m * 10 + d) / 10 == m && (m * 10 + d) % 10 == d;
  }

  /** The same, counting digits: the digits of m * 10 + d are those of m plus one d. */
  lemma DigitsMultisetAppend(m: nat, d: nat, v: nat)
    requires d < 10 && v == m * 10 + d && v > 0
    ensures multiset(Digits(v)) == multiset(Digits(m)) + multiset{d}
  {
    DigitsAppend(m, d);
  }

  /** Digits is a faithful representation: reading the digits back gives n. */
  lemma {:induction false} ValueOfDigits(n: nat)
    ensures Value(Digits(n)) == n
  {
    if n > 0 {
      ValueOfDigits(n / 10);
      var s := Digits(n);
      assert s[..|s| - 1] == Digits(n / 10);
    }
  }

  /** ... and every digit string without a leading zero is the digits of its value. */
  lemma {:induction false} DigitsOfValue(s: seq<nat>)
    requires forall i :: 0 <= i < |s| ==> s[i] < 10
    requires s == [] || s[0] != 0
    ensures Digits(Value(s)) == s
    ensures s != [] ==> Value(s) > 0
    decreases |s|
  {
    if s != [] {
      var p, d := s[..|s| - 1], s[|s| - 1];
      DigitsOfValue(p);
      assert p != [] ==> p[0] == s[0];
      DigitsAppend(Value(p), d);
      assert p + [d] == s;
    }
  }

  /** `descending_rec(n)`: every second-to-last digit is at least the last one, all the way up. */
  predicate DescendingRec(n: nat)
  {
    if n < 10 then true
    else
      var secondToLast, last := n / 10 % 10, n % 10;
      if secondToLast >= last then DescendingRec(n / 10) else false
  }

  /** Each digit is at least the digit to its right. */
  ghost predicate NonIncreasing(s: seq<nat>)
  {
    forall i :: 0 <= i < |s| - 1 ==> s[i] >= s[i + 1]
  }

  /** descending_rec holds exactly when the digits never increase, in both directions. */
  lemma {:induction false} DescendingRecIffNonIncreasing(n: nat)
    ensures DescendingRec(n) <==> NonIncreasing(Digits(n))
  {
    if n >= 10 {
      DescendingRecIffNonIncreasing(n / 10);
      var p := Digits(n / 10);
      var s := Digits(n);
      assert s == p + [n % 10];
      assert p[|p| - 1] == n / 10 % 10 by {
        assert p == Digits(n / 10 / 10) + [n / 10 % 10];
      }
      if NonIncreasing(s) {
        forall i | 0 <= i < |p| - 1
          ensures p[i] >= p[i + 1]
        {
          assert s[i] == p[i] && s[i + 1] == p[i + 1];
        }
        assert s[|p| - 1] >= s[|p|];
      }
      if DescendingRec(n) {
        forall i | 0 <= i < |s| - 1
          ensures s[i] >= s[i + 1]
        {
          if i < |p| - 1 {
            assert s[i] == p[i] && s[i + 1] == p[i + 1];
          }
        }
      }
    }
  }

  /** Dropping the last digit keeps descending_rec. */
  lemma DescendingRecPrefix(n: nat)
    requires DescendingRec(n)
    ensures DescendingRec(n / 10)
  {
  }

  /** Putting a digit no larger than the current last one after a descending number keeps it descending. */
  lemma DescendingRecAppend(m: nat, d: nat)
    requires d < 10 && m > 0
    ensures DescendingRec(m * 10 + d) <==> DescendingRec(m) && m % 10 >= d
  {
    assert (m * 10 + d) / 10 == m && (m * 10 + d) % 10 == d;
  }

  /** What `descending(n)` decides: true for n <= 10, otherwise whether the last digit is at most the one before it. */
  function LastPairOrdered(n: nat): bool
  {
    n <= 10 || n % 10 <= n / 10 % 10
  }

  /**
   * `descending(n)`: the loop body returns on its first pass, whichever
   * branch it takes. The return from inside the loop is modelled by setting
   * `returned`, which ends the loop with the answer in b.
   */
  method Descending(n: nat) returns (b: bool)
    ensures b == LastPairOrdered(n)
    ensures DescendingRec(n) ==> b
  {
    var m := n;
    var returned := false;
    b := true;
    while !returned && m > 10
      invariant !returned ==> m == n && b
      invariant returned ==> b == LastPairOrdered(n)
      decreases if returned then 0 else 1
    {
      var secondToLast, last := m / 10 % 10, m % 10;
      m := m / 10;
      if last <= secondToLast {
        b := true;
      } else {
        b := false;
      }
      returned := true;
    }
  }

  /** descending_rec is the stronger test: whatever it accepts, descending accepts. */
  lemma DescendingRecImpliesLastPair(n: nat)
    requires DescendingRec(n)
    ensures LastPairOrdered(n)
  {
  }

  /** The converse fails: descending accepts 132, whose digits 1, 3 rise. */
  lemma LastPairNotSufficient()
    ensures LastPairOrdered(132) && !DescendingRec(132)
  {
  }

  /** descending(12) is False, descending(10) is True, and both tests accept 321. */
  lemma Examples()
    ensures !LastPairOrdered(12) && LastPairOrdered(10)
    ensures LastPairOrdered(321) && DescendingRec(321)
  {
  }

  /** Below 100 there is only one pair of digits, and the two tests agree. */
  lemma AgreeBelowHundred(n: nat)
    requires n < 100
    ensures LastPairOrdered(n) == DescendingRec(n)
  {
  }
}
