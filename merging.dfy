/**
 * `merge(n1, n2)`: merges the digits of two numbers whose digits descend,
 * working from the least significant end. Of the two last digits the
 * smaller one is peeled off and becomes the result's last digit; on equal
 * last digits the digit of n1 is peeled. Every call, the recursive ones
 * included, first asserts `descending(n1) and descending(n2)`.
 */
module Merging {
  import opened Numerals

  /** The result of merge: a number, or the AssertionError its guard raises. */
  datatype Outcome = Merged(value: nat) | AssertionError

  function Min(a: int, b: int): int
  {
    if a <= b then a else b
  }

  /** `merge(n1, n2)`, guarded by `descending` (the last-pair test) at every call. */
  function Merge(n1: nat, n2: nat): (r: Outcome)
    ensures r.Merged? ==> (r.value == 0 <==> n1 == 0 && n2 == 0)
    ensures r.Merged? && n1 > 0 && n2 > 0 ==> r.value % 10 == Min(n1 % 10, n2 % 10)
    decreases n1 + n2
  {
    if !(LastPairOrdered(n1) && LastPairOrdered(n2)) then AssertionError
    else if n1 == 0 then Merged(n2)
    else if n2 == 0 then Merged(n1)
    else if n1 % 10 > n2 % 10 then
      match Merge(n1, n2 / 10)
      case Merged(m) => Merged(m * 10 + n2 % 10)
      case AssertionError => AssertionError
    else
      match Merge(n1 / 10, n2)
      case Merged(m) => Merged(m * 10 + n1 % 10)
      case AssertionError => AssertionError
  }

  /** Whenever merge returns, the result holds exactly the digits of both inputs (0 has none). */
  lemma {:induction false} MergeKeepsDigits(n1: nat, n2: nat)
    requires Merge(n1, n2).Merged?
    ensures multiset(Digits(Merge(n1, n2).value)) == multiset(Digits(n1)) + multiset(Digits(n2))
    decreases n1 + n2, 1
  {
    if n1 == 0 {
      assert Digits(n1) == [];
      assert Merge(n1, n2).value == n2;
    } else if n2 == 0 {
      assert Digits(n2) == [];
      assert Merge(n1, n2).value == n1;
    } else if n1 % 10 > n2 % 10 {
      KeepsDigitsRight(n1, n2);
    } else {
      KeepsDigitsLeft(n1, n2);
    }
  }

  lemma {:induction false} KeepsDigitsRight(n1: nat, n2: nat)
    requires n1 > 0 && n2 > 0 && n1 % 10 > n2 % 10
    requires Merge(n1, n2).Merged?
    ensures multiset(Digits(Merge(n1, n2).value)) == multiset(Digits(n1)) + multiset(Digits(n2))
    decreases n1 + n2, 0
  {
    MergeKeepsDigits(n1, n2 / 10);
    var m := Merge(n1, n2 / 10).value;
    PeelRight(m, n1, n2, Merge(n1, n2).value);
  }

  lemma {:induction false} KeepsDigitsLeft(n1: nat, n2: nat)
    requires n1 > 0 && n2 > 0 && n1 % 10 <= n2 % 10
    requires Merge(n1, n2).Merged?
    ensures multiset(Digits(Merge(n1, n2).value)) == multiset(Digits(n1)) + multiset(Digits(n2))
    decreases n1 + n2, 0
  {
    MergeKeepsDigits(n1 / 10, n2);
    var m := Merge(n1 / 10, n2).value;
    PeelLeft(m, n1, n2, Merge(n1, n2).value);
  }

  /**
   * One step of merge that peels the last digit of n2: if m holds the digits
   * of n1 and of n2 without its last digit, m * 10 + n2 % 10 holds all of them.
   */
  lemma PeelRight(m: nat, n1: nat, n2: nat, v: nat)
    requires n2 > 0 && m > 0 && v == m * 10 + n2 % 10
    requires multiset(Digits(m)) == multiset(Digits(n1)) + multiset(Digits(n2 / 10))
    ensures multiset(Digits(v)) == multiset(Digits(n1)) + multiset(Digits(n2))
  {
    DigitsMultisetAppend(m, n2 % 10, v);
    DigitsMultisetAppend(n2 / 10, n2 % 10, n2);
  }

  /** The same step when the last digit of n1 is peeled. */
  lemma PeelLeft(m: nat, n1: nat, n2: nat, v: nat)
    requires n1 > 0 && m > 0 && v == m * 10 + n1 % 10
    requires multiset(Digits(m)) == multiset(Digits(n1 / 10)) + multiset(Digits(n2))
    ensures multiset(Digits(v)) == multiset(Digits(n1)) + multiset(Digits(n2))
  {
    DigitsMultisetAppend(m, n1 % 10, v);
    DigitsMultisetAppend(n1 / 10, n1 % 10, n1);
    UnionSwap(multiset(Digits(n1 / 10)), multiset(Digits(n2)), multiset{n1 % 10});
  }

  lemma UnionSwap<T>(a: multiset<T>, b: multiset<T>, c: multiset<T>)
    ensures a + b + c == a + c + b
  {
  }

  /**
   * On inputs that satisfy descending_rec the assertion never fails, and the
   * result's digits descend too.
   */
  lemma {:induction false} MergeDescending(n1: nat, n2: nat)
    requires DescendingRec(n1) && DescendingRec(n2)
    ensures Merge(n1, n2).Merged?
    ensures DescendingRec(Merge(n1, n2).value)
    decreases n1 + n2
  {
    DescendingRecImpliesLastPair(n1);
    DescendingRecImpliesLastPair(n2);
    if n1 != 0 && n2 != 0 {
      if n1 % 10 > n2 % 10 {
        DescendingRecPrefix(n2);
        MergeDescending(n1, n2 / 10);
        var m := Merge(n1, n2 / 10).value;
        assert m % 10 >= n2 % 10 by {
          if n2 / 10 == 0 {
            assert m == n1;
          } else {
            assert n2 / 10 % 10 >= n2 % 10;
          }
        }
        DescendingRecAppend(m, n2 % 10);
      } else {
        DescendingRecPrefix(n1);
        MergeDescending(n1 / 10, n2);
        var m := Merge(n1 / 10, n2).value;
        assert m % 10 >= n1 % 10 by {
          if n1 / 10 == 0 {
            assert m == n2;
          } else {
            assert n1 / 10 % 10 >= n1 % 10;
          }
        }
        DescendingRecAppend(m, n1 % 10);
      }
    }
  }

  /** Zero is the identity of merge once the guard passes. */
  lemma MergeZero(n: nat)
    requires LastPairOrdered(n)
    ensures Merge(n, 0) == Merged(n)
    ensures Merge(0, n) == Merged(n)
  {
  }

  /** Two descending inputs interleave: merge(531, 42) == 54321, and merge(21, 31) == 3211. */
  lemma MergeExamples()
    ensures Merge(531, 42) == Merged(54321)
    ensures Merge(21, 31) == Merged(3211)
  {
    assert Merge(5, 4) == Merged(54);
    assert Merge(53, 4) == Merged(543);
    assert Merge(53, 42) == Merged(5432);
    assert Merge(2, 3) == Merged(32);
    assert Merge(2, 31) == Merged(321);
  }

  /** The guard fails on entry: merge(12, 1) raises, since the digits 1, 2 of 12 rise. */
  lemma MergeRejectsOnEntry()
    ensures Merge(12, 1) == AssertionError
  {
  }

  /**
   * The guard only sees the last two digits: merge(132, 1) returns 1321, whose
   * digits do not descend, while merge(132, 5) raises one call deeper, when
   * the guard checks 13.
   */
  lemma MergeGuardTooWeak()
    ensures Merge(132, 1) == Merged(1321) && !DescendingRec(1321)
    ensures Merge(132, 5) == AssertionError
  {
    assert Merge(13, 5) == AssertionError;
  }

  /**
   * merge with the guard that was evidently meant: `descending_rec` instead
   * of the last-pair test, still checked at every call.
   */
  function MergeChecked(n1: nat, n2: nat): (r: Outcome)
    decreases n1 + n2
  {
    if !(DescendingRec(n1) && DescendingRec(n2)) then AssertionError
    else if n1 == 0 then Merged(n2)
    else if n2 == 0 then Merged(n1)
    else if n1 % 10 > n2 % 10 then
      match MergeChecked(n1, n2 / 10)
      case Merged(m) => Merged(m * 10 + n2 % 10)
      case AssertionError => AssertionError
    else
      match MergeChecked(n1 / 10, n2)
      case Merged(m) => Merged(m * 10 + n1 % 10)
      case AssertionError => AssertionError
  }

  /**
   * With the intended guard, merge raises exactly when an input's digits do
   * not descend, and otherwise returns what merge as written returns, so its
   * result descends and holds the digits of both inputs.
   */
  lemma {:induction false} MergeCheckedExact(n1: nat, n2: nat)
    ensures MergeChecked(n1, n2).Merged? <==> DescendingRec(n1) && DescendingRec(n2)
    ensures MergeChecked(n1, n2).Merged? ==> MergeChecked(n1, n2) == Merge(n1, n2)
    decreases n1 + n2
  {
    if DescendingRec(n1) && DescendingRec(n2) {
      DescendingRecImpliesLastPair(n1);
      DescendingRecImpliesLastPair(n2);
      if n1 != 0 && n2 != 0 {
        if n1 % 10 > n2 % 10 {
          DescendingRecPrefix(n2);
          MergeCheckedExact(n1, n2 / 10);
        } else {
          DescendingRecPrefix(n1);
          MergeCheckedExact(n1 / 10, n2);
        }
      }
    }
  }

  /** The example merge(132, 1) that slips past the original guard is rejected. */
  lemma MergeCheckedRejects()
    ensures MergeChecked(132, 1) == AssertionError
  {
  }
}
