/**
 * `hailstone(n)`: walks the Collatz sequence from n, emitting every value
 * before recursing, and returns how many values it emitted. Whether the
 * walk ends for every n >= 1 is the Collatz conjecture, so the model takes
 * a fuel bound: one unit per call of hailstone. The emitted values are
 * returned instead of printed.
 */
module Collatz {

  /** What hailstone has emitted: the whole walk and its count, or the values emitted before the fuel ran out. */
  datatype Walk = Finished(emitted: seq<int>, count: int) | Unfinished(emitted: seq<int>)

  /** One Collatz step: halve an even number, send an odd one to 3n + 1. */
  function Next(n: int): int
  {
    if n % 2 == 0 then n / 2 else 3 * n + 1
  }

  /** The value after s[i] is its Collatz step, and s[i] is not 1. */
  ghost predicate StepAt(s: seq<int>, i: int)
    requires 0 <= i < |s| - 1
  {
    s[i] != 1 && s[i + 1] == Next(s[i])
  }

  /** Consecutive values are Collatz steps, and no value before the last is 1. */
  ghost predicate Steps(s: seq<int>)
  {
    forall i :: 0 <= i < |s| - 1 ==> StepAt(s, i)
  }

  /** `hailstone(n)` with at most `fuel` nested calls. */
  function Hailstone(n: int, fuel: nat): (w: Walk)
    ensures |w.emitted| <= fuel
    ensures w.Unfinished? ==> |w.emitted| == fuel
    ensures fuel > 0 ==> w.emitted != [] && w.emitted[0] == n
    ensures w.Finished? ==> w.count == |w.emitted| && w.emitted != [] && w.emitted[|w.emitted| - 1] == 1
    decreases fuel
  {
    if fuel == 0 then Unfinished([])
    else if n == 1 then Finished([1], 1)
    else
      var rest := if n % 2 == 0 then Hailstone(n / 2, fuel - 1) else Hailstone(n * 3 + 1, fuel - 1);
      match rest
      case Finished(s, c) => Finished([n] + s, c + 1)
      case Unfinished(s) => Unfinished([n] + s)
  }

  /** Every emitted value is the Collatz step of the one before it, and the walk stops at the first 1. */
  lemma {:induction false} HailstoneSteps(n: int, fuel: nat)
    ensures Steps(Hailstone(n, fuel).emitted)
    ensures Hailstone(n, fuel).Unfinished? ==> 1 !in Hailstone(n, fuel).emitted
    decreases fuel
  {
    if fuel > 0 && n != 1 {
      var m := Next(n);
      HailstoneSteps(m, fuel - 1);
      var s := Hailstone(m, fuel - 1).emitted;
      assert Hailstone(n, fuel).emitted == [n] + s;
      forall i | 0 <= i < |[n] + s| - 1
        ensures StepAt([n] + s, i)
      {
        if i > 0 {
          assert StepAt(s, i - 1);
        }
      }
    }
  }

  /**
   * Conversely: if the Collatz sequence from n reaches 1 as the last value of s,
   * hailstone(n) finishes with any fuel of at least |s|, emits exactly s and returns |s|.
   */
  lemma {:induction false} HailstoneReaches(n: int, s: seq<int>, fuel: nat)
    requires s != [] && s[0] == n && s[|s| - 1] == 1 && Steps(s)
    requires fuel >= |s|
    ensures Hailstone(n, fuel) == Finished(s, |s|)
    decreases |s|
  {
    if |s| == 1 {
      assert n == 1;
    } else {
      assert StepAt(s, 0);
      var t := s[1..];
      assert Steps(t) by {
        forall i | 0 <= i < |t| - 1
          ensures StepAt(t, i)
        {
          assert StepAt(s, i + 1);
        }
      }
      HailstoneReaches(Next(n), t, fuel - 1);
      assert [n] + t == s;
    }
  }

  /** More fuel never changes a walk that finished. */
  lemma HailstoneFuelIrrelevant(n: int, fuel: nat, more: nat)
    requires Hailstone(n, fuel).Finished?
    requires more >= fuel
    ensures Hailstone(n, more) == Hailstone(n, fuel)
  {
    var w := Hailstone(n, fuel);
    HailstoneSteps(n, fuel);
    HailstoneReaches(n, w.emitted, more);
  }

  /** Non-positive starts never reach 1: hailstone(n) recurses forever for n <= 0. */
  lemma {:induction false} HailstoneDivergesBelowOne(n: int, fuel: nat)
    requires n <= 0
    ensures Hailstone(n, fuel).Unfinished?
    decreases fuel
  {
    if fuel > 0 {
      HailstoneDivergesBelowOne(Next(n), fuel - 1);
    }
  }

  /** The docstring examples: hailstone(10) emits 10 5 16 8 4 2 1 and returns 7; hailstone(1) emits 1 and returns 1. */
  lemma DocExamples(fuel: nat)
    requires fuel >= 7
    ensures Hailstone(10, fuel) == Finished([10, 5, 16, 8, 4, 2, 1], 7)
    ensures Hailstone(1, fuel) == Finished([1], 1)
  {
    var s := [10, 5, 16, 8, 4, 2, 1];
    assert Steps(s) by {
      assert Next(10) == 5 && Next(5) == 16 && Next(16) == 8 && Next(8) == 4 && Next(4) == 2 && Next(2) == 1;
    }
    HailstoneReaches(10, s, fuel);
  }
}
