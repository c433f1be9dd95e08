# disc3 in Dafny

A model of the recursive integer exercises in `disc3.py`, with proofs of what
their docstrings and names promise:

- `multiply(m, n)` multiplies by repeated addition.
- `skip_mul(n)` is the product n * (n - 2) * (n - 4) * ... down to 1 or 2.
- `is_prime(n)` does trial division. Its inner `helper(x)` steps the divisor x up from 2.
- `hailstone(n)` walks the Collatz sequence. It emits every value before recursing and returns how many it emitted.
- `merge(n1, n2)` merges the digits of two numbers whose digits descend. At every call it first asserts `descending(n1) and descending(n2)`.
- `descending(n)` is a loop and `descending_rec(n)` is a recursion. Both test "digits never increase from left to right", but they do not agree.

Modules, one per group of functions:

- `Products` (`products.dfy`): `multiply` and `skip_mul`, with reference definitions (a product of the factor sequence, factorials, powers of two).
- `Primes` (`primes.dfy`): `is_prime` and `helper`.
- `Collatz` (`collatz.dfy`): `hailstone`, run with a fuel bound.
- `Numerals` (`numerals.dfy`): the decimal digits of a number, the loop `descending` as a method, and `descending_rec` as a predicate.
- `Merging` (`merging.dfy`): `merge`, and `merge` with the guard that was evidently meant.

How the source becomes Dafny:

- Pure recursions become functions. Their contracts and lemmas state the promised behaviour.
- `descending` becomes a method with a `while` loop. The source returns from inside the loop body on its first pass. The method models that return with a `returned` flag that ends the loop. The method is proved equal to the function `LastPairOrdered`.
- `merge` is a function, so its guard calls `LastPairOrdered`. `merge` returns `Outcome`, which is either `Merged(value)` or `AssertionError`. `AssertionError` stands for the exception its `assert` raises.
- `is_prime`'s `helper` compares x with the float `n ** 0.5`. For x >= 0 that test is the exact integer test `x * x > n`, which the model uses.
- `hailstone` takes a `fuel` argument that bounds the number of nested calls. It returns a `Walk`:
  - `Finished(emitted, count)` when it reached 1;
  - `Unfinished(emitted)` with the values printed so far when the fuel ran out.

  The printed values come back as the sequence `emitted`. Halving uses integer division, as `int(n / 2)` does for even n.

Behaviour taken from the code where a description in prose could mislead:

- `merge` peels the SMALLER of the two last digits. That digit becomes the result's last digit. On equal last digits the `else` branch peels the digit of `n1` (`disc3.py:81-84`).
- `descending(12)` is False.
- Both tests accept 321. The smallest kind of input on which they differ has three digits whose first two rise, such as 132.

## Model

| member | source | states |
|---|---|---|
| `Products.Multiply` | disc3.py:1-9 | for every integer m and every n >= 1 the result is m * n |
| `Products.SkipMul` | disc3.py:11-22 | for n >= 1 the result is at least n (so it is positive) |
| `Products.SkipFactorsShape` | disc3.py:12-17 | the factors of skip_mul start at n, step down by 2 and end at 1 or 2 |
| `Products.SkipMulIsProduct` | disc3.py:11-22 | skip_mul(n) equals the product of n, n - 2, ... ending at 1 or 2 |
| `Products.SkipMulTimesPrevious` | disc3.py:11-22 | skip_mul(n) * skip_mul(n - 1) == n! for n >= 2 |
| `Products.SkipMulEven` | disc3.py:16-22 | skip_mul(2k) == 2^k * k! for k >= 1 |
| `Products.DocExamples` | disc3.py:1-22 | multiply(5, 3) == 15, skip_mul(5) == 15, skip_mul(8) == 384 |
| `Primes.Helper` | disc3.py:35-41 | helper(x) is true exactly when no d >= x with d * d <= n divides n; so a divisor equal to the root is still tried |
| `Primes.IsPrime` | disc3.py:25-42 | is_prime(n) is true exactly when no d with 2 <= d and d * d <= n divides n |
| `Primes.IsPrimeIffNoProperDivisor` | disc3.py:25-42 | for n >= 2, is_prime(n) is true if and only if no x with 2 <= x < n divides n |
| `Primes.DocExamples` | disc3.py:27-30 | is_prime(2) is True, is_prime(16) is False, and is_prime(4) is False (its divisor 2 equals its root) |
| `Primes.Prime521` | disc3.py:31-32 | is_prime(521) is True |
| `Primes.BelowTwo` | disc3.py:35-42 | with no guard below 2, is_prime(0) and is_prime(1) return True |
| `Collatz.Hailstone` | disc3.py:46-71 | a finished walk emits n first and 1 last, and returns a count equal to the number of values emitted; at most one value is emitted per unit of fuel |
| `Collatz.HailstoneSteps` | disc3.py:63-71 | each emitted value is n / 2 of the previous one if that was even and 3n + 1 if it was odd, and the walk stops at the first 1 |
| `Collatz.HailstoneReaches` | disc3.py:63-71 | conversely, if the Collatz sequence from n reaches 1 as the last value of s, hailstone(n) with fuel at least the length of s finishes, emits exactly s and returns that length |
| `Collatz.HailstoneFuelIrrelevant` | disc3.py:46-71 | once a walk finishes, more fuel does not change what it emits or returns |
| `Collatz.HailstoneDivergesBelowOne` | disc3.py:66-71 | for n <= 0 hailstone never finishes, whatever the fuel |
| `Collatz.DocExamples` | disc3.py:48-61 | hailstone(10) emits 10, 5, 16, 8, 4, 2, 1 and returns 7; hailstone(1) emits 1 and returns 1 |
| `Numerals.DescendingRecIffNonIncreasing` | disc3.py:99-107 | descending_rec(n) is true if and only if every digit of n is at least the digit to its right |
| `Numerals.DescendingRecPrefix` | disc3.py:99-107 | descending_rec(n) implies descending_rec(n // 10) |
| `Numerals.DescendingRecAppend` | disc3.py:99-107 | appending a digit d to a positive m keeps descending_rec exactly when m's last digit is at least d |
| `Numerals.Descending` | disc3.py:88-96 | descending(n) is True for n <= 10 and otherwise equals n % 10 <= n // 10 % 10; it is True whenever descending_rec(n) is |
| `Numerals.DescendingRecImpliesLastPair` | disc3.py:88-107 | whatever descending_rec accepts, descending accepts |
| `Numerals.LastPairNotSufficient` | disc3.py:88-107 | the converse fails: descending(132) is True and descending_rec(132) is False |
| `Numerals.Examples` | disc3.py:88-96 | descending(12) is False, descending(10) is True, and both tests accept 321 |
| `Numerals.AgreeBelowHundred` | disc3.py:88-107 | on n < 100 the two tests agree |
| `Merging.Merge` | disc3.py:74-84 | a returned result is 0 only when both inputs are 0, and when both inputs are positive its last digit is the smaller of their last digits |
| `Merging.MergeKeepsDigits` | disc3.py:77-84 | whenever merge returns, the result's digits are the multiset union of the inputs' digits (0 has none) |
| `Merging.MergeDescending` | disc3.py:74-84 | if both inputs satisfy descending_rec, the assertion never fails and the result satisfies descending_rec |
| `Merging.MergeZero` | disc3.py:76-80 | once the guard passes, merge(n, 0) == n and merge(0, n) == n |
| `Merging.MergeExamples` | disc3.py:74-84 | merge(531, 42) == 54321 and merge(21, 31) == 3211 |
| `Merging.MergeRejectsOnEntry` | disc3.py:76 | merge(12, 1) raises the assertion error |
| `Merging.MergeGuardTooWeak` | disc3.py:76 | merge(132, 1) returns 1321, whose digits do not descend; merge(132, 5) raises one call deeper, when the guard checks 13 |
| `Merging.MergeCheckedExact` | disc3.py:76 | with descending_rec as the guard, merge raises exactly when an input's digits do not descend, and otherwise returns what merge as written returns |
| `Merging.MergeCheckedRejects` | disc3.py:76 | with descending_rec as the guard, merge(132, 1) raises |

## Left out

- `test/ex.py` (`average`, `improve`, `sqrt`, `approx_eq`): IEEE floating-point Newton iteration. `improve` only ends through float convergence, and `result = sqrt(256)` is script code.
- Console output of `hailstone`: the printed values are returned as `emitted`, not printed.
- Collatz.Hailstone: the fuel bound means the model cannot say that hailstone(n) finishes for every n >= 1, because that is the Collatz conjecture. Its properties are stated for walks that finish, and HailstoneReaches covers any n whose sequence reaches 1.
- Float rounding: `n ** 0.5` is replaced by the exact test `x * x > n`, and `int(n / 2)` by integer division. The source differs from these only for values beyond the 53-bit precision of a float.
- Primes.IsPrime: n is a `nat`. For negative n the source raises a TypeError, because `n ** 0.5` is complex and cannot be compared with x.
- Products.Multiply and Products.SkipMul: n <= 0 recurses forever in the source. The model states n >= 1 as a precondition instead.
- Numerals and Merging take `nat`. Python's floor division on negative numbers is not modelled.
- Merging.Merge: the assertion's message text is not modelled. `AssertionError` carries no message.
- Numerals.Descending: the `return` inside the loop becomes a flag that ends the loop. Dafny would otherwise report the loop's back edge as unreachable.
- Python's recursion limit (RecursionError on deep recursion) and non-integer arguments are not modelled.

## Findings

| source | as written | input that shows it | evidently intended | confidence | as-written member | corrected member |
|---|---|---|---|---|---|---|
| disc3.py:88-96 | The `descending` loop returns on its first pass, so it compares only the last two digits. merge's guard (disc3.py:76) then lets inputs through whose higher digits rise. | merge(132, 1) returns 1321, whose digits do not descend; descending(132) is True | the guard rejects every input whose digits do not descend, as descending_rec decides | not executed; the result follows from the branches of disc3.py:89-95 | `Merging.MergeGuardTooWeak` | `Merging.MergeCheckedExact` |

`Merging.Merge` keeps the guard as written, because that is what `merge` does.
`Merging.MergeChecked` uses `descending_rec` as the guard. With that guard,
merge raises exactly on inputs whose digits do not descend. On every other
input it returns what `Merging.Merge` returns, so `Merging.MergeDescending`
and `Merging.MergeKeepsDigits` apply to its results.
