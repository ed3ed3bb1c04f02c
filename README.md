# Number classifier

A Dafny model of the number classifier behind the Number_list Android app
(`MainActivity.kt`). The user enters a bound `maxNumber` and picks one of
six categories: odd, even, prime, perfect, perfect square or Fibonacci.
`generateNumbers(maxNumber, type)` returns, in ascending order, the integers
in `[1, maxNumber)` that fall into the chosen category. Five categories
filter the range with a predicate: `it % 2 != 0`, `it % 2 == 0`, `isPrime`,
`isPerfect` and `isSquare`. The Fibonacci category instead grows the
sequence `1, 1, 2, 3, ...` in a loop until its last term reaches the bound.
It then keeps the terms below the bound (`takeWhile`) and removes the
repeated seed (`distinct`).

The modules follow the parts of the source:

- `NumberTheory` (number_theory.dfy): the exact integer square root that
  replaces `sqrt(n.toDouble()).toInt()`, divisibility and its partner
  divisor `n / d`, the divisor sum, the Fibonacci numbers, and the textbook
  definitions of prime and perfect numbers.
- `Collections` (collections.dfy): Kotlin's `takeWhile` and `distinct` on
  integer sequences, plus the orderings the classifier promises.
- `Predicates` (predicates.dfy): `isPrime` and `isPerfect` as the `for`
  loops they are, and `isSquare` as the expression it is. Each is proved
  equal to its textbook definition.
- `NumberList` (number_list.dfy): the `NumberType` enum (lines 83-90) as a
  datatype, the filter tests as a predicate, the filter branches as a
  function, the Fibonacci loop and branch as methods, and `generateNumbers`
  itself as a method; a method is needed because of the Fibonacci branch.
- `Scenarios` (number_list.dfy): worked examples derived from the contracts
  alone.

The filter branches are functions, so they cannot call the `IsPrime` and
`IsPerfect` methods. They test with `IsPrimeNumber` and `IsPerfectNumber`
instead, which the two methods are proved to compute. `Accepts(Odd, n)` uses
Dafny's Euclidean `%`. Kotlin truncates toward zero, but the two agree on the
range `[1, maxNumber)` that is filtered.

The main result is the contract of `NumberList.GenerateNumbers`. For every
integer bound and every category:

- the result is strictly increasing, so it has no duplicates;
- `n` is in the result exactly when `1 <= n < maxNumber` and `n` has the
  category's textbook property;
- a bound of 1 or less gives the empty list.

`Collections.IncreasingUnique` shows that these facts determine the list
uniquely.

## Model

| member | source | states |
|---|---|---|
| `NumberList.GenerateNumbers` | app/src/main/java/com/example/numberlist/MainActivity.kt:92-107 | for every bound and category the result is strictly increasing, contains `n` iff `1 <= n < maxNumber` and `n` has the category's textbook property (odd, even, prime, perfect, square of an integer, Fibonacci number), and is empty when `maxNumber <= 1` |
| `NumberList.Accepts` | app/src/main/java/com/example/numberlist/MainActivity.kt:94-98 | each filter test holds exactly when the category's textbook property does. For Odd, `n % 2 != 0` is shown to mean `n % 2 == 1`. For Square, `isSquare` is shown to mean `n == k * k` for some `k`. For Even, Prime and Perfect the equivalence holds by definition, because the test is the textbook predicate itself (`IsPrimeNumber`, `IsPerfectNumber`). The link from those predicates to the source's loops is the ensures of `Predicates.IsPrime` and `Predicates.IsPerfect` |
| `NumberList.Filtered` | app/src/main/java/com/example/numberlist/MainActivity.kt:94-98 | `(1 until bound).filter` keeps the range's ascending order (strictly increasing), contains exactly the `n` in `[1, bound)` that pass the category's test (soundness and completeness), and is empty when `bound <= 1` |
| `NumberList.FilteredHasProperty` | app/src/main/java/com/example/numberlist/MainActivity.kt:94-98 | each filter branch returns exactly the numbers in `[1, bound)` that have the category's textbook property |
| `NumberList.OddEvenPartition` | app/src/main/java/com/example/numberlist/MainActivity.kt:94-95 | the Odd and Even results are disjoint, together cover `[1, maxNumber)` exactly, and their lengths add up to the size of the range |
| `NumberList.FibonacciTerms` | app/src/main/java/com/example/numberlist/MainActivity.kt:100-103 | the loop terminates; the list starts `1, 1`, every later term is the sum of the two before it (so term `k` is `Fib(k)`), the last term is `>= maxNumber`, no term from index 1 up to the one before the last reaches `maxNumber`, and for `maxNumber <= 1` the loop body never runs, so the list is the seed `[1, 1]` |
| `NumberList.FibonacciBelow` | app/src/main/java/com/example/numberlist/MainActivity.kt:100-104 | cutting a Fibonacci prefix whose last term reaches the bound with `takeWhile` and then applying `distinct` gives a strictly increasing list of exactly the Fibonacci numbers in `[1, maxNumber)`; for `maxNumber <= 1` the list is empty, because `takeWhile` drops the seed `1, 1` |
| `NumberList.FibonacciNumbers` | app/src/main/java/com/example/numberlist/MainActivity.kt:99-105 | the Fibonacci branch returns a strictly increasing list of exactly the Fibonacci numbers in `[1, maxNumber)`, and the empty list when `maxNumber <= 1` |
| `Collections.TakeWhileBelow` | app/src/main/java/com/example/numberlist/MainActivity.kt:104 | `takeWhile { it < bound }` returns a prefix of its input whose elements are all below the bound, and it stops only at an element that reaches the bound |
| `Collections.TakeWhileOfSorted` | app/src/main/java/com/example/numberlist/MainActivity.kt:104 | on an ascending list, `takeWhile` keeps the order and keeps exactly the elements below the bound |
| `Collections.Distinct` | app/src/main/java/com/example/numberlist/MainActivity.kt:104 | `distinct()` keeps exactly the elements of its input, with no duplicates, and is no longer than its input |
| `Collections.DistinctOfSorted` | app/src/main/java/com/example/numberlist/MainActivity.kt:104 | `distinct()` of an ascending list is strictly ascending (the seed `1, 1` collapses to one `1`) |
| `Collections.IncreasingUnique` | app/src/main/java/com/example/numberlist/MainActivity.kt:92-107 | two strictly increasing lists with the same elements are equal, so the contract of `generateNumbers` determines its result |
| `NumberTheory.Fib` | app/src/main/java/com/example/numberlist/MainActivity.kt:100-102 | every Fibonacci term the loop appends is at least 1 |
| `NumberTheory.FibGrows` | app/src/main/java/com/example/numberlist/MainActivity.kt:101-102 | from the second term on, the sequence strictly increases; through `FibMonotone` this makes the terms below the bound a prefix of the grown list |
| `NumberTheory.FibMonotone` | app/src/main/java/com/example/numberlist/MainActivity.kt:104 | the sequence including the repeated seed never decreases, so the terms below the bound form a prefix |
| `Predicates.IsPrime` | app/src/main/java/com/example/numberlist/MainActivity.kt:109-115 | returns true iff `n > 1` and no `i` in `[2, isqrt(n)]` divides `n`, and also iff `n` is prime in the textbook sense (no divisor strictly between 1 and `n`) |
| `Predicates.TrialDivisionSuffices` | app/src/main/java/com/example/numberlist/MainActivity.kt:111-112 | for `n > 1`, having no divisor in `[2, isqrt(n)]` is equivalent to having no divisor in `(1, n)` |
| `Predicates.IsPerfect` | app/src/main/java/com/example/numberlist/MainActivity.kt:117-129 | returns false for `n <= 1` and in general returns true iff `n` is positive and equals the sum of its proper divisors |
| `Predicates.PairedStart` | app/src/main/java/com/example/numberlist/MainActivity.kt:119 | before the loop, the only divisor accounted for is 1, matching `var sum = 1` |
| `Predicates.CollectedStep` | app/src/main/java/com/example/numberlist/MainActivity.kt:120-126 | trying candidate `i` newly accounts for exactly `i` and its partner `n / i` when `i` divides `n`; neither was accounted for before |
| `Predicates.PairedStep` | app/src/main/java/com/example/numberlist/MainActivity.kt:120-126 | trying candidate `i` raises the running divisor sum by `i` when it divides `n`, and by `n / i` too unless `i * i == n`, so the exact root is never counted twice |
| `Predicates.PairedLoopStep` | app/src/main/java/com/example/numberlist/MainActivity.kt:121-126 | one pass of the loop body over the proper divisors of `n` adds exactly what the source adds to `sum` |
| `Predicates.PairedComplete` | app/src/main/java/com/example/numberlist/MainActivity.kt:120-128 | once every candidate up to `isqrt(n)` is tried, the running sum is the sum of all proper divisors of `n` |
| `Predicates.IsSquare` | app/src/main/java/com/example/numberlist/MainActivity.kt:131-135 | false for `n < 1`; for `n >= 1` true iff `n == k * k` for some integer `k` |
| `NumberTheory.Isqrt` | app/src/main/java/com/example/numberlist/MainActivity.kt:111 | the truncated square root `r` satisfies `r * r <= n < (r + 1) * (r + 1)` |
| `NumberTheory.IsqrtUnique` | app/src/main/java/com/example/numberlist/MainActivity.kt:133 | only one `k` satisfies `k * k <= n < (k + 1) * (k + 1)`, and that `k` is the square root |
| `NumberTheory.IsqrtOfSquare` | app/src/main/java/com/example/numberlist/MainActivity.kt:133-134 | the square root of `k * k` is `abs(k)`, so the truncated root detects every square |
| `NumberTheory.IsqrtBelow` | app/src/main/java/com/example/numberlist/MainActivity.kt:111 | for `n >= 2` every trial divisor up to the root is below `n` |
| `NumberTheory.QuotientAtLeast` | app/src/main/java/com/example/numberlist/MainActivity.kt:120-124 | a candidate `i` no larger than the root is no larger than its partner `n / i` |
| `NumberTheory.QuotientBelow` | app/src/main/java/com/example/numberlist/MainActivity.kt:124 | the partner `n / i` of a candidate `i >= 2` is a proper divisor (below `n`) |
| `NumberTheory.DividesPartner` | app/src/main/java/com/example/numberlist/MainActivity.kt:124 | the partner `n / d` of a positive divisor `d` is itself a positive divisor, and its own partner is `d` |
| `NumberTheory.RootGuard` | app/src/main/java/com/example/numberlist/MainActivity.kt:123 | for a divisor `i`, the guard `i * i != n` holds exactly when the partner `n / i` differs from `i` |
| `NumberTheory.SmallPartner` | app/src/main/java/com/example/numberlist/MainActivity.kt:120 | a divisor above the root has its partner at or below the root, so the loop up to `isqrt(n)` reaches every divisor |
| `Scenarios.FibonacciBelowTen` | app/src/main/java/com/example/numberlist/MainActivity.kt:100-104 | the Fibonacci numbers in `[1, 10)` are exactly 1, 2, 3, 5 and 8, so `generateNumbers(10, FIBONACCI)` is `[1, 2, 3, 5, 8]` |
| `Scenarios.SquaresBelowTwenty` | app/src/main/java/com/example/numberlist/MainActivity.kt:131-135 | the squares in `[1, 20)` are exactly 1, 4, 9 and 16, so `generateNumbers(20, SQUARE)` is `[1, 4, 9, 16]` |
| `Scenarios.PrimeByTrial` | app/src/main/java/com/example/numberlist/MainActivity.kt:109-115 | a number `n > 1` with square root `r` and no divisor in `[2, r]` is prime, which is the trial division `isPrime` performs |
| `Scenarios.PrimesBelowTwenty` | app/src/main/java/com/example/numberlist/MainActivity.kt:109-115 | the primes in `[1, 20)` are exactly 2, 3, 5, 7, 11, 13, 17 and 19, so `generateNumbers(20, PRIME)` is `[2, 3, 5, 7, 11, 13, 17, 19]` |
| `Scenarios.SixAndTwentyEightArePerfect` | app/src/main/java/com/example/numberlist/MainActivity.kt:117-129 | 6 and 28 are perfect numbers |

`Scenarios.Examples` is a caller with no contract of its own. It derives
from `GenerateNumbers`' contract that bound 10 gives `[1, 3, 5, 7, 9]` for
Odd, `[2, 4, 6, 8]` for Even and `[1, 2, 3, 5, 8]` for Fibonacci. Bound 20
gives `[1, 4, 9, 16]` for Square and `[2, 3, 5, 7, 11, 13, 17, 19]` for
Prime. It also
shows that `(0, Prime)` and `(2, Perfect)` give `[]`.

## Left out

- The Compose user interface (`MainActivity`, `NumberListScreen`, `DefaultPreview`, the theme): these are presentation and UI state, not classification.
- The `displayName` labels of `NumberType`: they are presentation strings. The enum is modelled by its six constructors only.
- Parsing the text field (`toIntOrNull() ?: 0`) is a library call. The model takes the bound as an integer; invalid text would become bound 0, which `GenerateNumbers` maps to `[]` for every category.
- Floating-point `sqrt(n.toDouble()).toInt()` is modelled as the exact integer square root `Isqrt`. The IEEE double behaviour is not modelled.
- 32-bit `Int` arithmetic: the model uses unbounded integers. In the source, the Fibonacci term after 1836311903 exceeds `Int.MAX_VALUE`. For bounds above 1836311903 the loop would therefore append wrapped, negative terms, and the model does not capture that. The running `sum` in `isPerfect` could overflow in the same way for very large `n`.
- Predicates.IsPrime: the contract gives the returned value; it does not state that the loop returns at the first divisor found.
- Scenarios.SixAndTwentyEightArePerfect: it proves that 6 and 28 are perfect, but not that no other number below 30 is, so the concrete Perfect list for bound 30 is not derived. That would be a table evaluation of `DivisorSum` for every number below 30, which the verifier does not unfold that far on its own. The general equivalence with the textbook definition is proved instead.
- Kotlin's `List` returned by `generateNumbers` is modelled as an immutable `seq<int>`, and the `mutableListOf` of the Fibonacci branch as a local `seq` that is reassigned.
