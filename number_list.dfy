/** `generateNumbers` of MainActivity.kt: the integers in `[1, maxNumber)`
    that belong to a chosen category, in ascending order. Five categories
    filter the range; the Fibonacci category grows the sequence in a loop,
    cuts it at the bound and removes the repeated seed. */
module NumberList {
  import opened NumberTheory
  import opened Predicates
  import opened Collections

  /** The six categories the user picks from. */
  datatype NumberType = Odd | Even | Prime | Perfect | Square | Fibonacci

  /** What it means for `n` to belong to each category. */
  ghost predicate HasProperty(t: NumberType, n: int)
  {
    match t
    case Odd => n % 2 == 1
    case Even => n % 2 == 0
    case Prime => IsPrimeNumber(n)
    case Perfect => IsPerfectNumber(n)
    case Square => n >= 1 && exists k :: Squared(k) == n
    case Fibonacci => IsFibonacci(n)
  }

  /** The test each filtered category applies to a candidate, as the source
      writes it: `it % 2 != 0`, `it % 2 == 0`, `isPrime(it)`,
      `isPerfect(it)` and `isSquare(it)`. The primality and perfection tests
      appear as the functions the methods `IsPrime` and `IsPerfect` are
      proved to compute. */
  predicate Accepts(t: NumberType, n: int): (b: bool)
    requires t != Fibonacci
    ensures b <==> HasProperty(t, n)
  {
    match t
    case Odd => n % 2 != 0
    case Even => n % 2 == 0
    case Prime => IsPrimeNumber(n)
    case Perfect => IsPerfectNumber(n)
    case Square => IsSquare(n)
  }

  /** `(1 until bound).filter { Accepts(t, it) }`. */
  function Filtered(t: NumberType, bound: int): (r: seq<int>)
    requires t != Fibonacci
    ensures bound <= 1 ==> r == []
    ensures StrictlyIncreasing(r)
    ensures forall n :: n in r <==> 1 <= n < bound && Accepts(t, n)
    decreases bound
  {
    if bound <= 1 then []
    else
      var below := Filtered(t, bound - 1);
      assert forall i :: 0 <= i < |below| ==> below[i] in below;
      below + (if Accepts(t, bound - 1) then [bound - 1] else [])
  }

  /** Lines 100-103: start from `1, 1` and append the sum of the last two
      terms until the last term reaches `maxNumber`. */
  method FibonacciTerms(maxNumber: int) returns (fibs: seq<int>)
    ensures |fibs| >= 2 && fibs[0] == 1 && fibs[1] == 1
    ensures forall k :: 2 <= k < |fibs| ==> fibs[k] == fibs[k - 1] + fibs[k - 2]
    ensures forall k :: 0 <= k < |fibs| ==> fibs[k] == Fib(k)
    ensures fibs[|fibs| - 1] >= maxNumber
    ensures forall k :: 1 <= k < |fibs| - 1 ==> fibs[k] < maxNumber
    ensures maxNumber <= 1 ==> fibs == [1, 1]
  {
    fibs := [1, 1];
    while fibs[|fibs| - 1] < maxNumber
      invariant |fibs| >= 2
      invariant forall k :: 0 <= k < |fibs| ==> fibs[k] == Fib(k)
      invariant forall k :: 1 <= k < |fibs| - 1 ==> fibs[k] < maxNumber
      invariant maxNumber <= 1 ==> fibs == [1, 1]
      decreases maxNumber - fibs[|fibs| - 1]
    {
      fibs := fibs + [fibs[|fibs| - 1] + fibs[|fibs| - 2]];
    }
  }

  /** Cutting the grown sequence at the bound and removing duplicates leaves
      exactly the Fibonacci numbers below the bound, strictly ascending. */
  lemma FibonacciBelow(maxNumber: int, fibs: seq<int>)
    requires |fibs| >= 1 && fibs[|fibs| - 1] >= maxNumber
    requires forall k :: 0 <= k < |fibs| ==> fibs[k] == Fib(k)
    ensures StrictlyIncreasing(Distinct(TakeWhileBelow(fibs, maxNumber)))
    ensures forall n :: n in Distinct(TakeWhileBelow(fibs, maxNumber))
                    <==> 1 <= n < maxNumber && IsFibonacci(n)
    ensures maxNumber <= 1 ==> Distinct(TakeWhileBelow(fibs, maxNumber)) == []
  {
    assert NonDecreasing(fibs) by {
      forall i, j | 0 <= i < j < |fibs|
        ensures fibs[i] <= fibs[j]
      {
        FibMonotone(i, j);
      }
    }
    TakeWhileOfSorted(fibs, maxNumber);
    DistinctOfSorted(TakeWhileBelow(fibs, maxNumber));
    forall n | 1 <= n < maxNumber && IsFibonacci(n)
      ensures n in fibs
    {
      var k: nat :| Fib(k) == n;
      if k >= |fibs| {
        FibMonotone(|fibs| - 1, k);
      }
      assert fibs[k] == n;
    }
  }

  /** Lines 99-105: the Fibonacci branch, the grown sequence cut at the bound
      with the repeated seed removed. */
  method FibonacciNumbers(maxNumber: int) returns (r: seq<int>)
    ensures maxNumber <= 1 ==> r == []
    ensures StrictlyIncreasing(r)
    ensures forall n :: n in r <==> 1 <= n < maxNumber && IsFibonacci(n)
  {
    var fibs := FibonacciTerms(maxNumber);
    r := Distinct(TakeWhileBelow(fibs, maxNumber));
    FibonacciBelow(maxNumber, fibs);
  }

  /** The filter branches select exactly the numbers of the category. */
  lemma FilteredHasProperty(t: NumberType, bound: int)
    requires t != Fibonacci
    ensures forall n :: n in Filtered(t, bound) <==> 1 <= n < bound && HasProperty(t, n)
  {
  }

  /** `generateNumbers(maxNumber, type)`. */
  method GenerateNumbers(maxNumber: int, t: NumberType) returns (r: seq<int>)
    ensures maxNumber <= 1 ==> r == []
    ensures StrictlyIncreasing(r)
    ensures forall n :: n in r <==> 1 <= n < maxNumber && HasProperty(t, n)
  {
    if t == Fibonacci {
      r := FibonacciNumbers(maxNumber);
    } else {
      r := Filtered(t, maxNumber);
      FilteredHasProperty(t, maxNumber);
    }
  }

  /** The Odd and Even results partition `[1, maxNumber)`: no number is in
      both, every number of the range is in one, and their lengths add up to
      the size of the range. */
  lemma {:induction false} OddEvenPartition(maxNumber: int)
    ensures forall n :: !(n in Filtered(Odd, maxNumber) && n in Filtered(Even, maxNumber))
    ensures forall n :: n in Filtered(Odd, maxNumber) || n in Filtered(Even, maxNumber)
                    <==> 1 <= n < maxNumber
    ensures |Filtered(Odd, maxNumber)| + |Filtered(Even, maxNumber)|
         == if maxNumber <= 1 then 0 else maxNumber - 1
    decreases maxNumber
  {
    if maxNumber > 1 {
      OddEvenPartition(maxNumber - 1);
    }
  }
}

/** Worked scenarios of the classifier, derived from the contracts alone. */
module Scenarios {
  import opened NumberTheory
  import opened Predicates
  import opened Collections
  import opened NumberList

  /** Below ten the Fibonacci numbers are 1, 2, 3, 5 and 8. */
  lemma FibonacciBelowTen()
    ensures forall n :: 1 <= n < 10 ==> (IsFibonacci(n) <==> n in [1, 2, 3, 5, 8])
  {
    assert Fib(2) == 2 && Fib(3) == 3 && Fib(4) == 5 && Fib(5) == 8 && Fib(6) == 13;
    forall n | 1 <= n < 10 && IsFibonacci(n)
      ensures n in [1, 2, 3, 5, 8]
    {
      var k: nat :| Fib(k) == n;
      if k >= 6 {
        FibMonotone(6, k);
      }
    }
  }

  /** Six and twenty-eight equal the sums of their proper divisors. */
  lemma SixAndTwentyEightArePerfect()
    ensures IsPerfectNumber(6) && IsPerfectNumber(28)
  {
    assert DivisorSum(28, 8) == 14;
    assert DivisorSum(28, 15) == 28;
    assert DivisorSum(28, 22) == 28;
  }

  /** Below twenty the squares are 1, 4, 9 and 16. */
  lemma SquaresBelowTwenty()
    ensures forall n :: 1 <= n < 20 ==> (HasProperty(Square, n) <==> n in [1, 4, 9, 16])
  {
    assert Squared(1) == 1 && Squared(2) == 4 && Squared(3) == 9 && Squared(4) == 16;
    forall n | 1 <= n < 20 && HasProperty(Square, n)
      ensures n in [1, 4, 9, 16]
    {
      var k :| Squared(k) == n;
      var a: nat := if k < 0 then -k else k;
      assert Squared(a) == n;
      if a >= 5 {
        SquareMonotone(5, a);
      }
      assert a == 1 || a == 2 || a == 3 || a == 4;
    }
  }

  /** A number whose trial division up to its square root `r` finds no
      divisor is prime. */
  lemma PrimeByTrial(n: nat, r: nat)
    requires n > 1 && r * r <= n < (r + 1) * (r + 1)
    requires forall i :: 2 <= i <= r ==> !Divides(i, n)
    ensures IsPrimeNumber(n)
  {
    IsqrtUnique(n, r);
    TrialDivisionSuffices(n);
  }

  /** Below twenty the primes are 2, 3, 5, 7, 11, 13, 17 and 19. */
  lemma PrimesBelowTwenty()
    ensures forall n :: 1 <= n < 20 ==> (IsPrimeNumber(n) <==> n in [2, 3, 5, 7, 11, 13, 17, 19])
  {
    PrimeByTrial(2, 1);
    PrimeByTrial(3, 1);
    PrimeByTrial(5, 2);
    PrimeByTrial(7, 2);
    PrimeByTrial(11, 3);
    PrimeByTrial(13, 3);
    PrimeByTrial(17, 4);
    PrimeByTrial(19, 4);
    assert Divides(2, 4) && Divides(2, 6) && Divides(2, 8) && Divides(3, 9) && Divides(2, 10);
    assert Divides(2, 12) && Divides(2, 14) && Divides(3, 15) && Divides(2, 16) && Divides(2, 18);
  }

  /** What a caller of `generateNumbers` can conclude from its contract. */
  method Examples()
  {
    var odd := GenerateNumbers(10, Odd);
    IncreasingUnique(odd, [1, 3, 5, 7, 9]);
    assert odd == [1, 3, 5, 7, 9];

    var even := GenerateNumbers(10, Even);
    IncreasingUnique(even, [2, 4, 6, 8]);
    assert even == [2, 4, 6, 8];

    var fib := GenerateNumbers(10, Fibonacci);
    FibonacciBelowTen();
    IncreasingUnique(fib, [1, 2, 3, 5, 8]);
    assert fib == [1, 2, 3, 5, 8];

    var squares := GenerateNumbers(20, Square);
    SquaresBelowTwenty();
    IncreasingUnique(squares, [1, 4, 9, 16]);
    assert squares == [1, 4, 9, 16];

    var primes := GenerateNumbers(20, Prime);
    PrimesBelowTwenty();
    IncreasingUnique(primes, [2, 3, 5, 7, 11, 13, 17, 19]);
    assert primes == [2, 3, 5, 7, 11, 13, 17, 19];

    var none := GenerateNumbers(0, Prime);
    assert none == [];
    none := GenerateNumbers(2, Perfect);
    assert !IsPerfectNumber(1);
    IncreasingUnique(none, []);
    assert none == [];
  }
}
