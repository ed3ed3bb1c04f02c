/** The three classifying predicates of MainActivity.kt: `isPrime` and
    `isPerfect` as the counting loops they are, `isSquare` as the expression
    it is, each proved equal to its textbook definition. */
module Predicates {
  import opened NumberTheory

  /** A divisor strictly between one and `n` has a partner no larger than the
      square root: trial division up to `Isqrt(n)` finds a divisor exactly
      when there is one. */
  lemma TrialDivisionSuffices(n: int)
    requires n > 1
    ensures IsPrimeNumber(n) <==> forall i :: 2 <= i <= Isqrt(n) ==> !Divides(i, n)
  {
    var r := Isqrt(n);
    IsqrtBelow(n);
    if !IsPrimeNumber(n) {
      var d :| 2 <= d < n && Divides(d, n);
      if d > r {
        SmallPartner(n, d);
        DividesPartner(n, d);
        var e := n / d;
        assert 2 <= e <= r && Divides(e, n);
      }
    }
  }

  /** `isPrime(n)`: false for `n <= 1`; otherwise trial division by every `i`
      in `[2, isqrt(n)]`, answering false at the first divisor found. */
  method IsPrime(n: int) returns (b: bool)
    ensures b <==> n > 1 && forall i :: 2 <= i <= Isqrt(n) ==> !Divides(i, n)
    ensures b <==> IsPrimeNumber(n)
  {
    if n <= 1 {
      return false;
    }
    TrialDivisionSuffices(n);
    var root := Isqrt(n);
    for i := 2 to root + 1
      invariant forall j :: 2 <= j < i ==> !Divides(j, n)
    {
      if n % i == 0 {
        assert Divides(i, n);
        return false;
      }
    }
    return true;
  }

  /** Once the pairing loop of `isPerfect` has tried every candidate below
      `i`, the divisor `d` of `n` is accounted for when `d` itself was tried
      or when its partner `n / d` was. */
  predicate Collected(n: int, i: int, d: int)
  {
    Divides(d, n) && (d < i || n / d < i)
  }

  /** The part of the sum of the divisors of `n` in `[1, k)` that the pairing
      loop has collected after trying every candidate below `i`. */
  function PairedDivisorSum(n: int, i: int, k: int): int
    decreases k
  {
    if k <= 1 then 0
    else PairedDivisorSum(n, i, k - 1) + (if Collected(n, i, k - 1) then k - 1 else 0)
  }

  /** Trying candidate `i` collects exactly `i` and its partner `n / i` when
      `i` divides `n`, and neither was collected before. */
  lemma CollectedStep(n: nat, i: int, d: int)
    requires 2 <= i <= Isqrt(n) && d >= 1
    ensures Collected(n, i + 1, d)
        <==> Collected(n, i, d) || (Divides(i, n) && (d == i || d == n / i))
    ensures Divides(i, n) && (d == i || d == n / i) ==> !Collected(n, i, d)
  {
    QuotientAtLeast(n, i);
    if Divides(d, n) {
      DividesPartner(n, d);
    }
    if Divides(i, n) {
      DividesPartner(n, i);
    }
  }

  /** Trying candidate `i` adds `i` when it divides `n` and, unless `i` is the
      exact root (the source's `i * i != n`), its partner `n / i`. */
  lemma {:induction false} PairedStep(n: nat, i: int, k: int)
    requires 2 <= i <= Isqrt(n)
    ensures PairedDivisorSum(n, i + 1, k)
         == PairedDivisorSum(n, i, k)
            + (if Divides(i, n) && i < k then i else 0)
            + (if Divides(i, n) && i * i != n && n / i < k then n / i else 0)
    decreases k
  {
    if Divides(i, n) {
      RootGuard(n, i);
      QuotientAtLeast(n, i);
    }
    if k > 1 {
      PairedStep(n, i, k - 1);
      CollectedStep(n, i, k - 1);
    }
  }

  /** One pass of the loop body of `isPerfect` over the proper divisors. */
  lemma PairedLoopStep(n: nat, i: int)
    requires 2 <= i <= Isqrt(n)
    ensures PairedDivisorSum(n, i + 1, n)
         == PairedDivisorSum(n, i, n)
            + (if n % i == 0 then i + (if i * i != n then n / i else 0) else 0)
  {
    IsqrtBelow(n);
    QuotientBelow(n, i);
    PairedStep(n, i, n);
  }

  /** Before the loop only the divisor `1` is collected. */
  lemma {:induction false} PairedStart(n: int, k: int)
    requires n >= 2 && 2 <= k <= n
    ensures PairedDivisorSum(n, 2, k) == 1
    decreases k
  {
    if k > 2 {
      PairedStart(n, k - 1);
      var d := k - 1;
      if d >= 2 && Divides(d, n) {
        DividesPartner(n, d);
      }
    }
  }

  /** Once every candidate up to the root was tried, every proper divisor has
      been collected. */
  lemma {:induction false} PairedComplete(n: int, k: int)
    requires n >= 2 && k <= n
    ensures PairedDivisorSum(n, Isqrt(n) + 1, k) == DivisorSum(n, k)
    decreases k
  {
    if k > 1 {
      PairedComplete(n, k - 1);
      var d := k - 1;
      if d > Isqrt(n) && Divides(d, n) {
        SmallPartner(n, d);
      }
    }
  }

  /** `isPerfect(n)`: false for `n <= 1`; otherwise `1` plus every divisor
      `i` in `[2, isqrt(n)]` and its partner `n / i` (the partner skipped
      when `i * i == n`), compared with `n`. */
  method IsPerfect(n: int) returns (b: bool)
    ensures b ==> n > 1
    ensures b <==> IsPerfectNumber(n)
  {
    if n <= 1 {
      return false;
    }
    var sum := 1;
    var root := Isqrt(n);
    IsqrtBelow(n);
    PairedStart(n, n);
    for i := 2 to root + 1
      invariant sum == PairedDivisorSum(n, i, n)
    {
      PairedLoopStep(n, i);
      if n % i == 0 {
        sum := sum + i;
        if i * i != n {
          sum := sum + n / i;
        }
      }
    }
    PairedComplete(n, n);
    assert sum == DivisorSum(n, n);
    return sum == n;
  }

  /** `isSquare(n)`: false below one; otherwise whether the truncated square
      root squares back to `n`. */
  function IsSquare(n: int): (b: bool)
    ensures b <==> n >= 1 && exists k :: Squared(k) == n
  {
    if n < 1 then false
    else
      var root := Isqrt(n);
      assert forall k :: Squared(k) == n ==> Squared(root) == n by {
        forall k | Squared(k) == n
          ensures Squared(root) == n
        {
          IsqrtOfSquare(k);
        }
      }
      root * root == n
  }
}
