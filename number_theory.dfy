/** Integer facts the classifier rests on: the exact integer square root that
    stands in for `sqrt(n.toDouble()).toInt()`, divisibility and divisor sums,
    and the Fibonacci numbers, each with its textbook definition. */
module NumberTheory {

  function Squared(k: int): int { k * k }

  /** `d` divides `n` evenly (the source's `n % d == 0` for a positive `d`). */
  predicate Divides(d: int, n: int) { d != 0 && n % d == 0 }

  lemma SquareMonotone(a: nat, b: nat)
    requires a <= b
    ensures a * a <= b * b
  {
    assert a * a <= a * b;
  }

  /** The floor of the square root of `n`: the largest `r` with `r * r <= n`. */
  function Isqrt(n: nat): (r: nat)
    ensures r * r <= n < (r + 1) * (r + 1)
  {
    if n == 0 then 0
    else
      var s := Isqrt(n - 1);
      if (s + 1) * (s + 1) <= n then
        assert (s + 2) * (s + 2) == (s + 1) * (s + 1) + 2 * s + 3;
        s + 1
      else s
  }

  /** The two bounds pin the square root down: no other `k` satisfies them. */
  lemma IsqrtUnique(n: nat, k: nat)
    requires k * k <= n < (k + 1) * (k + 1)
    ensures k == Isqrt(n)
  {
    var r := Isqrt(n);
    if k < r {
      SquareMonotone(k + 1, r);
    } else if r < k {
      SquareMonotone(r + 1, k);
    }
  }

  /** A square `k * k` has `|k|` as its integer square root. */
  lemma IsqrtOfSquare(k: int)
    ensures Isqrt(Squared(k)) == if k < 0 then -k else k
  {
    var a: nat := if k < 0 then -k else k;
    assert a * a == k * k;
    assert (a + 1) * (a + 1) == a * a + 2 * a + 1;
    IsqrtUnique(k * k, a);
  }

  lemma MulMonotone(d: int, a: int, b: int)
    requires d >= 0 && a <= b
    ensures d * a <= d * b
  {
  }

  /** Euclidean division by a positive divisor. */
  lemma DivMod(n: int, d: int)
    requires d >= 1
    ensures n == d * (n / d) + n % d && 0 <= n % d < d
  {
  }

  /** For `n >= 2` the square root lies strictly below `n`. */
  lemma IsqrtBelow(n: int)
    requires n >= 2
    ensures Isqrt(n) < n
  {
  }

  /** Dividing by two or more makes a positive number smaller. */
  lemma QuotientBelow(n: int, i: int)
    requires n >= 1 && i >= 2
    ensures n / i < n
  {
    DivMod(n, i);
    var q := n / i;
    if q >= 1 {
      MulMonotone(q, 2, i);
    }
  }

  /** A candidate no larger than the root is no larger than its quotient. */
  lemma QuotientAtLeast(n: nat, i: int)
    requires 1 <= i <= Isqrt(n)
    ensures i <= n / i
  {
    SquareMonotone(i, Isqrt(n));
    DivMod(n, i);
    var q := n / i;
    if q < i {
      MulMonotone(i, q, i - 1);
    }
  }

  /** A positive divisor `d` of a positive `n` has the partner `n / d`, itself
      a divisor, whose own partner is `d` again. */
  lemma DividesPartner(n: int, d: int)
    requires n >= 1 && d >= 1 && Divides(d, n)
    ensures n / d >= 1 && Divides(n / d, n) && n / (n / d) == d
  {
    var q := n / d;
    DivMod(n, d);
    assert n == d * q;
    if q < 1 {
      MulMonotone(d, q, 0);
    }
    DivMod(n, q);
    var q2, m2 := n / q, n % q;
    assert q * d == q * q2 + m2;
    assert q * (d - q2) == m2;
    if d - q2 >= 1 {
      MulMonotone(q, 1, d - q2);
    } else if d - q2 <= -1 {
      MulMonotone(q, d - q2, -1);
    }
  }

  /** The source's guard `i * i != n` says the partner differs from `i`. */
  lemma RootGuard(n: int, i: int)
    requires i >= 1 && Divides(i, n)
    ensures (i * i == n) <==> (n / i == i)
  {
    DivMod(n, i);
    var q := n / i;
    assert n == i * q;
    if i * i == n {
      assert i * (q - i) == 0;
      if q - i >= 1 {
        MulMonotone(i, 1, q - i);
      } else if q - i <= -1 {
        MulMonotone(i, q - i, -1);
      }
    }
  }

  /** A divisor above the root has its partner at or below the root. */
  lemma SmallPartner(n: nat, d: int)
    requires d >= 1 && Divides(d, n) && d > Isqrt(n)
    ensures n / d <= Isqrt(n)
  {
    var r, q := Isqrt(n), n / d;
    DivMod(n, d);
    assert n == d * q;
    if q > r {
      MulMonotone(d, r + 1, q);
      MulMonotone(r + 1, r + 1, d);
    }
  }

  /** Textbook primality: greater than one and no divisor strictly between
      one and itself. */
  predicate IsPrimeNumber(n: int)
  {
    n > 1 && forall d :: 2 <= d < n ==> !Divides(d, n)
  }

  /** The sum of the divisors of `n` that lie in `[1, k)`. */
  function DivisorSum(n: int, k: int): int
    decreases k
  {
    if k <= 1 then 0
    else DivisorSum(n, k - 1) + (if Divides(k - 1, n) then k - 1 else 0)
  }

  /** Textbook perfection: a positive integer equal to the sum of its proper
      divisors (the divisors below itself). */
  predicate IsPerfectNumber(n: int)
  {
    n >= 1 && DivisorSum(n, n) == n
  }

  /** The Fibonacci sequence as the source seeds it: 1, 1, 2, 3, 5, 8, ... */
  function Fib(k: nat): (r: int)
    ensures r >= 1
  {
    if k < 2 then 1 else Fib(k - 1) + Fib(k - 2)
  }

  ghost predicate IsFibonacci(n: int)
  {
    exists k: nat :: Fib(k) == n
  }

  /** From the second term on the sequence grows strictly. */
  lemma {:induction false} FibGrows(i: nat, j: nat)
    requires 1 <= i < j
    ensures Fib(i) < Fib(j)
    decreases j
  {
    if i < j - 1 {
      FibGrows(i, j - 1);
    }
  }

  /** Over the whole sequence (including the repeated seed) terms never decrease. */
  lemma FibMonotone(i: nat, j: nat)
    requires i <= j
    ensures Fib(i) <= Fib(j)
  {
    if i == 0 && j >= 1 {
      if j > 1 { FibGrows(1, j); }
    } else if i < j {
      FibGrows(i, j);
    }
  }
}
