// The primality oracle of the backend: the 6k±1 trial-division test
// `isPrime` (Backend/src/index.ts), proved equal to the textbook definition
// of a prime number.
//
// Every value that reaches `isPrime` in the service is an integer whose
// magnitude is at most 2^53 - 1 on the positive side, so the JavaScript
// remainder and the comparison `i * i <= num` are exact there; the model
// uses unbounded `int`. The remainder is only taken once `num > 3`, where
// JavaScript's truncating `%` and Dafny's Euclidean `%` agree.
module Primality {

  /** `d` divides `n` exactly. */
  predicate Divides(d: int, n: int) {
    d != 0 && n % d == 0
  }

  /** The mathematical notion: at least 2, and no divisor in [2, n - 1]. */
  predicate Prime(n: int) {
    n >= 2 && forall d :: 2 <= d < n ==> !Divides(d, n)
  }

  /** `k * m` is a multiple of `k`. */
  lemma MultipleIsDivisible(k: int, m: int)
    requires k > 0
    ensures Divides(k, k * m)
  {
    var q, r := (k * m) / k, (k * m) % k;
    assert k * m == k * q + r;
    assert r == k * (m - q);
    assert m - q >= 1 ==> k * (m - q) >= k;
    assert m - q <= -1 ==> k * (m - q) <= -k;
  }

  /** Divisibility is transitive: a divisor of a divisor of `n` divides `n`. */
  lemma DivisorOfDivisor(k: int, d: int, n: int)
    requires k > 0 && d > 0
    requires Divides(k, d) && Divides(d, n)
    ensures Divides(k, n)
  {
    var p, q := d / k, n / d;
    assert d == k * p;
    assert n == d * q;
    assert n == k * (p * q);
    MultipleIsDivisible(k, p * q);
  }

  /** Multiplying by a non-negative number keeps the order. */
  lemma MulMonotone(a: int, b: int, c: int)
    requires a <= b && c >= 0
    ensures a * c <= b * c
  {
    assert b * c - a * c == (b - a) * c;
  }

  /** A divisor `d` of `n` in [2, n - 1] has a cofactor `n / d` in [2, n - 1]
      that also divides `n`, and `d * (n / d) == n`. */
  lemma Cofactor(d: int, n: int) returns (q: int)
    requires 2 <= d < n && Divides(d, n)
    ensures 2 <= q < n && Divides(q, n) && d * q == n
  {
    q := n / d;
    assert n == d * q;
    if q <= 0 {
      MulMonotone(q, 0, d);
    }
    MulMonotone(2, d, q);
    MultipleIsDivisible(q, d);
    assert q * d == n;
  }

  /** A number with a divisor in [2, n - 1] has one whose square is at most
      `n`: the smaller of the divisor and its cofactor. */
  lemma SmallDivisor(d: int, n: int) returns (e: int)
    requires 2 <= d < n && Divides(d, n)
    ensures 2 <= e && e * e <= n && Divides(e, n)
  {
    var q := Cofactor(d, n);
    if d * d <= n {
      e := d;
    } else {
      if q >= d {
        MulMonotone(d, q, d);
      }
      MulMonotone(q, d, q);
      e := q;
    }
  }

  /** A number with a divisor in [2, n - 1] has one below any `i` with
      i * i > n. */
  lemma DivisorBelow(d: int, n: int, i: int) returns (e: int)
    requires 2 <= d < n && Divides(d, n)
    requires i >= 2 && i * i > n
    ensures 2 <= e < i && Divides(e, n)
  {
    e := SmallDivisor(d, n);
    if e >= i {
      MulMonotone(i, e, i);
      MulMonotone(i, e, e);
    }
  }

  /** Once `i * i` exceeds `n`, ruling out the divisors below `i` is enough:
      a divisor at or above `i` would have a cofactor below `i`. This is why
      the loop may stop at the square root. */
  lemma NoSmallDivisorMeansPrime(n: int, i: int)
    requires n >= 2 && i >= 2 && i * i > n
    requires forall d :: 2 <= d < i ==> !Divides(d, n)
    ensures Prime(n)
  {
    forall d | 2 <= d < n
      ensures !Divides(d, n)
    {
      if Divides(d, n) {
        var e := DivisorBelow(d, n, i);
      }
    }
  }

  /** Trial division up to the square root decides primality: for n >= 2,
      `n` is prime exactly when no d with 2 <= d and d * d <= n divides it. */
  lemma PrimeIffNoDivisorUpToRoot(n: int)
    requires n >= 2
    ensures Prime(n) <==> forall d :: 2 <= d && d * d <= n ==> !Divides(d, n)
  {
    if forall d :: 2 <= d && d * d <= n ==> !Divides(d, n) {
      forall d | 2 <= d < n
        ensures !Divides(d, n)
      {
        if Divides(d, n) {
          var e := SmallDivisor(d, n);
        }
      }
    } else {
      var d :| 2 <= d && d * d <= n && Divides(d, n);
      assert d * d >= 2 * d;
    }
  }

  /** The early answers of `isPrime`: nothing at or below 1 is prime, 2 and 3
      are, and above 3 a multiple of 2 or 3 is not. */
  lemma {:induction false} EdgeCases(n: int)
    ensures n <= 1 ==> !Prime(n)
    ensures n == 2 || n == 3 ==> Prime(n)
    ensures n > 3 && (n % 2 == 0 || n % 3 == 0) ==> !Prime(n)
  {
    if n > 3 && n % 2 == 0 {
      assert Divides(2, n);
    } else if n > 3 && n % 3 == 0 {
      assert Divides(3, n);
    }
  }

  /** One pass of the loop body: if `n` is odd, not a multiple of 3, has no
      divisor below `i` (with i ≡ 5 mod 6), and neither `i` nor `i + 2`
      divides it, then it has no divisor below `i + 6`. The other four
      candidates i + 1, i + 3, i + 5 (even) and i + 4 (a multiple of 3) are
      skipped safely. */
  lemma StepKeepsNoDivisor(n: int, i: int)
    requires n > 3 && n % 2 != 0 && n % 3 != 0
    requires i >= 5 && i % 6 == 5
    requires forall d :: 2 <= d < i ==> !Divides(d, n)
    requires n % i != 0 && n % (i + 2) != 0
    ensures forall d :: 2 <= d < i + 6 ==> !Divides(d, n)
  {
    var k := i / 6;
    assert i == 6 * k + 5;
    forall d | i <= d < i + 6
      ensures !Divides(d, n)
    {
      if d == i + 1 {
        NotDividedByMultiple(n, 2, 3 * k + 3);
      } else if d == i + 3 {
        NotDividedByMultiple(n, 2, 3 * k + 4);
      } else if d == i + 4 {
        NotDividedByMultiple(n, 3, 2 * k + 3);
      } else if d == i + 5 {
        NotDividedByMultiple(n, 2, 3 * k + 5);
      }
    }
  }

  /** A number not divisible by `p` is not divisible by any multiple of `p`. */
  lemma NotDividedByMultiple(n: int, p: int, m: int)
    requires p > 0 && m > 0 && n % p != 0
    ensures !Divides(p * m, n)
  {
    if Divides(p * m, n) {
      MulMonotone(1, p, m);
      MultipleIsDivisible(p, m);
      DivisorOfDivisor(p, p * m, n);
    }
  }

  /** A divisor `i` or `i + 2` found by the loop is a proper one, so `n` is
      not prime. */
  lemma FoundDivisor(n: int, i: int)
    requires i >= 5 && i * i <= n
    requires n % i == 0 || n % (i + 2) == 0
    ensures !Prime(n)
  {
    MulMonotone(5, i, i);
    assert Divides(i, n) || Divides(i + 2, n);
  }

  /** The loop measure `n - i * i` shrinks when `i` grows by 6. */
  lemma StepShrinksMeasure(i: int)
    requires i >= 5
    ensures (i + 6) * (i + 6) > i * i
  {
    assert (i + 6) * (i + 6) == i * i + 12 * i + 36;
  }

  /** `isPrime` (Backend/src/index.ts): early answers for n <= 3 and for
      multiples of 2 and 3, then trial division by i and i + 2 for
      i = 5, 11, 17, ... while i * i <= num. */
  method IsPrime(num: int) returns (r: bool)
    ensures r == Prime(num)
  {
    if num <= 1 {
      EdgeCases(num);
      return false;
    }
    if num <= 3 {
      EdgeCases(num);
      return true;
    }
    if num % 2 == 0 || num % 3 == 0 {
      EdgeCases(num);
      return false;
    }
    var i := 5;
    while i * i <= num
      invariant i >= 5 && i % 6 == 5
      invariant forall d :: 2 <= d < i ==> !Divides(d, num)
      decreases num - i * i
    {
      if num % i == 0 || num % (i + 2) == 0 {
        FoundDivisor(num, i);
        return false;
      }
      StepKeepsNoDivisor(num, i);
      StepShrinksMeasure(i);
      i := i + 6;
    }
    NoSmallDivisorMeansPrime(num, i);
    return true;
  }
}
