/** Prime numbers: trial division and the existence of a next prime. */
module Primes {
  import opened Arith

  ghost predicate Divides(d: nat, n: nat)
    requires d >= 1
  {
    n % d == 0
  }

  ghost predicate IsPrime(n: nat) {
    n >= 2 && forall d: nat {:trigger Divides(d, n)} :: 2 <= d < n ==> !Divides(d, n)
  }

  /** The least prime that is at least n. */
  ghost predicate LeastPrimeFrom(n: nat, p: nat) {
    IsPrime(p) && n <= p && forall m: nat {:trigger IsPrime(m)} :: n <= m < p ==> !IsPrime(m)
  }

  lemma DividesTransitive(a: nat, b: nat, n: nat)
    requires a >= 1 && b >= 1 && Divides(a, b) && Divides(b, n)
    ensures Divides(a, n)
  {
    var i, j := b / a, n / b;
    assert n == j * b && b == i * a;
    assert n == (j * i) * a;
    MultipleMod(j * i, a);
  }

  lemma DividesProduct(a: nat, k: nat)
    requires a >= 1
    ensures Divides(a, k * a) && Divides(a, a * k)
  {
    MultipleMod(k, a);
  }

  /** A composite number has a divisor up to its square root. */
  lemma SmallDivisor(n: nat) returns (d: nat)
    requires n >= 2 && !IsPrime(n)
    ensures 2 <= d < n && d * d <= n && Divides(d, n)
  {
    var e: nat :| 2 <= e < n && Divides(e, n);
    var f := n / e;
    assert n == f * e;
    if e <= f {
      MulMono(e, f, e);
      d := e;
    } else {
      assert f >= 2 by {
        if f <= 1 { MulMono(f, 1, e); }
      }
      MulMono(f, e, f);
      assert f * e == e * f;
      DividesProduct(f, e);
      MulAtLeast(e, f);
      assert f < n by { StridesOrdered(1, e, f); }
      d := f;
    }
  }

  /** Trial division: without a divisor up to the square root a number is prime. */
  lemma TrialDivision(n: nat, i: nat)
    requires n >= 2 && n < i * i
    requires forall d: nat {:trigger Divides(d, n)} :: 2 <= d < i && d < n ==> !Divides(d, n)
    ensures IsPrime(n)
  {
    if !IsPrime(n) {
      var d := SmallDivisor(n);
      if i <= d { SquareMono(i, d); }
    }
  }

  // ---------- there is always a next prime ----------

  function Factorial(n: nat): (r: nat)
    ensures r >= 1
  {
    if n == 0 then 1 else MulAtLeast(n, Factorial(n - 1)); n * Factorial(n - 1)
  }

  lemma FactorialDivisible(n: nat, d: nat)
    requires 1 <= d <= n
    ensures Divides(d, Factorial(n))
  {
    if d == n {
      DividesProduct(n, Factorial(n - 1));
    } else {
      FactorialDivisible(n - 1, d);
      DividesProduct(Factorial(n - 1), n);
      DividesTransitive(d, Factorial(n - 1), Factorial(n));
    }
  }

  lemma {:induction false} PrimeDivisor(n: nat) returns (p: nat)
    requires n >= 2
    ensures IsPrime(p) && p <= n && Divides(p, n)
  {
    if IsPrime(n) {
      DividesProduct(n, 1);
      p := n;
    } else {
      var d := SmallDivisor(n);
      p := PrimeDivisor(d);
      DividesTransitive(p, d, n);
    }
  }

  /** Euclid: a prime factor of n! + 1 is larger than n. */
  lemma PrimeAbove(n: nat) returns (p: nat)
    ensures IsPrime(p) && p > n
  {
    p := PrimeDivisor(Factorial(n) + 1);
    if p <= n {
      FactorialDivisible(n, p);
      var q := Factorial(n) / p;
      assert Factorial(n) == q * p;
      DivUnique(Factorial(n) + 1, p, q, 1);
    }
  }
}
