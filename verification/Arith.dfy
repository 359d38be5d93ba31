/** Facts about products, quotients and remainders of naturals that the solver
    does not find on its own. */
module Arith {

  lemma ModBound(a: nat, m: nat)
    requires m > 0
    ensures 0 <= a % m < m
  {}

  lemma DivNonNegative(a: nat, m: nat)
    requires m > 0
    ensures a / m >= 0
  {}

  lemma MulNonNegative(a: nat, b: nat)
    ensures a * b >= 0
  {}

  lemma MulAssoc(a: int, b: int, c: int)
    ensures a * (b * c) == b * (a * c)
  {}

  lemma MulAtLeast(x: int, d: nat)
    requires x >= 1
    ensures x * d >= d
  {
    assert x * d == (x - 1) * d + d;
    assert (x - 1) * d >= 0;
  }

  lemma MulSub(a: int, b: int, d: int)
    ensures (a - b) * d == a * d - b * d
  {}

  lemma DivUnique(v: nat, d: nat, q: nat, r: nat)
    requires 0 < d && r < d && v == q * d + r
    ensures v / d == q && v % d == r
  {
    var q' := v / d;
    assert v == q' * d + v % d;
    MulSub(q', q, d);
    MulSub(q, q', d);
    if q' > q {
      MulAtLeast(q' - q, d);
    } else if q' < q {
      MulAtLeast(q - q', d);
    }
  }

  lemma MultipleMod(q: nat, a: nat)
    requires a >= 1
    ensures (q * a) % a == 0
  {
    DivUnique(q * a, a, q, 0);
  }

  lemma MulMono(x: nat, y: nat, d: nat)
    requires x <= y
    ensures x * d <= y * d
  {
    MulSub(y, x, d);
    assert (y - x) * d >= 0;
  }

  /** Multiples of a that are less than a apart are equal. */
  lemma CloseMultiples(x: nat, y: nat, a: nat)
    requires a >= 1 && x % a == 0 && y % a == 0 && y < x + a && x < y + a
    ensures x == y
  {
    var i, j := x / a, y / a;
    MulSub(i, j, a);
    MulSub(j, i, a);
    if i > j {
      MulAtLeast(i - j, a);
    } else if i < j {
      MulAtLeast(j - i, a);
    }
  }

  /** Strides: element i ends before a later element j starts. */
  lemma StridesOrdered(i: nat, j: nat, stride: nat)
    requires i < j
    ensures i * stride + stride <= j * stride
  {
    MulSub(i + 1, i, stride);
    MulMono(i + 1, j, stride);
  }

  lemma SquareMono(x: nat, y: nat)
    requires x <= y
    ensures x * x <= y * y
  {
    MulMono(x, y, x);
    MulMono(x, y, y);
    assert x * y == y * x;
  }

  lemma DivBounds(x: nat, d: nat)
    requires d >= 1
    ensures x / d * d <= x < x / d * d + d
  {}

  lemma CeilBounds(x: nat, d: nat)
    requires d >= 1
    ensures x <= (x + d - 1) / d * d < x + d
  {
    DivBounds(x + d - 1, d);
  }

  /** A quotient is at most any bound whose multiple is large enough. */
  lemma CeilAtMost(x: nat, d: nat, n: nat)
    requires d >= 1 && x <= n * d
    ensures (x + d - 1) / d <= n
  {
    CeilBounds(x, d);
    var q := (x + d - 1) / d;
    if q > n {
      StridesOrdered(n, q, d);
    }
  }

  /** Strides that end at or before first, or start at or after last, are exactly
      those outside [first / stride, ceiling(last / stride)). */
  lemma StrideWindow(first: nat, last: nat, stride: nat, j: nat)
    requires stride >= 1 && first < last
    ensures j < first / stride <==> j * stride + stride <= first
    ensures j >= (last + stride - 1) / stride <==> last <= j * stride
  {
    DivBounds(first, stride);
    CeilBounds(last, stride);
    var lo, hi := first / stride, (last + stride - 1) / stride;
    if j < lo { StridesOrdered(j, lo, stride); }
    if lo <= j { MulMono(lo, j, stride); }
    if j >= hi { MulMono(hi, j, stride); }
    if j < hi { StridesOrdered(j, hi, stride); }
  }

  lemma ModShift(m: nat, q: nat, d: nat)
    requires d >= 1
    ensures (q * d + m) % d == m % d
  {
    MulSub(q + m / d, m / d, d);
    assert q * d + m == (q + m / d) * d + m % d;
    DivUnique(q * d + m, d, q + m / d, m % d);
  }

  lemma ExactQuotient(x: nat, d: nat)
    requires d >= 1 && x % d == 0
    ensures x == x / d * d
  {}

  lemma PreviousMultiple(x: nat, d: nat)
    requires d >= 1 && x % d == 0 && x > 0
    ensures x >= d && (x - d) % d == 0
  {
    var q := x / d;
    ExactQuotient(x, d);
    assert q != 0;
    MulSub(q, 1, d);
    MultipleMod(q - 1, d);
  }
}
