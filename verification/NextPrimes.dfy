/** The next prime at or after a number: a table for small numbers, then a wheel of
    circumference 210 and trial division. */
module NextPrimes {
  import opened Arith
  import opened Options
  import opened Primes

  const L: nat := 210

  const SMALL_PRIMES: seq<nat> :=
    [0, 2, 3, 5, 7, 11, 13, 17] +
    [19, 23, 29, 31, 37, 41, 43, 47] +
    [53, 59, 61, 67, 71, 73, 79, 83] +
    [89, 97, 101, 103, 107, 109, 113, 127] +
    [131, 137, 139, 149, 151, 157, 163, 167] +
    [173, 179, 181, 191, 193, 197, 199, 211]

  /** The residues modulo 210 of the numbers not divisible by 2, 3, 5 or 7. */
  const INDICES: seq<nat> :=
    [1, 11, 13, 17, 19, 23, 29, 31] +
    [37, 41, 43, 47, 53, 59, 61, 67] +
    [71, 73, 79, 83, 89, 97, 101, 103] +
    [107, 109, 113, 121, 127, 131, 137, 139] +
    [143, 149, 151, 157, 163, 167, 169, 173] +
    [179, 181, 187, 191, 193, 197, 199, 209]

  /** The steps of the unrolled trial division loop, from residue 1 to 209. */
  const INCREMENTS: seq<nat> :=
    [10, 2, 4, 2, 4, 6, 2, 6] +
    [4, 2, 4, 6, 6, 2, 6, 4] +
    [2, 6, 4, 6, 8, 4, 2, 4] +
    [2, 4, 8, 6, 4, 6, 2, 4] +
    [6, 2, 6, 6, 4, 2, 4, 6] +
    [2, 6, 4, 2, 4, 2, 10]

  // ---------- the tables ----------

  predicate OnWheel(m: nat) {
    m % 2 != 0 && m % 3 != 0 && m % 5 != 0 && m % 7 != 0
  }

  /** Prime, for numbers below 17 * 17. */
  predicate NoSmallFactor(m: nat) {
    && m >= 2
    && (m == 2 || m % 2 != 0) && (m == 3 || m % 3 != 0) && (m == 5 || m % 5 != 0)
    && (m == 7 || m % 7 != 0) && (m == 11 || m % 11 != 0) && (m == 13 || m % 13 != 0)
  }

  /** Two neighbours on the wheel. */
  predicate WheelGap(a: nat, b: nat) {
    a < b <= a + 10 && OnWheel(a) && OnWheel(b) &&
    (a + 1 >= b || !OnWheel(a + 1)) &&
    (a + 2 >= b || !OnWheel(a + 2)) &&
    (a + 3 >= b || !OnWheel(a + 3)) &&
    (a + 4 >= b || !OnWheel(a + 4)) &&
    (a + 5 >= b || !OnWheel(a + 5)) &&
    (a + 6 >= b || !OnWheel(a + 6)) &&
    (a + 7 >= b || !OnWheel(a + 7)) &&
    (a + 8 >= b || !OnWheel(a + 8)) &&
    (a + 9 >= b || !OnWheel(a + 9))
  }

  /** b is the first prime after a. */
  predicate PrimeGap(a: nat, b: nat) {
    a < b <= a + 14 && NoSmallFactor(b) &&
    (a + 1 >= b || !NoSmallFactor(a + 1)) &&
    (a + 2 >= b || !NoSmallFactor(a + 2)) &&
    (a + 3 >= b || !NoSmallFactor(a + 3)) &&
    (a + 4 >= b || !NoSmallFactor(a + 4)) &&
    (a + 5 >= b || !NoSmallFactor(a + 5)) &&
    (a + 6 >= b || !NoSmallFactor(a + 6)) &&
    (a + 7 >= b || !NoSmallFactor(a + 7)) &&
    (a + 8 >= b || !NoSmallFactor(a + 8)) &&
    (a + 9 >= b || !NoSmallFactor(a + 9)) &&
    (a + 10 >= b || !NoSmallFactor(a + 10)) &&
    (a + 11 >= b || !NoSmallFactor(a + 11)) &&
    (a + 12 >= b || !NoSmallFactor(a + 12)) &&
    (a + 13 >= b || !NoSmallFactor(a + 13))
  }

  predicate WheelStep(j: nat) {
    j < 47 && |INDICES| == 48 && |INCREMENTS| == 47 &&
    WheelGap(INDICES[j], INDICES[j + 1]) && INDICES[j + 1] == INDICES[j] + INCREMENTS[j]
  }

  predicate PrimeStep(j: nat) {
    j < 47 && |SMALL_PRIMES| == 48 && PrimeGap(SMALL_PRIMES[j], SMALL_PRIMES[j + 1])
  }

  lemma TableEntries()
    ensures |INDICES| == 48 && |SMALL_PRIMES| == 48 && |INCREMENTS| == 47
    ensures INDICES[0] == 1 && INDICES[47] == 209
    ensures SMALL_PRIMES[0] == 0 && SMALL_PRIMES[5] == 11 && SMALL_PRIMES[47] == 211
  {}

  /** The n steps from i on are right. */
  predicate WheelFrom(i: nat, n: nat)
    decreases n
  {
    n == 0 || (WheelStep(i) && WheelFrom(i + 1, n - 1))
  }

  predicate PrimesFrom(i: nat, n: nat)
    decreases n
  {
    n == 0 || (PrimeStep(i) && PrimesFrom(i + 1, n - 1))
  }

  lemma WheelSteps0()
    ensures WheelFrom(0, 8)
  {
    TableEntries();
  }

  lemma WheelSteps8()
    ensures WheelFrom(8, 8)
  {
    TableEntries();
  }

  lemma WheelSteps16()
    ensures WheelFrom(16, 8)
  {
    TableEntries();
  }

  lemma WheelSteps24()
    ensures WheelFrom(24, 8)
  {
    TableEntries();
  }

  lemma WheelSteps32()
    ensures WheelFrom(32, 8)
  {
    TableEntries();
  }

  lemma WheelSteps40()
    ensures WheelFrom(40, 7)
  {
    TableEntries();
  }

  lemma PrimeSteps0()
    ensures PrimesFrom(0, 8)
  {
    TableEntries();
  }

  lemma PrimeSteps8()
    ensures PrimesFrom(8, 8)
  {
    TableEntries();
  }

  lemma PrimeSteps16()
    ensures PrimesFrom(16, 8)
  {
    TableEntries();
  }

  lemma PrimeSteps24()
    ensures PrimesFrom(24, 8)
  {
    TableEntries();
  }

  lemma PrimeSteps32()
    ensures PrimesFrom(32, 8)
  {
    TableEntries();
  }

  lemma PrimeSteps40()
    ensures PrimesFrom(40, 7)
  {
    TableEntries();
  }

  lemma {:induction false} WheelStepIn(i: nat, n: nat, j: nat)
    requires WheelFrom(i, n) && i <= j < i + n
    ensures WheelStep(j)
    decreases n
  {
    hide WheelStep;
    if i < j { WheelStepIn(i + 1, n - 1, j); }
  }

  lemma {:induction false} PrimeStepIn(i: nat, n: nat, j: nat)
    requires PrimesFrom(i, n) && i <= j < i + n
    ensures PrimeStep(j)
    decreases n
  {
    hide PrimeStep;
    if i < j { PrimeStepIn(i + 1, n - 1, j); }
  }

  lemma AllWheelSteps(j: nat)
    requires j < 47
    ensures WheelStep(j)
  {
    hide WheelStep;
    hide WheelFrom;
    WheelSteps0();
    WheelSteps8();
    WheelSteps16();
    WheelSteps24();
    WheelSteps32();
    WheelSteps40();
    WheelStepIn(j / 8 * 8, if j < 40 then 8 else 7, j);
  }

  lemma AllPrimeSteps(j: nat)
    requires j < 47
    ensures PrimeStep(j)
  {
    hide PrimeStep;
    hide PrimesFrom;
    PrimeSteps0();
    PrimeSteps8();
    PrimeSteps16();
    PrimeSteps24();
    PrimeSteps32();
    PrimeSteps40();
    PrimeStepIn(j / 8 * 8, if j < 40 then 8 else 7, j);
  }

  lemma WheelGapIs(a: nat, b: nat, m: nat)
    requires WheelGap(a, b) && a < m < b
    ensures !OnWheel(m)
  {}

  lemma PrimeGapIs(a: nat, b: nat, m: nat)
    requires PrimeGap(a, b) && a < m < b
    ensures !NoSmallFactor(m)
  {}

  /** Neighbouring indices are neighbours on the wheel. */
  lemma WheelStepMeans(j: nat)
    requires j < 47
    ensures |INDICES| == 48 && |INCREMENTS| == 47
    ensures INDICES[j + 1] == INDICES[j] + INCREMENTS[j] && 0 < INCREMENTS[j] <= 10
    ensures OnWheel(INDICES[j]) && OnWheel(INDICES[j + 1])
    ensures forall m :: INDICES[j] < m < INDICES[j + 1] ==> !OnWheel(m)
  {
    AllWheelSteps(j);
    forall m | INDICES[j] < m < INDICES[j + 1] ensures !OnWheel(m) {
      WheelGapIs(INDICES[j], INDICES[j + 1], m);
    }
  }

  lemma AboveIndex(i: nat, j: nat)
    requires i <= j < 48
    ensures |INDICES| == 48 && INDICES[i] <= INDICES[j]
  {
    TableEntries();
    if i < j {
      AboveIndex(i, j - 1);
      WheelStepMeans(j - 1);
    }
  }

  // ---------- divisors and the wheel ----------

  /** No divisor of n lies in [2, b). */
  ghost predicate ClearTo(n: nat, b: nat) {
    forall d: nat {:trigger Divides(d, n)} :: 2 <= d < b && d < n ==> !Divides(d, n)
  }

  lemma OffWheel(m: nat) returns (p: nat)
    requires !OnWheel(m)
    ensures (p == 2 || p == 3 || p == 5 || p == 7) && Divides(p, m)
  {
    p := if m % 2 == 0 then 2 else if m % 3 == 0 then 3 else if m % 5 == 0 then 5 else 7;
  }

  lemma OffWheelNotPrime(m: nat)
    requires !OnWheel(m) && m > 7
    ensures !IsPrime(m)
  {
    var p := OffWheel(m);
  }

  lemma OnWheelClear(n: nat)
    requires OnWheel(n)
    ensures ClearTo(n, 11)
  {
    forall d: nat | 2 <= d < 11 && Divides(d, n) ensures false {
      if d == 9 {
        assert Divides(3, 9);
        DividesTransitive(3, 9, n);
      } else if d % 2 == 0 {
        assert Divides(2, d);
        DividesTransitive(2, d, n);
      }
    }
  }

  /** Numbers below 17 * 17 without a small factor are the primes. */
  lemma SmallPrimality(m: nat)
    requires m < 289
    ensures NoSmallFactor(m) <==> IsPrime(m)
  {
    if IsPrime(m) {
      assert Divides(2, m) <==> m % 2 == 0;
      assert Divides(3, m) <==> m % 3 == 0;
      assert Divides(5, m) <==> m % 5 == 0;
      assert Divides(7, m) <==> m % 7 == 0;
      assert Divides(11, m) <==> m % 11 == 0;
      assert Divides(13, m) <==> m % 13 == 0;
    } else if m >= 2 {
      var d := SmallDivisor(m);
      if d >= 17 { MulMono(17, d, 17); MulMono(17, d, d); assert false; }
      var p := SmallFactor(d);
      DividesTransitive(p, d, m);
    }
  }

  lemma SmallFactor(d: nat) returns (p: nat)
    requires 2 <= d < 17
    ensures (p == 2 || p == 3 || p == 5 || p == 7 || p == 11 || p == 13) && p <= d && Divides(p, d)
  {
    p := if d % 2 == 0 then 2 else if d % 3 == 0 then 3 else d;
  }

  /** Neighbouring entries of the table are neighbouring primes. */
  lemma PrimeStepMeans(j: nat)
    requires j < 47
    ensures |SMALL_PRIMES| == 48
    ensures SMALL_PRIMES[j] < SMALL_PRIMES[j + 1] && (SMALL_PRIMES[j + 1] < 289 ==> IsPrime(SMALL_PRIMES[j + 1]))
    ensures forall m: nat {:trigger IsPrime(m)} ::
              SMALL_PRIMES[j] < m < SMALL_PRIMES[j + 1] && m < 289 ==> !IsPrime(m)
  {
    AllPrimeSteps(j);
    var a, b := SMALL_PRIMES[j], SMALL_PRIMES[j + 1];
    if b < 289 { SmallPrimality(b); }
    forall m: nat | a < m < b && m < 289 ensures !IsPrime(m) {
      PrimeGapIs(a, b, m);
      SmallPrimality(m);
    }
  }

  lemma AboveSmallPrime(i: nat, j: nat)
    requires i <= j < 48
    ensures |SMALL_PRIMES| == 48 && SMALL_PRIMES[i] <= SMALL_PRIMES[j]
  {
    TableEntries();
    if i < j {
      AboveSmallPrime(i, j - 1);
      PrimeStepMeans(j - 1);
    }
  }

  /** Between neighbouring primes nothing new can divide. */
  lemma ClearNextPrime(n: nat, a: nat, b: nat)
    requires 2 <= a < b && ClearTo(n, a) && !Divides(a, n)
    requires forall m: nat {:trigger IsPrime(m)} :: a < m < b ==> !IsPrime(m)
    ensures ClearTo(n, b)
  {
    forall d: nat | 2 <= d < b && d < n && Divides(d, n) ensures false {
      if d > a {
        var e := SmallDivisor(d);
        var p := PrimeDivisor(e);
        DividesTransitive(p, e, d);
        DividesTransitive(p, d, n);
      }
    }
  }

  lemma ClearNextOnWheel(n: nat, i: nat, next: nat)
    requires OnWheel(n) && i >= 211 && ClearTo(n, i) && !Divides(i, n)
    requires forall m :: i < m < next ==> !OnWheel(m)
    ensures ClearTo(n, next)
  {
    forall d: nat | 2 <= d < next && d < n && Divides(d, n) ensures false {
      if d > i {
        var p := OffWheel(d);
        DividesTransitive(p, d, n);
      }
    }
  }

  lemma WheelShift(k: nat, m: nat)
    ensures OnWheel(L * k + m) == OnWheel(m)
  {
    ModShift(m, 105 * k, 2);
    ModShift(m, 70 * k, 3);
    ModShift(m, 42 * k, 5);
    ModShift(m, 30 * k, 7);
  }

  /** The next residue on the wheel, shifted by whole turns. */
  lemma WheelStepShifted(k: nat, j: nat)
    requires j < 47
    ensures |INDICES| == 48 && INDICES[j] < INDICES[j + 1] && OnWheel(L * k + INDICES[j + 1])
    ensures forall m :: L * k + INDICES[j] < m < L * k + INDICES[j + 1] ==> !OnWheel(m)
  {
    hide OnWheel;
    WheelStepMeans(j);
    WheelShift(k, INDICES[j + 1]);
    forall m | L * k + INDICES[j] < m < L * k + INDICES[j + 1] ensures !OnWheel(m) {
      WheelShift(k, m - L * k);
    }
  }

  // ---------- the program ----------

  ghost predicate Sorted(s: seq<nat>) {
    forall i, j :: 0 <= i <= j < |s| ==> s[i] <= s[j]
  }

  /** Index of the first entry that is not less than x. */
  method LowerBound(s: seq<nat>, x: nat) returns (index: nat)
    requires Sorted(s)
    ensures index <= |s|
    ensures forall i :: 0 <= i < index ==> s[i] < x
    ensures forall i :: index <= i < |s| ==> x <= s[i]
  {
    index := 0;
    var len := |s|;
    while len != 0
      invariant 0 <= index && 0 <= len && index + len <= |s|
      invariant forall i :: 0 <= i < index ==> s[i] < x
      invariant forall i :: index + len <= i < |s| ==> x <= s[i]
      decreases len
    {
      var half := len / 2;
      if s[index + half] < x {
        index := index + half + 1;
        len := len - (half + 1);
      } else {
        len := half;
      }
    }
  }

  /** One trial division: whether i is too big to matter, or divides n. */
  method Try(n: nat, i: nat) returns (beyond: bool, even: bool)
    requires i >= 1
    ensures beyond <==> n < i * i
    ensures even <==> Divides(i, n)
  {
    var q := n / i;
    DivBounds(n, i);
    beyond := q < i;
    if beyond {
      StridesOrdered(q, i, i);
    } else {
      MulMono(i, q, i);
    }
    even := n == q * i;
    if Divides(i, n) {
      assert n == n / i * i + n % i;
    } else {
      assert n % i != 0;
      if even { MultipleMod(q, i); }
    }
  }

  lemma FoundDivisor(n: nat, i: nat)
    requires 2 <= i && i * i <= n && Divides(i, n)
    ensures !IsPrime(n)
  {
    MulMono(2, i, i);
  }

  /** Divides a candidate by the small primes from 11 on. */
  method TrySmallPrimes(n: nat) returns (decided: bool, prime: bool)
    requires n > 211 && OnWheel(n)
    ensures decided ==> (prime <==> IsPrime(n))
    ensures !decided ==> ClearTo(n, 211)
  {
    TableEntries();
    OnWheelClear(n);
    for j := 5 to |SMALL_PRIMES| - 1
      invariant ClearTo(n, SMALL_PRIMES[j])
    {
      var p := SMALL_PRIMES[j];
      AboveSmallPrime(5, j);
      AboveSmallPrime(j + 1, 47);
      var beyond, even := Try(n, p);
      if beyond {
        TrialDivision(n, p);
        return true, true;
      }
      if even {
        FoundDivisor(n, p);
        return true, false;
      }
      PrimeStepMeans(j);
      ClearNextPrime(n, p, SMALL_PRIMES[j + 1]);
    }
    decided, prime := false, false;
  }

  /** Divides a candidate by the numbers on the wheel from 211 on.  Also returns
      the largest number tried. */
  method TryWheel(n: nat) returns (prime: bool, ghost largest: nat)
    requires n > 211 && OnWheel(n) && ClearTo(n, 211)
    ensures prime <==> IsPrime(n)
    ensures largest <= n
  {
    TableEntries();
    var i := 211;
    ghost var k := 1;
    largest := 0;
    while true
      invariant i == L * k + 1 && k >= 1
      invariant ClearTo(n, i) && largest <= n
      invariant i == 211 || (i - 2) * (i - 2) <= n
      decreases n + 3 - i
    {
      NotBeyond(n, i);
      largest := i;
      var beyond, even := Try(n, i);
      if beyond {
        TrialDivision(n, i);
        return true, largest;
      }
      if even {
        FoundDivisor(n, i);
        return false, largest;
      }
      var step := 0;
      while step < |INCREMENTS|
        invariant 0 <= step <= 47 && i == L * k + INDICES[step]
        invariant ClearTo(n, i) && !Divides(i, n) && i * i <= n && largest <= n
      {
        WheelStepMeans(step);
        WheelStepShifted(k, step);
        ClearNextOnWheel(n, i, L * k + INDICES[step + 1]);
        RoomAbove(n, i);
        i := i + INCREMENTS[step];
        step := step + 1;
        largest := i;
        beyond, even := Try(n, i);
        if beyond {
          TrialDivision(n, i);
          return true, largest;
        }
        if even {
          FoundDivisor(n, i);
          return false, largest;
        }
      }
      // Loop i to the next turn of the wheel.
      ZeroOffWheel();
      WheelShift(k, 210);
      ClearNextOnWheel(n, i, i + 2);
      RoomAbove(n, i);
      i := i + 2;
      k := k + 1;
    }
  }

  lemma RoomAbove(n: nat, i: nat)
    requires i >= 211 && i * i <= n
    ensures i + 10 <= n
  {
    MulMono(211, i, i);
  }

  lemma NotBeyond(n: nat, i: nat)
    requires n > 211 && (i == 211 || (i >= 213 && (i - 2) * (i - 2) <= n))
    ensures i <= n
  {
    if i != 211 {
      MulMono(211, i - 2, i - 2);
    }
  }

  /** The next prime at or after n.  A limit, if given, is the number above which
      the computation is refused.  No number computed on the way exceeds the
      result, apart from the fixed table entries. */
  method NextPrime(n: nat, limit: Option<nat>) returns (r: Option<nat>, ghost largest: nat)
    ensures r.None? <==> n > 211 && limit.Some? && n > limit.value
    ensures r.Some? && n == 0 ==> r.value == 0
    ensures r.Some? && n > 0 ==> LeastPrimeFrom(n, r.value)
    ensures r.Some? && n > 211 ==> largest <= r.value
  {
    TableEntries();
    largest := 0;
    assert Sorted(SMALL_PRIMES) by {
      forall i: nat, j: nat | i <= j < 48 ensures SMALL_PRIMES[i] <= SMALL_PRIMES[j] { AboveSmallPrime(i, j); }
    }
    if n <= SMALL_PRIMES[|SMALL_PRIMES| - 1] {
      var index := LowerBound(SMALL_PRIMES, n);
      if n > 0 { FoundInTable(n, index); }
      return Some(SMALL_PRIMES[index]), 0;
    }
    if limit.Some? && n > limit.value {
      return None, 0;
    }
    var p, high := SearchWheel(n);
    r, largest := Some(p), high;
  }

  lemma FoundInTable(n: nat, index: nat)
    requires |SMALL_PRIMES| == 48 && 0 < n && index < 48 && n <= SMALL_PRIMES[index]
    requires forall i :: 0 <= i < index ==> SMALL_PRIMES[i] < n
    ensures LeastPrimeFrom(n, SMALL_PRIMES[index])
  {
    TableEntries();
    assert index > 0;
    PrimeStepMeans(index - 1);
    AboveSmallPrime(index, 47);
  }

  /** Searches the numbers on the wheel from n on. */
  method SearchWheel(start: nat) returns (n: nat, ghost largest: nat)
    requires start > 211
    ensures LeastPrimeFrom(start, n) && largest <= n
  {
    TableEntries();
    assert Sorted(INDICES) by {
      forall i: nat, j: nat | i <= j < 48 ensures INDICES[i] <= INDICES[j] { AboveIndex(i, j); }
    }
    var k0 := start / L;
    var index := LowerBound(INDICES, start - k0 * L);
    n := L * k0 + INDICES[index];
    FirstOnWheel(start, k0, index);
    largest := n;
    ghost var bound := PrimeAbove(start);
    while true
      invariant index < 48 && n == L * k0 + INDICES[index] && OnWheel(n) && n > 211
      invariant start <= n <= bound && largest <= n
      invariant forall m: nat {:trigger IsPrime(m)} :: start <= m < n ==> !IsPrime(m)
      decreases bound - n
    {
      var decided, prime := TrySmallPrimes(n);
      if !decided {
        ghost var tried;
        prime, tried := TryWheel(n);
      }
      if prime {
        return n, largest;
      }
      // n is not prime: go to the next number on the wheel.
      NextOnWheel(k0, index);
      ghost var was := n;
      index := index + 1;
      if index == |INDICES| {
        k0 := k0 + 1;
        index := 0;
      }
      n := L * k0 + INDICES[index];
      forall m: nat | was < m < n ensures !IsPrime(m) { OffWheelNotPrime(m); }
      largest := n;
    }
  }

  lemma FirstOnWheel(start: nat, k0: nat, index: nat)
    requires start > 211 && k0 == start / L && |INDICES| == 48 && index <= 48
    requires forall i :: 0 <= i < index ==> INDICES[i] < start - k0 * L
    requires forall i :: index <= i < 48 ==> start - k0 * L <= INDICES[i]
    ensures index < 48
    ensures var n := L * k0 + INDICES[index];
            n >= start && OnWheel(n) && forall m: nat {:trigger IsPrime(m)} :: start <= m < n ==> !IsPrime(m)
  {
    hide OnWheel;
    assert index < 48 by { WheelRemainder(start); TableEntries(); }
    NumberOnWheel(k0, index);
    forall m: nat | start <= m < L * k0 + INDICES[index] ensures !IsPrime(m) {
      SkippedNotPrime(start, k0, index, m);
    }
  }

  lemma WheelRemainder(start: nat)
    ensures 0 <= start - start / L * L < L
  {}

  lemma NumberOnWheel(k: nat, index: nat)
    requires index < 48
    ensures |INDICES| == 48 && OnWheel(L * k + INDICES[index])
  {
    hide OnWheel;
    if index == 0 {
      WheelStepMeans(0);
      WheelShift(k, INDICES[0]);
    } else {
      WheelStepShifted(k, index - 1);
    }
  }

  lemma SkippedNotPrime(start: nat, k0: nat, index: nat, m: nat)
    requires start > 211 && k0 == start / L && |INDICES| == 48 && index < 48
    requires index > 0 ==> INDICES[index - 1] < start - k0 * L
    requires start <= m < L * k0 + INDICES[index]
    ensures !IsPrime(m)
  {
    hide OnWheel;
    if index == 0 {
      TableEntries();
      assert m == L * k0 + 0;
      WheelShift(k0, 0);
      ZeroOffWheel();
    } else {
      WheelStepShifted(k0, index - 1);
    }
    OffWheelNotPrime(m);
  }

  lemma ZeroOffWheel()
    ensures !OnWheel(0) && !OnWheel(210) && OnWheel(1)
  {}

  /** Stepping the index visits exactly the next number on the wheel. */
  lemma NextOnWheel(k: nat, index: nat)
    requires index < 48
    ensures |INDICES| == 48
    ensures var n := L * k + INDICES[index];
            var next := if index + 1 == 48 then L * (k + 1) + INDICES[0] else L * k + INDICES[index + 1];
            n < next && OnWheel(next) && forall m :: n < m < next ==> !OnWheel(m)
  {
    hide OnWheel;
    TableEntries();
    if index + 1 == 48 {
      ZeroOffWheel();
      WheelShift(k, 210);
      WheelShift(k + 1, 1);
    } else {
      WheelStepShifted(k, index);
    }
  }

  /** With a prime limit the result stays within it, so that nothing wraps around
      in a machine word that can hold the limit. */
  lemma WithinLimit(n: nat, p: nat, limit: nat)
    requires IsPrime(limit) && n <= limit && LeastPrimeFrom(n, p)
    ensures p <= limit
  {
    assert limit < p ==> !IsPrime(limit);
  }
}
