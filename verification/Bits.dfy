/** Fixed-width integer arithmetic on naturals, as constant folding performs it,
    and what each operation does to the individual bits of its operand. */
module Bits {
  import opened Arith

  function Pow2(n: nat): (r: nat)
    ensures r >= 1
  {
    if n == 0 then 1 else 2 * Pow2(n - 1)
  }

  /** Bit k of v; bit 0 is the least significant one. */
  predicate Bit(v: nat, k: nat)
  {
    if k == 0 then v % 2 == 1 else Bit(v / 2, k - 1)
  }

  function Shl(v: nat, amount: nat, width: nat): (r: nat)
    ensures r < Pow2(width)
  {
    ModBound(v * Pow2(amount), Pow2(width));
    (v * Pow2(amount)) % Pow2(width)
  }

  function LShr(v: nat, amount: nat): (r: nat)
  {
    DivNonNegative(v, Pow2(amount));
    v / Pow2(amount)
  }

  function Trunc(v: nat, width: nat): (r: nat)
    ensures r < Pow2(width)
  {
    ModBound(v, Pow2(width));
    v % Pow2(width)
  }

  function Or(a: nat, b: nat): nat
  {
    if a == 0 && b == 0 then 0
    else 2 * Or(a / 2, b / 2) + (if a % 2 == 1 || b % 2 == 1 then 1 else 0)
  }

  /** Sign extension from one width to a wider one. */
  function SExt(v: nat, from: nat, to: nat): nat
    requires 0 < from <= to && v < Pow2(from)
  {
    Pow2Mono(from, to);
    if Bit(v, from - 1) then v + (Pow2(to) - Pow2(from)) else v
  }

  // ---------- arithmetic ----------

  lemma Pow2Mono(a: nat, b: nat)
    requires a <= b
    ensures Pow2(a) <= Pow2(b)
  {
    if a < b { Pow2Mono(a, b - 1); }
  }

  lemma {:induction false} Pow2Add(a: nat, b: nat)
    ensures Pow2(a + b) == Pow2(a) * Pow2(b)
  {
    if a > 0 { Pow2Add(a - 1, b); }
  }

  lemma DivTwice(v: nat, m: nat)
    requires m > 0
    ensures v / (2 * m) == (v / 2) / m
  {
    var q := (v / 2) / m;
    var r := (v / 2) % m;
    assert v / 2 == q * m + r;
    assert v == q * (2 * m) + (2 * r + v % 2);
    DivUnique(v, 2 * m, q, 2 * r + v % 2);
  }

  lemma ModTwice(v: nat, m: nat)
    requires m > 0
    ensures v % (2 * m) == 2 * ((v / 2) % m) + v % 2
  {
    DivTwice(v, m);
    var q := (v / 2) / m;
    assert v / 2 == q * m + (v / 2) % m;
    assert v == q * (2 * m) + v % (2 * m);
    assert q * (2 * m) == 2 * (q * m);
  }

  // ---------- bits of the operations ----------

  lemma {:induction false} BitShift(v: nat, d: nat, k: nat)
    ensures Bit(v * Pow2(d), k) == (k >= d && Bit(v, k - d))
  {
    if d > 0 {
      var half := v * Pow2(d - 1);
      assert v * Pow2(d) == 2 * half by { assert Pow2(d) == 2 * Pow2(d - 1); }
      if k > 0 {
        BitShift(v, d - 1, k - 1);
      }
    }
  }

  lemma {:induction false} BitLShr(v: nat, d: nat, k: nat)
    ensures Bit(LShr(v, d), k) == Bit(v, k + d)
  {
    if d > 0 {
      DivTwice(v, Pow2(d - 1));
      BitLShr(v / 2, d - 1, k);
      assert LShr(v, d) == LShr(v / 2, d - 1);
    }
  }

  lemma {:induction false} BitTrunc(v: nat, w: nat, k: nat)
    ensures Bit(Trunc(v, w), k) == (k < w && Bit(v, k))
  {
    if w == 0 {
      assert Trunc(v, w) == 0;
      BitZero(k);
    } else {
      ModTwice(v, Pow2(w - 1));
      assert Trunc(v, w) == 2 * Trunc(v / 2, w - 1) + v % 2;
      if k > 0 {
        BitTrunc(v / 2, w - 1, k - 1);
      }
    }
  }

  lemma {:induction false} BitShl(v: nat, d: nat, w: nat, k: nat)
    ensures Bit(Shl(v, d, w), k) == (k < w && k >= d && Bit(v, k - d))
  {
    BitTrunc(v * Pow2(d), w, k);
    BitShift(v, d, k);
  }

  lemma {:induction false} BitZero(k: nat)
    ensures !Bit(0, k)
  {
    if k > 0 { BitZero(k - 1); }
  }

  lemma {:induction false} BitHigh(v: nat, w: nat, k: nat)
    requires v < Pow2(w) && w <= k
    ensures !Bit(v, k)
  {
    if w == 0 {
      BitZero(k);
    } else {
      BitHigh(v / 2, w - 1, k - 1);
    }
  }

  lemma {:induction false} BitOr(a: nat, b: nat, k: nat)
    ensures Bit(Or(a, b), k) == (Bit(a, k) || Bit(b, k))
  {
    if a == 0 && b == 0 {
      BitZero(k);
    } else if k > 0 {
      BitOr(a / 2, b / 2, k - 1);
    }
  }

  lemma {:induction false} OrBound(a: nat, b: nat, w: nat)
    requires a < Pow2(w) && b < Pow2(w)
    ensures Or(a, b) < Pow2(w)
  {
    if !(a == 0 && b == 0) {
      OrBound(a / 2, b / 2, w - 1);
    }
  }

  /** Numbers of the same width are equal exactly when all their bits are. */
  lemma {:induction false} BitsDetermine(a: nat, b: nat, w: nat)
    requires a < Pow2(w) && b < Pow2(w)
    requires forall k: nat :: k < w ==> Bit(a, k) == Bit(b, k)
    ensures a == b
  {
    if w > 0 {
      assert Bit(a, 0) == Bit(b, 0);
      forall k: nat | k < w - 1 ensures Bit(a / 2, k) == Bit(b / 2, k) {
        assert Bit(a, k + 1) == Bit(b, k + 1);
      }
      BitsDetermine(a / 2, b / 2, w - 1);
    }
  }

  lemma TruncId(v: nat, w: nat)
    requires v < Pow2(w)
    ensures Trunc(v, w) == v
  {
    DivUnique(v, Pow2(w), 0, v);
  }

  lemma {:induction false} BitOnes(n: nat, k: nat)
    ensures Pow2(n) >= 1 && Bit(Pow2(n) - 1, k) == (k < n)
    decreases n
  {
    if n == 0 {
      BitZero(k);
    } else {
      assert (Pow2(n) - 1) / 2 == Pow2(n - 1) - 1 && (Pow2(n) - 1) % 2 == 1;
      if k > 0 { BitOnes(n - 1, k - 1); }
    }
  }

  /** A number with all bits from one position to another set above it. */
  lemma {:induction false} BitFilled(v: nat, from: nat, to: nat, k: nat)
    requires from <= to && v < Pow2(from)
    ensures Pow2(from) <= Pow2(to)
    ensures Bit(v + (Pow2(to) - Pow2(from)), k) == if k < from then Bit(v, k) else k < to
    decreases from
  {
    Pow2Mono(from, to);
    if from == 0 {
      BitOnes(to, k);
    } else {
      Pow2Mono(from - 1, to - 1);
      var s := v + (Pow2(to) - Pow2(from));
      assert s / 2 == v / 2 + (Pow2(to - 1) - Pow2(from - 1)) && s % 2 == v % 2;
      if k > 0 { BitFilled(v / 2, from - 1, to - 1, k - 1); }
    }
  }

  /** Sign extension repeats the highest bit. */
  lemma BitSExt(v: nat, from: nat, to: nat, k: nat)
    requires 0 < from <= to && v < Pow2(from)
    ensures Bit(SExt(v, from, to), k) ==
            if k < from then Bit(v, k) else k < to && Bit(v, from - 1)
  {
    Pow2Mono(from, to);
    BitFilled(v, from, to, k);
    if k >= from { BitHigh(v, from, k); }
  }

  /** Truncating a sign extension gives the number back. */
  lemma TruncSExt(v: nat, from: nat, to: nat)
    requires 0 < from <= to && v < Pow2(from)
    ensures SExt(v, from, to) < Pow2(to)
    ensures Trunc(SExt(v, from, to), from) == v
  {
    Pow2Mono(from, to);
    if Bit(v, from - 1) {
      Pow2Add(to - from, from);
      var q, m := Pow2(to - from) - 1, Pow2(from);
      MulSub(q + 1, 1, m);
      assert Pow2(to) == (q + 1) * m;
      DivUnique(q * m + v, m, q, v);
    } else {
      TruncId(v, from);
    }
  }

  /** The number whose bit k is given by f, for k below the width. */
  function FromBits(width: nat, f: nat -> bool): (v: nat)
    ensures v < Pow2(width)
  {
    if width == 0 then 0
    else 2 * FromBits(width - 1, (k: nat) => f(k + 1)) + if f(0) then 1 else 0
  }

  lemma {:induction false} BitFromBits(width: nat, f: nat -> bool, k: nat)
    ensures Bit(FromBits(width, f), k) == (k < width && f(k))
    decreases width
  {
    if width == 0 {
      BitZero(k);
    } else {
      var g := (j: nat) => f(j + 1);
      assert FromBits(width, f) / 2 == FromBits(width - 1, g);
      if k > 0 { BitFromBits(width - 1, g, k - 1); }
    }
  }
}
