/** Pasting two disjoint pieces of constants together, considered as bunches of bits,
    and exactly when that keeps the bits of both. */
module Joining {
  import opened Options
  import opened Bits
  import opened Ranges
  import opened DataLayouts
  import opened Constants
  import opened Interpretation
  import BS = BitSlices

  /** A constant whose first bit is at the given position. */
  datatype Positioned = Positioned(c: Const, starts: int)

  /** Widening an undefined integer gives zero. */
  function ValueOf(c: Const): nat {
    if c.CInt? then c.value else 0
  }

  /** The integer that the program takes the bits in the range for. */
  ghost predicate AsBits(dl: DataLayout, x: Positioned, r: Range, v: nat)
    requires dl.Valid()
  {
    exists d :: Interpreted(dl, x.c, IntTy(r.Width()), r.first - x.starts, d) && v == ValueOf(d)
  }

  lemma SliceFits(dl: DataLayout, x: Positioned, r: Range, v: nat)
    requires dl.Valid() && AsBits(dl, x, r, v) && !r.Empty()
    ensures BS.Valid(BS.BitSlice(r, v))
  {
    var d :| Interpreted(dl, x.c, IntTy(r.Width()), r.first - x.starts, d) && v == ValueOf(d);
    Pow2Mono(0, r.Width());
  }

  // ---------- what is read ----------

  /** How far away from where it should the bits in the range are read.  On big-endian
      machines the bits of an integer that does not fill its bytes come last; and
      where the constant is such an integer already, it is used as it stands. */
  function Shift(dl: DataLayout, ty: Ty, starts: int, r: Range): int
    requires dl.Valid()
  {
    IntFirst(dl, r.Width()) - if ty == IntTy(r.Width()) then r.first - starts else 0
  }

  predicate ReadBit(dl: DataLayout, x: Positioned, r: Range, p: int)
    requires dl.Valid()
  {
    Image(dl, x.c)(p - x.starts + Shift(dl, TypeOf(x.c), x.starts, r)) == Some(true)
  }

  lemma AsBitsReads(dl: DataLayout, x: Positioned, r: Range, v: nat, p: int)
    requires dl.Valid() && AsBits(dl, x, r, v) && r.Has(p)
    ensures Bit(v, BitIndex(dl, r.first, r.last, p)) == ReadBit(dl, x, r, p)
  {
    hide Bit;
    hide Image;
    hide StoreBytes;
    var d :| Interpreted(dl, x.c, IntTy(r.Width()), r.first - x.starts, d) && v == ValueOf(d);
    var q := IntFirst(dl, r.Width()) + (p - r.first);
    IntegerBit(dl, d, r.Width(), q);
    if TypeOf(x.c) != IntTy(r.Width()) {
      var m, start := Image(dl, x.c), r.first - x.starts;
      assert start + q == p - x.starts + Shift(dl, TypeOf(x.c), x.starts, r);
      assert DataBit(dl, IntTy(r.Width()), q);
      assert m(start + q).Some? ==> Image(dl, d)(q) == m(start + q);
    }
  }

  /** The bits of an integer, an undefined one counting as zero. */
  lemma IntegerBit(dl: DataLayout, d: Const, width: nat, q: int)
    requires dl.Valid() && TypeOf(d) == IntTy(width) && IntFirst(dl, width) <= q < IntFirst(dl, width) + width
    ensures Bit(ValueOf(d), BitIndex(dl, IntFirst(dl, width), IntFirst(dl, width) + width, q)) ==
            (Image(dl, d)(q) == Some(true))
  {
    if d.CInt? {
      IntImage(dl, width, d.value, q);
    } else {
      UndefStoresNothing(dl, d.ty, q);
      BitZero(BitIndex(dl, IntFirst(dl, width), IntFirst(dl, width) + width, q));
    }
  }

  // ---------- the joined integer ----------

  predicate JoinedBit(dl: DataLayout, x: Positioned, xr: Range, y: Positioned, yr: Range, p: int)
    requires dl.Valid()
  {
    (xr.Has(p) && ReadBit(dl, x, xr, p)) || (yr.Has(p) && ReadBit(dl, y, yr, p))
  }

  /** The position of a bit of an integer that lies in the range. */
  function PositionOf(dl: DataLayout, r: Range, k: nat): int {
    if dl.bigEndian then r.last - 1 - k else r.first + k
  }

  /** Two pieces become one integer over the hull of their ranges: what was read in
      each of them, and zeros between. */
  function JoinedWith(dl: DataLayout, x: Positioned, xr: Range, y: Positioned, yr: Range): Positioned
    requires dl.Valid()
  {
    var hull := xr.Join(yr);
    Positioned(CInt(hull.Width(),
                    FromBits(hull.Width(), (k: nat) => JoinedBit(dl, x, xr, y, yr, PositionOf(dl, hull, k)))),
               hull.first)
  }

  lemma JoinedFacts(dl: DataLayout, x: Positioned, xr: Range, y: Positioned, yr: Range)
    requires dl.Valid() && !xr.Join(yr).Empty()
    ensures var joined := JoinedWith(dl, x, xr, y, yr);
            && WellTyped(joined.c) && joined.starts == xr.Join(yr).first
            && TypeOf(joined.c) == IntTy(xr.Join(yr).Width())
  {}

  /** What the program computes is that integer. */
  lemma MergedIsJoined(dl: DataLayout, x: Positioned, xr: Range, v: nat, y: Positioned, yr: Range, w: nat)
    requires dl.Valid() && AsBits(dl, x, xr, v) && AsBits(dl, y, yr, w)
    requires !xr.Empty() && !yr.Empty() && !xr.Intersects(yr)
    requires BS.Valid(BS.BitSlice(xr, v)) && BS.Valid(BS.BitSlice(yr, w))
    ensures var merged := BS.Merge(dl, BS.BitSlice(xr, v), BS.BitSlice(yr, w));
            && merged.range == xr.Join(yr) && !merged.range.Empty()
            && JoinedWith(dl, x, xr, y, yr) == Positioned(BS.GetBits(dl, merged, merged.range), merged.range.first)
  {
    hide AsBits;
    hide Bit;
    hide JoinedBit;
    var merged, hull := BS.Merge(dl, BS.BitSlice(xr, v), BS.BitSlice(yr, w)), xr.Join(yr);
    var joined := JoinedWith(dl, x, xr, y, yr).c.value;
    assert !hull.Empty() && merged.range == hull by { assert hull.Contains(xr) && hull.Has(xr.first); }
    forall k: nat | k < hull.Width() ensures Bit(merged.contents, k) == Bit(joined, k) {
      var p := PositionOf(dl, hull, k);
      assert BitIndex(dl, hull.first, hull.last, p) == k;
      MergedReads(dl, x, xr, v, y, yr, w, p);
      BitFromBits(hull.Width(), (j: nat) => JoinedBit(dl, x, xr, y, yr, PositionOf(dl, hull, j)), k);
    }
    BitsDetermine(merged.contents, joined, hull.Width());
  }

  lemma MergedReads(dl: DataLayout, x: Positioned, xr: Range, v: nat, y: Positioned, yr: Range, w: nat, p: int)
    requires dl.Valid() && AsBits(dl, x, xr, v) && AsBits(dl, y, yr, w) && !xr.Intersects(yr)
    requires BS.Valid(BS.BitSlice(xr, v)) && BS.Valid(BS.BitSlice(yr, w))
    ensures BS.SliceBit(dl, BS.Merge(dl, BS.BitSlice(xr, v), BS.BitSlice(yr, w)), p) == JoinedBit(dl, x, xr, y, yr, p)
  {
    hide AsBits;
    hide Bit;
    hide ReadBit;
    if xr.Has(p) { AsBitsReads(dl, x, xr, v, p); }
    if yr.Has(p) { AsBitsReads(dl, y, yr, w, p); }
  }

  /** The joined integer in memory. */
  lemma JoinedImage(dl: DataLayout, x: Positioned, xr: Range, y: Positioned, yr: Range, p: int)
    requires dl.Valid()
    ensures var hull, joined := xr.Join(yr), JoinedWith(dl, x, xr, y, yr);
            var q := p - IntFirst(dl, hull.Width());
            Image(dl, joined.c)(p - joined.starts) ==
            if hull.Has(q) then Some(JoinedBit(dl, x, xr, y, yr, q)) else None
  {
    hide Bit;
    hide JoinedBit;
    hide StoreBytes;
    var hull, joined := xr.Join(yr), JoinedWith(dl, x, xr, y, yr);
    var first := IntFirst(dl, hull.Width());
    var q := p - first;
    if hull.Has(q) {
      var k := BitIndex(dl, first, first + hull.Width(), p - hull.first);
      assert PositionOf(dl, hull, k) == q;
      BitFromBits(hull.Width(), (j: nat) => JoinedBit(dl, x, xr, y, yr, PositionOf(dl, hull, j)), k);
    }
  }

  // ---------- when nothing is lost ----------

  /** The second constant has every bit that the first defines at the position. */
  ghost predicate Keeps(dl: DataLayout, x: Positioned, y: Positioned, p: int)
    requires dl.Valid()
  {
    Image(dl, x.c)(p - x.starts).Some? ==> Image(dl, y.c)(p - y.starts) == Image(dl, x.c)(p - x.starts)
  }

  /** Joining keeps every defined bit of both pieces. */
  ghost predicate KeepsBoth(dl: DataLayout, x: Positioned, xr: Range, y: Positioned, yr: Range)
    requires dl.Valid()
  {
    var joined := JoinedWith(dl, x, xr, y, yr);
    && (forall p :: xr.Has(p) ==> Keeps(dl, x, joined, p))
    && (forall p :: yr.Has(p) ==> Keeps(dl, y, joined, p))
  }

  /** Wherever constants of the type have a bit in the range, the distance by which the
      bit was read wrongly is the distance by which the integer over the hull then lies
      wrongly, and that does not lead out of the range. */
  ghost predicate Restored(dl: DataLayout, ty: Ty, starts: int, r: Range, hull: Range)
    requires dl.Valid()
  {
    var first := IntFirst(dl, hull.Width());
    forall p :: r.Has(p) && DataBit(dl, ty, p - starts) ==> Shift(dl, ty, starts, r) == first && r.Has(p - first)
  }

  lemma RestoredKeeps(dl: DataLayout, x: Positioned, xr: Range, y: Positioned, yr: Range, p: int)
    requires dl.Valid() && WellTyped(x.c) && xr.Has(p) && !xr.Intersects(yr)
    requires Restored(dl, TypeOf(x.c), x.starts, xr, xr.Join(yr))
    ensures Keeps(dl, x, JoinedWith(dl, x, xr, y, yr), p)
    ensures Keeps(dl, x, JoinedWith(dl, y, yr, x, xr), p)
  {
    hide Image;
    hide DataBit;
    hide JoinedWith;
    if Image(dl, x.c)(p - x.starts).Some? {
      ImageIsData(dl, x.c, p - x.starts);
      var q := p - IntFirst(dl, xr.Join(yr).Width());
      assert xr.Has(q) && xr.Join(yr).Has(q) && !yr.Has(q);
      assert yr.Join(xr) == xr.Join(yr);
      assert q - x.starts + Shift(dl, TypeOf(x.c), x.starts, xr) == p - x.starts;
      var b := Image(dl, x.c)(p - x.starts).value;
      assert Image(dl, x.c)(p - x.starts) == Some(b);
      assert JoinedBit(dl, x, xr, y, yr, q) == b && JoinedBit(dl, y, yr, x, xr, q) == b;
      JoinedImage(dl, x, xr, y, yr, p);
      JoinedImage(dl, y, yr, x, xr, p);
    }
  }

  /** Otherwise a single set bit is lost when the other piece is zero. */
  lemma LosesBit(dl: DataLayout, ty: Ty, starts: int, xr: Range, y: Positioned, yr: Range, p: int)
    requires dl.Valid() && WellFormedTy(ty) && WellTyped(y.c) && IsNullValue(y.c)
    requires xr.Has(p) && DataBit(dl, ty, p - starts)
    requires var first := IntFirst(dl, xr.Join(yr).Width());
             !(Shift(dl, ty, starts, xr) == first && xr.Has(p - first))
    ensures var x := Positioned(OneBit(dl, ty, p - starts), starts);
            && WellTyped(x.c) && TypeOf(x.c) == ty
            && !Keeps(dl, x, JoinedWith(dl, x, xr, y, yr), p)
            && !Keeps(dl, x, JoinedWith(dl, y, yr, x, xr), p)
  {
    hide Image;
    hide DataBit;
    hide OneBit;
    hide JoinedWith;
    var x := Positioned(OneBit(dl, ty, p - starts), starts);
    OneBitType(dl, ty, p - starts);
    OneBitImage(dl, ty, p - starts, p - starts);
    var q := p - IntFirst(dl, xr.Join(yr).Width());
    if xr.Has(q) { OnlyBit(dl, ty, p - starts, q - starts + Shift(dl, ty, starts, xr)); }
    IsNullValueBits(dl, y.c, q - y.starts + Shift(dl, TypeOf(y.c), y.starts, yr));
    assert !JoinedBit(dl, x, xr, y, yr, q) && !JoinedBit(dl, y, yr, x, xr, q);
    JoinedImage(dl, x, xr, y, yr, p);
    JoinedImage(dl, y, yr, x, xr, p);
  }

  lemma OnlyBit(dl: DataLayout, ty: Ty, p: int, q: int)
    requires dl.Valid() && WellFormedTy(ty) && DataBit(dl, ty, p) && q != p
    ensures Image(dl, OneBit(dl, ty, p))(q) != Some(true)
  {
    hide Image;
    hide DataBit;
    hide OneBit;
    OneBitType(dl, ty, p);
    if Image(dl, OneBit(dl, ty, p))(q).Some? {
      ImageIsData(dl, OneBit(dl, ty, p), q);
      OneBitImage(dl, ty, p, q);
    }
  }

  /** For every pair of types, starts and disjoint ranges, in both byte orders: joining
      keeps all defined bits of both pieces, whatever the constants, iff both are
      restored. */
  lemma JoinExact(dl: DataLayout, xty: Ty, xs: int, xr: Range, yty: Ty, ys: int, yr: Range)
    requires dl.Valid() && WellFormedTy(xty) && WellFormedTy(yty) && !xr.Intersects(yr)
    ensures (forall c, d :: WellTyped(c) && TypeOf(c) == xty && WellTyped(d) && TypeOf(d) == yty ==>
              KeepsBoth(dl, Positioned(c, xs), xr, Positioned(d, ys), yr))
            <==> Restored(dl, xty, xs, xr, xr.Join(yr)) && Restored(dl, yty, ys, yr, xr.Join(yr))
  {
    hide KeepsBoth;
    hide Restored;
    hide WellTyped;
    var hull := xr.Join(yr);
    if Restored(dl, xty, xs, xr, hull) && Restored(dl, yty, ys, yr, hull) {
      forall c, d | WellTyped(c) && TypeOf(c) == xty && WellTyped(d) && TypeOf(d) == yty
        ensures KeepsBoth(dl, Positioned(c, xs), xr, Positioned(d, ys), yr)
      {
        BothRestored(dl, Positioned(c, xs), xr, Positioned(d, ys), yr);
      }
    } else {
      NullValueType(xty);
      NullValueType(yty);
      if !Restored(dl, xty, xs, xr, hull) {
        var c := PieceLosesBit(dl, xty, xs, xr, yty, ys, yr);
      } else {
        RestoredHull(dl, yty, ys, yr, hull, yr.Join(xr));
        var c := PieceLosesBit(dl, yty, ys, yr, xty, xs, xr);
      }
    }
  }

  lemma RestoredHull(dl: DataLayout, ty: Ty, starts: int, r: Range, hull: Range, same: Range)
    requires dl.Valid() && hull.Width() == same.Width()
    ensures Restored(dl, ty, starts, r, hull) <==> Restored(dl, ty, starts, r, same)
  {}

  lemma PieceLosesBit(dl: DataLayout, ty: Ty, starts: int, r: Range, other: Ty, os: int, or: Range) returns (c: Const)
    requires dl.Valid() && WellFormedTy(ty) && WellFormedTy(other) && !Restored(dl, ty, starts, r, r.Join(or))
    ensures WellTyped(c) && TypeOf(c) == ty
    ensures !KeepsBoth(dl, Positioned(c, starts), r, Positioned(NullValue(other), os), or)
    ensures !KeepsBoth(dl, Positioned(NullValue(other), os), or, Positioned(c, starts), r)
  {
    hide Keeps;
    hide DataBit;
    hide JoinedWith;
    hide Shift;
    var first := IntFirst(dl, r.Join(or).Width());
    var p :| r.Has(p) && DataBit(dl, ty, p - starts) && !(Shift(dl, ty, starts, r) == first && r.Has(p - first));
    NullValueType(other);
    NullIsNull(other);
    LosesBit(dl, ty, starts, r, Positioned(NullValue(other), os), or, p);
    c := OneBit(dl, ty, p - starts);
  }

  lemma BothRestored(dl: DataLayout, x: Positioned, xr: Range, y: Positioned, yr: Range)
    requires dl.Valid() && WellTyped(x.c) && WellTyped(y.c) && !xr.Intersects(yr)
    requires Restored(dl, TypeOf(x.c), x.starts, xr, xr.Join(yr))
    requires Restored(dl, TypeOf(y.c), y.starts, yr, xr.Join(yr))
    ensures KeepsBoth(dl, x, xr, y, yr)
  {
    hide Keeps;
    hide JoinedWith;
    hide DataBit;
    hide Shift;
    assert yr.Join(xr).Width() == xr.Join(yr).Width();
    forall p | xr.Has(p) ensures Keeps(dl, x, JoinedWith(dl, x, xr, y, yr), p) {
      RestoredKeeps(dl, x, xr, y, yr, p);
    }
    forall p | yr.Has(p) ensures Keeps(dl, y, JoinedWith(dl, x, xr, y, yr), p) {
      RestoredKeeps(dl, y, yr, x, xr, p);
    }
  }

  /** On little-endian machines that means: an integer of exactly the range's width
      starts where the range does, unless it has no bit in the range. */
  lemma RestoredLittleEndian(dl: DataLayout, ty: Ty, starts: int, r: Range, hull: Range)
    requires dl.Valid() && !dl.bigEndian
    ensures Restored(dl, ty, starts, r, hull) <==>
            (ty == IntTy(r.Width()) && r.first != starts ==> forall p :: r.Has(p) ==> !DataBit(dl, ty, p - starts))
  {
    hide DataBit;
  }

  /** On big-endian machines whole bytes are safe, with the same proviso. */
  lemma RestoredBigEndian(dl: DataLayout, ty: Ty, starts: int, r: Range, hull: Range)
    requires dl.Valid() && dl.bigEndian && r.Width() % 8 == 0 && hull.Width() % 8 == 0
    requires ty == IntTy(r.Width()) ==> r.first == starts
    ensures Restored(dl, ty, starts, r, hull)
  {
    hide DataBit;
  }

  /** An integer constant has a bit at the position. */
  ghost predicate InInteger(x: Positioned, p: int) {
    TypeOf(x.c).IntTy? ==> x.starts <= p < x.starts + TypeOf(x.c).bits
  }

  /** In particular ranges within their constants are safe on little-endian machines. */
  lemma JoinKeepsBits(dl: DataLayout, x: Positioned, xr: Range, y: Positioned, yr: Range)
    requires dl.Valid() && !dl.bigEndian && WellTyped(x.c) && WellTyped(y.c) && !xr.Intersects(yr)
    requires xr.Empty() || (InInteger(x, xr.first) && InInteger(x, xr.last - 1))
    requires yr.Empty() || (InInteger(y, yr.first) && InInteger(y, yr.last - 1))
    ensures KeepsBoth(dl, x, xr, y, yr)
  {
    hide KeepsBoth;
    RestoredLittleEndian(dl, TypeOf(x.c), x.starts, xr, xr.Join(yr));
    RestoredLittleEndian(dl, TypeOf(y.c), y.starts, yr, xr.Join(yr));
    BothRestored(dl, x, xr, y, yr);
  }
}
