/** Contiguous ranges of bits held in memory, with their contents packed into
    one integer. */
module BitSlices {
  import opened Bits
  import opened Ranges
  import opened DataLayouts
  import opened Constants

  /** The contents of an empty slice (a null pointer in the program) are 0 here. */
  datatype BitSlice = BitSlice(range: Range, contents: nat)

  const EMPTY_SLICE := BitSlice(Range(0, 0), 0)

  ghost predicate Valid(s: BitSlice) {
    if s.range.Empty() then s.contents == 0 else s.contents < Pow2(s.range.Width())
  }

  /** The slice has a one at memory position p. */
  ghost predicate SliceBit(dl: DataLayout, s: BitSlice, p: int) {
    s.range.Has(p) && Bit(s.contents, BitIndex(dl, s.range.first, s.range.last, p))
  }

  function Displace(dl: DataLayout, s: BitSlice, offset: int): (out: BitSlice)
    requires Valid(s)
    ensures Valid(out) && out.range == s.range.Displace(offset)
    ensures forall p :: SliceBit(dl, out, p) == SliceBit(dl, s, p - offset)
  {
    BitSlice(s.range.Displace(offset), s.contents)
  }

  /** Widens a slice; all added bits are zero. */
  function ExtendRange(dl: DataLayout, s: BitSlice, r: Range): (out: BitSlice)
    requires Valid(s) && r.Contains(s.range)
    ensures Valid(out) && out.range.Same(r)
    ensures forall p :: SliceBit(dl, out, p) == SliceBit(dl, s, p)
  {
    if s.range.Same(r) then s
    else if s.range.Empty() then ZeroSlice(dl, r); BitSlice(r, 0)
    else
      var delta := ExtendShift(dl, s.range, r);
      // Zero extension leaves the number unchanged.
      var contents := if delta != 0 then Shl(s.contents, delta, r.Width()) else s.contents;
      ExtendCorrect(dl, s, r);
      BitSlice(r, contents)
  }

  function ExtendShift(dl: DataLayout, inner: Range, outer: Range): nat
    requires !inner.Empty() && outer.Contains(inner)
  {
    if dl.bigEndian then outer.last - inner.last else inner.first - outer.first
  }

  lemma ZeroSlice(dl: DataLayout, r: Range)
    requires !r.Empty()
    ensures Valid(BitSlice(r, 0)) && forall p :: !SliceBit(dl, BitSlice(r, 0), p)
  {
    forall p | r.Has(p) ensures !Bit(0, BitIndex(dl, r.first, r.last, p)) {
      BitZero(BitIndex(dl, r.first, r.last, p));
    }
  }

  lemma ExtendCorrect(dl: DataLayout, s: BitSlice, r: Range)
    requires Valid(s) && !s.range.Empty() && r.Contains(s.range)
    ensures var delta := ExtendShift(dl, s.range, r);
            var contents := if delta != 0 then Shl(s.contents, delta, r.Width()) else s.contents;
            && Valid(BitSlice(r, contents))
            && (delta < r.Width())
            && forall p :: SliceBit(dl, BitSlice(r, contents), p) == SliceBit(dl, s, p)
  {
    var delta := ExtendShift(dl, s.range, r);
    var contents := if delta != 0 then Shl(s.contents, delta, r.Width()) else s.contents;
    Pow2Mono(s.range.Width(), r.Width());
    forall p | r.Has(p)
      ensures Bit(contents, BitIndex(dl, r.first, r.last, p)) == SliceBit(dl, s, p)
    {
      var k := BitIndex(dl, r.first, r.last, p);
      if delta != 0 { BitShl(s.contents, delta, r.Width(), k); }
      if k >= delta && !s.range.Has(p) {
        BitHigh(s.contents, s.range.Width(), k - delta);
      }
    }
  }

  /** Narrows a slice, discarding the bits outside the new range. */
  function ReduceRange(dl: DataLayout, s: BitSlice, r: Range): (out: BitSlice)
    requires Valid(s) && s.range.Contains(r)
    ensures Valid(out) && out.range.Same(r)
    ensures forall p :: SliceBit(dl, out, p) == (r.Has(p) && SliceBit(dl, s, p))
  {
    if s.range.Same(r) then s
    else if r.Empty() then EMPTY_SLICE
    else
      var delta := ExtendShift(dl, r, s.range);
      var shifted := if delta != 0 then LShr(s.contents, delta) else s.contents;
      ReduceCorrect(dl, s, r);
      BitSlice(r, Trunc(shifted, r.Width()))
  }

  lemma ReduceCorrect(dl: DataLayout, s: BitSlice, r: Range)
    requires Valid(s) && !r.Empty() && s.range.Contains(r)
    ensures var delta := ExtendShift(dl, r, s.range);
            var shifted := if delta != 0 then LShr(s.contents, delta) else s.contents;
            delta < s.range.Width() &&
            forall p :: SliceBit(dl, BitSlice(r, Trunc(shifted, r.Width())), p) == (r.Has(p) && SliceBit(dl, s, p))
  {
    var delta := ExtendShift(dl, r, s.range);
    var shifted := if delta != 0 then LShr(s.contents, delta) else s.contents;
    forall p | r.Has(p)
      ensures SliceBit(dl, BitSlice(r, Trunc(shifted, r.Width())), p) == SliceBit(dl, s, p)
    {
      var k := BitIndex(dl, r.first, r.last, p);
      BitTrunc(shifted, r.Width(), k);
      if delta != 0 { BitLShr(s.contents, delta, k); }
    }
  }

  /** The bits of the slice in the requested range as an integer constant.  Bits
      of the range that are not in the slice come out as zeros. */
  function GetBits(dl: DataLayout, s: BitSlice, r: Range): (c: Const)
    requires Valid(s) && !r.Empty()
    ensures TypeOf(c) == IntTy(r.Width()) && WellTyped(c)
    ensures c.CUndef? <==> s.range.Empty()
    ensures c.CInt? ==> forall p :: r.Has(p) ==>
              Bit(c.value, BitIndex(dl, r.first, r.last, p)) == SliceBit(dl, s, p)
  {
    if s.range.Same(r) then CInt(r.Width(), s.contents)
    else if s.range.Empty() then CUndef(IntTy(r.Width()))
    else
      var hull := ExtendRange(dl, s, s.range.Join(r));
      var reduced := ReduceRange(dl, hull, r);
      assert forall p :: r.Has(p) ==> SliceBit(dl, reduced, p) == SliceBit(dl, s, p);
      CInt(r.Width(), reduced.contents)
  }

  /** Joins two disjoint slices into one over the hull of their ranges. */
  function Merge(dl: DataLayout, s: BitSlice, other: BitSlice): (out: BitSlice)
    requires Valid(s) && Valid(other) && !s.range.Intersects(other.range)
    ensures Valid(out) && out.range.Same(s.range.Join(other.range))
    ensures forall p :: SliceBit(dl, out, p) == (SliceBit(dl, s, p) || SliceBit(dl, other, p))
  {
    if other.range.Empty() then s
    else if s.range.Empty() then other
    else
      var hull := s.range.Join(other.range);
      var a := ExtendRange(dl, s, hull);
      var b := ExtendRange(dl, other, hull);
      MergeCorrect(dl, hull, a.contents, b.contents);
      assert forall p :: SliceBit(dl, a, p) == SliceBit(dl, s, p);
      assert forall p :: SliceBit(dl, b, p) == SliceBit(dl, other, p);
      BitSlice(hull, Or(a.contents, b.contents))
  }

  lemma MergeCorrect(dl: DataLayout, hull: Range, a: nat, b: nat)
    requires !hull.Empty() && Valid(BitSlice(hull, a)) && Valid(BitSlice(hull, b))
    ensures Valid(BitSlice(hull, Or(a, b)))
    ensures forall p :: SliceBit(dl, BitSlice(hull, Or(a, b)), p) ==
              (SliceBit(dl, BitSlice(hull, a), p) || SliceBit(dl, BitSlice(hull, b), p))
  {
    OrBound(a, b, hull.Width());
    forall p | hull.Has(p)
      ensures SliceBit(dl, BitSlice(hull, Or(a, b)), p) ==
              (SliceBit(dl, BitSlice(hull, a), p) || SliceBit(dl, BitSlice(hull, b), p))
    {
      BitOr(a, b, BitIndex(dl, hull.first, hull.last, p));
    }
  }
}
