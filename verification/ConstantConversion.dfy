/** Viewing a constant as bits, and reading those bits back as a constant of
    another type.  The stated purpose is "store the constant to memory, then load
    a value of the other type", which is what is proved here bit by bit. */
module ConstantConversion {
  import opened Options
  import opened Arith
  import opened Bits
  import opened Ranges
  import opened StructLayouts
  import opened DataLayouts
  import opened Constants
  import BS = BitSlices

  // ---------- ViewAsBits ----------

  /** The slice lies within the first size bits of memory and has, at every
      position of the range where the memory is defined, the bit found there.
      Other bits of the slice are zeros. */
  ghost predicate Views(dl: DataLayout, m: Mem, size: nat, r: Range, bits: BS.BitSlice) {
    && BS.Valid(bits)
    && Range(0, size).Contains(bits.range)
    && OnesFrom(dl, m, bits)
    && forall p :: r.Has(p) && m(p).Some? ==> bits.range.Has(p) && BS.SliceBit(dl, bits, p) == m(p).value
  }

  /** Every one in the slice is found in memory. */
  ghost predicate OnesFrom(dl: DataLayout, m: Mem, bits: BS.BitSlice) {
    forall p :: BS.SliceBit(dl, bits, p) ==> m(p) == Some(true)
  }

  function Frontier(dl: DataLayout, ty: Ty, i: nat): nat
    requires dl.Valid() && i <= NumElts(ty)
  {
    if i < NumElts(ty) then EltOffset(dl, ty, i) else StoreBits(dl, ty)
  }

  /** Progress of the accumulation loops: the bits of the first i elements. */
  ghost predicate Collected(dl: DataLayout, m: Mem, ty: Ty, r: Range, bits: BS.BitSlice, i: nat)
    requires dl.Valid() && i <= NumElts(ty)
  {
    && BS.Valid(bits)
    && Range(0, Frontier(dl, ty, i)).Contains(bits.range)
    && OnesFrom(dl, m, bits)
    && forall j: nat, p :: j < i && Covers(dl, ty, j, p) && r.Has(p) && m(p).Some? ==>
         bits.range.Has(p) && BS.SliceBit(dl, bits, p) == m(p).value
  }

  lemma CollectStart(dl: DataLayout, m: Mem, ty: Ty, r: Range, first: nat)
    requires dl.Valid() && first <= NumElts(ty)
    requires forall j: nat, p :: j < first && Covers(dl, ty, j, p) ==> !r.Has(p)
    ensures Collected(dl, m, ty, r, BS.EMPTY_SLICE, first)
  {}

  lemma CollectNext(dl: DataLayout, m: Mem, ty: Ty, r: Range, bits: BS.BitSlice, i: nat,
                    elt: Mem, needed: Range, eltBits: BS.BitSlice)
    requires dl.Valid() && i < NumElts(ty)
    requires Collected(dl, m, ty, r, bits, i)
    requires forall p :: Covers(dl, ty, i, p) ==> m(p) == elt(p - EltOffset(dl, ty, i))
    requires forall p :: Covers(dl, ty, i, p) && r.Has(p) ==> needed.Has(p - EltOffset(dl, ty, i))
    requires Views(dl, elt, StoreBits(dl, Elt(ty, i)), needed, eltBits)
    ensures !bits.range.Intersects(BS.Displace(dl, eltBits, EltOffset(dl, ty, i)).range)
    ensures Collected(dl, m, ty, r, BS.Merge(dl, bits, BS.Displace(dl, eltBits, EltOffset(dl, ty, i))), i + 1)
  {
    hide StoreBytes;
    hide AllocBytes;
    hide Offset;
    var offset: int := EltOffset(dl, ty, i);
    var moved := BS.Displace(dl, eltBits, offset);
    var eltSize := StoreBits(dl, Elt(ty, i));
    EltsOrdered(dl, ty, i, i + 1);
    assert Frontier(dl, ty, i + 1) >= offset + eltSize;
    assert forall p :: moved.range.Has(p) ==> Range(0, eltSize).Has(p - offset);
    assert forall p :: bits.range.Has(p) ==> Range(0, offset).Has(p);
    assert Range(0, Frontier(dl, ty, i + 1)).Contains(moved.range);
    var merged := BS.Merge(dl, bits, moved);
    OnesFromBoth(dl, m, ty, bits, i, elt, eltBits);
    forall j: nat, p | j < i + 1 && Covers(dl, ty, j, p) && r.Has(p) && m(p).Some?
      ensures merged.range.Has(p) && BS.SliceBit(dl, merged, p) == m(p).value
    {
      if j == i {
        assert needed.Has(p - offset) && elt(p - offset).Some?;
        assert moved.range.Has(p);
      } else {
        assert bits.range.Has(p);
      }
      MergedBit(dl, bits, moved, p);
    }
  }

  /** What either slice has in its range is in the merged one. */
  lemma MergedBit(dl: DataLayout, a: BS.BitSlice, b: BS.BitSlice, p: int)
    requires BS.Valid(a) && BS.Valid(b) && !a.range.Intersects(b.range)
    requires a.range.Has(p) || b.range.Has(p)
    ensures BS.Merge(dl, a, b).range.Has(p)
    ensures BS.SliceBit(dl, BS.Merge(dl, a, b), p) ==
            if a.range.Has(p) then BS.SliceBit(dl, a, p) else BS.SliceBit(dl, b, p)
  {
    var merged, hull := BS.Merge(dl, a, b), a.range.Join(b.range);
    assert merged.range.Same(hull) && hull.Contains(a.range) && hull.Contains(b.range);
    assert a.range.Has(p) ==> !b.range.Has(p);
  }

  lemma OnesFromBoth(dl: DataLayout, m: Mem, ty: Ty, bits: BS.BitSlice, i: nat, elt: Mem, eltBits: BS.BitSlice)
    requires dl.Valid() && i < NumElts(ty) && BS.Valid(bits) && BS.Valid(eltBits)
    requires OnesFrom(dl, m, bits) && OnesFrom(dl, elt, eltBits)
    requires Range(0, StoreBits(dl, Elt(ty, i))).Contains(eltBits.range)
    requires forall p :: Covers(dl, ty, i, p) ==> m(p) == elt(p - EltOffset(dl, ty, i))
    requires !bits.range.Intersects(BS.Displace(dl, eltBits, EltOffset(dl, ty, i)).range)
    ensures OnesFrom(dl, m, BS.Merge(dl, bits, BS.Displace(dl, eltBits, EltOffset(dl, ty, i))))
  {
    hide EltOffset;
    hide StoreBytes;
    var offset := EltOffset(dl, ty, i);
    var moved := BS.Displace(dl, eltBits, offset);
    forall p | BS.SliceBit(dl, BS.Merge(dl, bits, moved), p) ensures m(p) == Some(true) {
      if BS.SliceBit(dl, moved, p) {
        assert BS.SliceBit(dl, eltBits, p - offset) && eltBits.range.Has(p - offset);
        assert Covers(dl, ty, i, p);
      }
    }
  }

  lemma CollectedAll(dl: DataLayout, c: Const, r: Range, bits: BS.BitSlice, last: nat)
    requires dl.Valid() && WellTyped(c) && last <= NumElts(TypeOf(c)) && !TypeOf(c).IntTy?
    requires Collected(dl, Image(dl, c), TypeOf(c), r, bits, last)
    requires forall j: nat, p :: j >= last && Covers(dl, TypeOf(c), j, p) ==> !r.Has(p)
    ensures Views(dl, Image(dl, c), StoreBits(dl, TypeOf(c)), r, bits)
  {
    var ty := TypeOf(c);
    if last < NumElts(ty) { EltsOrdered(dl, ty, last, last + 1); }
    forall p | r.Has(p) && Image(dl, c)(p).Some?
      ensures bits.range.Has(p) && BS.SliceBit(dl, bits, p) == Image(dl, c)(p).value
    {
      var j := CoveringElt(dl, ty, p).value;
      assert Covers(dl, ty, j, p) && j < last;
    }
  }

  lemma ImageInStore(dl: DataLayout, c: Const)
    requires dl.Valid() && WellTyped(c)
    ensures forall p :: Image(dl, c)(p).Some? ==> Range(0, StoreBits(dl, TypeOf(c))).Has(p)
  {
    forall p | Image(dl, c)(p).Some? ensures Range(0, StoreBits(dl, TypeOf(c))).Has(p) {
      ImageIsData(dl, c, p);
    }
  }

  method ViewAsBits(dl: DataLayout, c: Const, range: Range) returns (bits: BS.BitSlice)
    requires dl.Valid() && WellTyped(c)
    ensures Views(dl, Image(dl, c), StoreBits(dl, TypeOf(c)), range, bits)
    decreases TypeOf(c), 2
  {
    hide Image;
    hide WellTyped;
    hide StoreBytes;
    if range.Empty() {
      return BS.EMPTY_SLICE;
    }
    var ty := TypeOf(c);
    var storeSize := StoreBits(dl, ty);
    var r := range.Meet(Range(0, storeSize));
    // Only positions in the store can hold a defined bit.
    ImageInStore(dl, c);
    assert forall p :: range.Has(p) && Image(dl, c)(p).Some? ==> r.Has(p);
    if r.Empty() {
      return BS.EMPTY_SLICE;
    }
    match ty {
      case IntTy(width) =>
        var value := if c.CInt? then c.value else 0;
        var first := if dl.bigEndian then storeSize - width else 0;
        assert first == IntFirst(dl, width);
        IntView(dl, c, range, first, value);
        return BS.BitSlice(Range(first, first + width), value);
      case ArrayTy(_, _) =>
        bits := ViewArray(dl, c, r);
      case StructTy(_, _) =>
        bits := ViewStruct(dl, c, r);
    }
  }

  lemma IntView(dl: DataLayout, c: Const, r: Range, first: nat, value: nat)
    requires dl.Valid() && WellTyped(c) && TypeOf(c).IntTy? && first == IntFirst(dl, TypeOf(c).bits)
    requires value == if c.CInt? then c.value else 0
    ensures Views(dl, Image(dl, c), StoreBits(dl, TypeOf(c)), r,
                  BS.BitSlice(Range(first, first + TypeOf(c).bits), value))
  {
    Pow2Mono(0, TypeOf(c).bits);
    if c.CUndef? {
      forall p: nat ensures !Bit(0, p) { BitZero(p); }
    }
  }

  /** Views the needed part of one element and adds it to the bits so far. */
  method AddElement(dl: DataLayout, c: Const, r: Range, soFar: BS.BitSlice, i: nat, needed: Range, offset: int)
    returns (bits: BS.BitSlice)
    requires dl.Valid() && WellTyped(c) && i < NumElts(TypeOf(c)) && offset == EltOffset(dl, TypeOf(c), i)
    requires Collected(dl, Image(dl, c), TypeOf(c), r, soFar, i)
    requires forall p :: Covers(dl, TypeOf(c), i, p) && r.Has(p) ==> needed.Has(p - offset)
    ensures Collected(dl, Image(dl, c), TypeOf(c), r, bits, i + 1)
    decreases TypeOf(c), 0
  {
    hide StoreBytes;
    hide AllocBytes;
    hide Offset;
    var elt := ExtractValue(c, i);
    ExtractValueType(c, i);
    var eltBits := ViewAsBits(dl, elt, needed);
    forall p | Covers(dl, TypeOf(c), i, p) ensures Image(dl, c)(p) == Image(dl, elt)(p - offset) {
      ImageOfElement(dl, c, i, p);
    }
    CollectNext(dl, Image(dl, c), TypeOf(c), r, soFar, i, Image(dl, elt), needed, eltBits);
    bits := BS.Merge(dl, soFar, BS.Displace(dl, eltBits, offset));
  }

  method ViewArray(dl: DataLayout, c: Const, r: Range) returns (bits: BS.BitSlice)
    requires dl.Valid() && WellTyped(c) && TypeOf(c).ArrayTy?
    requires !r.Empty() && Range(0, StoreBits(dl, TypeOf(c))).Contains(r)
    ensures Views(dl, Image(dl, c), StoreBits(dl, TypeOf(c)), r, bits)
    decreases TypeOf(c), 1
  {
    hide Image;
    hide WellTyped;
    hide StoreBytes;
    hide AllocBytes;
    hide Collected;
    hide Views;
    var ty := TypeOf(c);
    var stride := AllocBits(dl, ty.elem);
    assert 0 <= r.first < r.last <= StoreBits(dl, ty) by {
      assert r.Has(r.first) && r.Has(r.last - 1);
    }
    var firstElt, lastElt := ArrayWindow(dl, ty, r);
    bits := BS.EMPTY_SLICE;
    CollectStart(dl, Image(dl, c), ty, r, firstElt);
    for i := firstElt to lastElt
      invariant Collected(dl, Image(dl, c), ty, r, bits, i)
    {
      MulNonNegative(i, stride);
      var offset: int := i * stride;
      assert offset == EltOffset(dl, ty, i);
      var needed := Range(0, stride).Meet(r.Displace(-offset));
      assert !needed.Empty() by {
        var p := if r.first > offset then r.first else offset;
        assert needed.Has(p - offset);
      }
      bits := AddElement(dl, c, r, bits, i, needed, offset);
    }
    CollectedAll(dl, c, r, bits, lastElt);
  }

  /** The elements [firstElt, lastElt) are those that overlap the range. */
  method ArrayWindow(dl: DataLayout, ty: Ty, r: Range) returns (firstElt: nat, lastElt: nat)
    requires dl.Valid() && ty.ArrayTy? && 0 <= r.first < r.last <= StoreBits(dl, ty)
    ensures firstElt <= lastElt <= NumElts(ty)
    ensures forall j: nat, p :: (j < firstElt || j >= lastElt) && Covers(dl, ty, j, p) ==> !r.Has(p)
    ensures forall j: nat {:trigger EltOffset(dl, ty, j)} :: firstElt <= j < lastElt ==>
              EltOffset(dl, ty, j) < r.last && r.first < EltOffset(dl, ty, j) + AllocBits(dl, ty.elem)
  {
    var stride := AllocBits(dl, ty.elem);
    MulAssoc(ty.count, 8, AllocBytes(dl, ty.elem));
    assert stride != 0;
    DivNonNegative(r.first, stride);
    DivNonNegative(r.last + stride - 1, stride);
    firstElt, lastElt := r.first / stride, (r.last + stride - 1) / stride;
    CeilAtMost(r.last, stride, ty.count);
    forall j: nat
      ensures j < firstElt <==> j * stride + stride <= r.first
      ensures j >= lastElt <==> r.last <= j * stride
    {
      StrideWindow(r.first, r.last, stride, j);
    }
    assert firstElt <= lastElt by {
      StrideWindow(r.first, r.last, stride, lastElt);
      assert !(lastElt * stride + stride <= r.first);
    }
  }

  method ViewStruct(dl: DataLayout, c: Const, r: Range) returns (bits: BS.BitSlice)
    requires dl.Valid() && WellTyped(c) && TypeOf(c).StructTy?
    requires !r.Empty() && Range(0, StoreBits(dl, TypeOf(c))).Contains(r)
    ensures Views(dl, Image(dl, c), StoreBits(dl, TypeOf(c)), r, bits)
    decreases TypeOf(c), 1
  {
    hide Image;
    hide WellTyped;
    hide StoreBytes;
    hide Offset;
    hide Collected;
    hide Views;
    var ty := TypeOf(c);
    var slots := Slots(dl, ty.fields);
    assert 0 <= r.first < r.last <= StoreBits(dl, ty) by {
      assert r.Has(r.first) && r.Has(r.last - 1);
    }
    var firstIdx, lastIdx := StructWindow(dl, ty, r);
    bits := BS.EMPTY_SLICE;
    CollectStart(dl, Image(dl, c), ty, r, firstIdx);
    for i := firstIdx to lastIdx
      invariant Collected(dl, Image(dl, c), ty, r, bits, i)
    {
      var offset: int := Offset(slots, ty.packed, i) * 8;
      assert offset == EltOffset(dl, ty, i);
      var needed := Range(0, StoreBits(dl, Elt(ty, i))).Meet(r.Displace(-offset));
      if !needed.Empty() {
        bits := AddElement(dl, c, r, bits, i, needed, offset);
      } else {
        CollectNothing(dl, Image(dl, c), ty, r, bits, i);
      }
    }
    CollectedAll(dl, c, r, bits, lastIdx);
  }

  lemma StructStore(dl: DataLayout, ty: Ty)
    requires dl.Valid() && ty.StructTy?
    ensures StoreBits(dl, ty) == 8 * Size(Slots(dl, ty.fields), ty.packed)
    ensures ty.fields == [] ==> StoreBits(dl, ty) == 0
  {}

  /** The fields [firstIdx, lastIdx) include those that overlap the range. */
  method StructWindow(dl: DataLayout, ty: Ty, r: Range) returns (firstIdx: nat, lastIdx: nat)
    requires dl.Valid() && ty.StructTy? && 0 <= r.first < r.last <= StoreBits(dl, ty)
    ensures firstIdx < lastIdx <= NumElts(ty)
    ensures forall j: nat, p :: (j < firstIdx || j >= lastIdx) && Covers(dl, ty, j, p) ==> !r.Has(p)
  {
    hide StoreBytes;
    var slots := Slots(dl, ty.fields);
    assert slots != [] && r.first / 8 <= (r.last - 1) / 8 < Size(slots, ty.packed) by { StructStore(dl, ty); }
    firstIdx := ElementContainingOffset(slots, ty.packed, r.first / 8);
    lastIdx := ElementContainingOffset(slots, ty.packed, (r.last - 1) / 8);
    lastIdx := lastIdx + 1;
    forall j: nat, p | j < firstIdx && Covers(dl, ty, j, p) ensures !r.Has(p) {
      EltsOrdered(dl, ty, j, firstIdx);
    }
    forall j: nat, p | j >= lastIdx && Covers(dl, ty, j, p) ensures !r.Has(p) {
      assert (r.last - 1) / 8 < Offset(slots, ty.packed, j);
    }
  }

  lemma CollectNothing(dl: DataLayout, m: Mem, ty: Ty, r: Range, bits: BS.BitSlice, i: nat)
    requires dl.Valid() && i < NumElts(ty) && Collected(dl, m, ty, r, bits, i)
    requires forall p :: Covers(dl, ty, i, p) ==> !r.Has(p)
    ensures Collected(dl, m, ty, r, bits, i + 1)
  {
    hide StoreBytes;
    hide Offset;
    hide BS.SliceBit;
    hide BS.Valid;
    hide EltOffset;
    hide Covers;
    FrontierGrows(dl, ty, i);
  }

  lemma FrontierGrows(dl: DataLayout, ty: Ty, i: nat)
    requires dl.Valid() && i < NumElts(ty)
    ensures Frontier(dl, ty, i) <= Frontier(dl, ty, i + 1)
  {
    hide StoreBytes;
    hide Offset;
    hide EltOffset;
    EltsOrdered(dl, ty, i, i + 1);
  }
}
