/** Reinterpreting a constant as another type, and moving integral values between
    registers and memory. */
module Interpretation {
  import opened Options
  import opened Bits
  import opened Ranges
  import opened StructLayouts
  import opened DataLayouts
  import opened Constants
  import BS = BitSlices
  import ConstantConversion

  /** Constant d is what loading from position start of the memory gives: every
      data bit of d that is defined in memory has the value found there. */
  ghost predicate Loads(dl: DataLayout, m: Mem, start: int, d: Const)
    requires dl.Valid()
  {
    forall p :: DataBit(dl, TypeOf(d), p) && m(start + p).Some? ==> Image(dl, d)(p) == m(start + p)
  }

  /** For an integer: also, bits that are not defined in memory come out as zeros. */
  ghost predicate LoadsBits(dl: DataLayout, m: Mem, start: int, d: Const)
    requires dl.Valid()
  {
    Loads(dl, m, start, d) && forall p :: Image(dl, d)(p) == Some(true) ==> m(start + p) == Some(true)
  }

  /** What InterpretAsType returns.  Wherever the requested type, or a component of
      it, is the constant's own type, the constant itself is used as it stands,
      whatever the offset; integers are loaded; aggregates go element by element. */
  ghost predicate Interpreted(dl: DataLayout, c: Const, ty: Ty, start: int, d: Const)
    requires dl.Valid()
    decreases ty
  {
    && TypeOf(d) == ty && WellTyped(d)
    && if TypeOf(c) == ty then d == c
       else if ty.IntTy? then LoadsBits(dl, Image(dl, c), start, d)
       else forall i: nat :: i < NumElts(ty) ==>
              Interpreted(dl, c, Elt(ty, i), start + EltOffset(dl, ty, i), ExtractValue(d, i))
  }

  /** Some data bit of a value of type cty, placed so that its start is the given
      distance into a value of the known type, lies on one of that value's. */
  ghost predicate Clashes(dl: DataLayout, known: Ty, cty: Ty, distance: int)
    requires dl.Valid()
  {
    distance != 0 && exists p :: DataBit(dl, cty, p) && DataBit(dl, known, p + distance)
  }

  /** No component of ty has the constant's type cty at a place where the constant,
      used as it stands, would sit shifted over known bits. */
  ghost predicate Undisturbed(dl: DataLayout, known: Ty, cty: Ty, ty: Ty, start: int)
    requires dl.Valid()
    decreases ty
  {
    if cty == ty then !Clashes(dl, known, cty, start)
    else forall i: nat :: i < NumElts(ty) ==>
           Undisturbed(dl, known, cty, Elt(ty, i), start + EltOffset(dl, ty, i))
  }

  /** ... over its own bits. */
  ghost predicate Unshifted(dl: DataLayout, cty: Ty, ty: Ty, start: int)
    requires dl.Valid()
  {
    Undisturbed(dl, cty, cty, ty, start)
  }

  /** In particular every load from within the constant is fine. */
  lemma {:induction false} InBoundsUndisturbed(dl: DataLayout, known: Ty, cty: Ty, ty: Ty, start: int)
    requires dl.Valid() && 0 <= start && start + StoreBits(dl, ty) <= StoreBits(dl, cty)
    ensures Undisturbed(dl, known, cty, ty, start)
    decreases ty
  {
    hide StoreBytes;
    hide Offset;
    hide DataBit;
    hide AllocBytes;
    hide EltOffset;
    if cty == ty {
      assert start == 0;
    } else {
      forall i: nat | i < NumElts(ty)
        ensures Undisturbed(dl, known, cty, Elt(ty, i), start + EltOffset(dl, ty, i))
      {
        EltsOrdered(dl, ty, i, i + 1);
        InBoundsUndisturbed(dl, known, cty, Elt(ty, i), start + EltOffset(dl, ty, i));
      }
    }
  }

  lemma InBoundsUnshifted(dl: DataLayout, cty: Ty, ty: Ty, start: int)
    requires dl.Valid() && 0 <= start && start + StoreBits(dl, ty) <= StoreBits(dl, cty)
    ensures Unshifted(dl, cty, ty, start)
  {
    InBoundsUndisturbed(dl, cty, cty, ty, start);
  }

  lemma LoadsAggregate(dl: DataLayout, m: Mem, start: int, d: Const)
    requires dl.Valid() && WellTyped(d) && !TypeOf(d).IntTy?
    requires forall i: nat :: i < NumElts(TypeOf(d)) ==>
               Loads(dl, m, start + EltOffset(dl, TypeOf(d), i), ExtractValue(d, i))
    ensures Loads(dl, m, start, d)
  {
    hide DataBit;
    hide EltOffset;
    hide CoveringElt;
    hide StoreBytes;
    hide Offset;
    hide Image;
    var ty := TypeOf(d);
    forall p | DataBit(dl, ty, p) && m(start + p).Some? ensures Image(dl, d)(p) == m(start + p) {
      DataBitCovered(dl, ty, p);
      var i := CoveringElt(dl, ty, p).value;
      ImageOfElement(dl, d, i, p);
      ExtractValueType(d, i);
      LoadsAt(dl, m, start + EltOffset(dl, ty, i), ExtractValue(d, i), p - EltOffset(dl, ty, i));
    }
  }

  lemma LoadsAt(dl: DataLayout, m: Mem, start: int, d: Const, p: int)
    requires dl.Valid() && Loads(dl, m, start, d) && DataBit(dl, TypeOf(d), p) && m(start + p).Some?
    ensures Image(dl, d)(p) == m(start + p)
  {}

  /** The memory holds nothing but bits of the constant that are data bits of the
      known type. */
  ghost predicate Reflects(dl: DataLayout, m: Mem, known: Ty, c: Const)
    requires dl.Valid()
  {
    forall p :: m(p).Some? ==> DataBit(dl, known, p) && Image(dl, c)(p) == m(p)
  }

  lemma ImageReflects(dl: DataLayout, c: Const)
    requires dl.Valid() && WellTyped(c)
    ensures Reflects(dl, Image(dl, c), TypeOf(c), c)
  {
    hide DataBit;
    hide Image;
    forall p | Image(dl, c)(p).Some? ensures DataBit(dl, TypeOf(c), p) { ImageIsData(dl, c, p); }
  }

  lemma LoadsFromReflection(dl: DataLayout, m: Mem, known: Ty, c: Const, start: int, d: Const)
    requires dl.Valid() && Reflects(dl, m, known, c) && Loads(dl, Image(dl, c), start, d)
    ensures Loads(dl, m, start, d)
  {
    hide DataBit;
    hide Image;
  }

  lemma UsedAsItStands(dl: DataLayout, m: Mem, known: Ty, c: Const, start: int)
    requires dl.Valid() && Reflects(dl, m, known, c) && !Clashes(dl, known, TypeOf(c), start)
    ensures Loads(dl, m, start, c)
  {
    hide DataBit;
    hide Image;
    forall p | DataBit(dl, TypeOf(c), p) && m(start + p).Some? ensures Image(dl, c)(p) == m(start + p) {
      assert DataBit(dl, known, p + start);
    }
  }

  /** Store then load: what InterpretAsType returns agrees with what is known of the
      constant's image in memory, when nothing is used shifted over known bits. */
  lemma {:induction false} InterpretedLoads(dl: DataLayout, m: Mem, known: Ty, c: Const, ty: Ty, start: int, d: Const)
    requires dl.Valid() && Reflects(dl, m, known, c) && Interpreted(dl, c, ty, start, d)
    requires Undisturbed(dl, known, TypeOf(c), ty, start)
    ensures Loads(dl, m, start, d)
    decreases ty
  {
    hide Loads;
    hide Reflects;
    hide EltOffset;
    hide Clashes;
    hide Image;
    hide DataBit;
    if TypeOf(c) == ty {
      UsedAsItStands(dl, m, known, c, start);
    } else if ty.IntTy? {
      LoadsFromReflection(dl, m, known, c, start, d);
    } else {
      forall i: nat | i < NumElts(ty)
        ensures Loads(dl, m, start + EltOffset(dl, ty, i), ExtractValue(d, i))
      {
        InterpretedLoads(dl, m, known, c, Elt(ty, i), start + EltOffset(dl, ty, i), ExtractValue(d, i));
      }
      LoadsAggregate(dl, m, start, d);
    }
  }

  lemma StoreThenLoad(dl: DataLayout, c: Const, ty: Ty, start: int, d: Const)
    requires dl.Valid() && WellTyped(c) && Interpreted(dl, c, ty, start, d)
    requires Unshifted(dl, TypeOf(c), ty, start)
    ensures Loads(dl, Image(dl, c), start, d)
  {
    ImageReflects(dl, c);
    InterpretedLoads(dl, Image(dl, c), TypeOf(c), c, ty, start, d);
  }

  // ---------- the converse ----------

  /** The aggregate that is zero but for one element. */
  function NullBut(ty: Ty, i: nat, e: Const): Const
    requires i < NumElts(ty)
  {
    match ty
    case ArrayTy(elem, count) => CArray(elem, seq(count, j => if i == j then e else NullValue(elem)))
    case StructTy(fields, packed) =>
      CStruct(seq(|fields|, j requires 0 <= j < |fields| => if i == j then e else NullValue(fields[j])), packed)
  }

  lemma NullButType(ty: Ty, i: nat, e: Const)
    requires WellFormedTy(ty) && i < NumElts(ty) && TypeOf(e) == Elt(ty, i) && WellTyped(e)
    ensures TypeOf(NullBut(ty, i, e)) == ty && WellTyped(NullBut(ty, i, e))
  {
    forall j: nat | j < NumElts(ty)
      ensures TypeOf(NullValue(Elt(ty, j))) == Elt(ty, j) && WellTyped(NullValue(Elt(ty, j)))
    {
      NullValueType(Elt(ty, j));
    }
    match ty
    case ArrayTy(elem, _) => assert elem == Elt(ty, i);
    case StructTy(fields, _) =>
      assert forall j: nat :: j < |fields| ==> fields[j] == Elt(ty, j);
  }

  lemma NullButElement(ty: Ty, i: nat, e: Const, j: nat)
    requires i < NumElts(ty) && j < NumElts(ty)
    ensures NumElts(TypeOf(NullBut(ty, i, e))) == NumElts(ty)
    ensures ExtractValue(NullBut(ty, i, e), j) == if i == j then e else NullValue(Elt(ty, j))
  {}

  /** The constant of the given type whose only set bit is data bit p. */
  ghost function OneBit(dl: DataLayout, ty: Ty, p: int): Const
    requires dl.Valid()
    decreases ty
  {
    if ty.IntTy? then
      var first := IntFirst(dl, ty.bits);
      CInt(ty.bits, if first <= p < first + ty.bits then Pow2(BitIndex(dl, first, first + ty.bits, p)) else 0)
    else
      match CoveringElt(dl, ty, p)
      case None => NullValue(ty)
      case Some(i) => NullBut(ty, i, OneBit(dl, Elt(ty, i), p - EltOffset(dl, ty, i)))
  }

  lemma Pow2Bits(k: nat, j: nat)
    ensures Bit(Pow2(k), j) == (j == k)
  {
    BitShift(1, k, j);
    if j > k { BitHigh(1, 1, j - k); }
  }

  lemma {:induction false} OneBitType(dl: DataLayout, ty: Ty, p: int)
    requires dl.Valid() && WellFormedTy(ty) && DataBit(dl, ty, p)
    ensures TypeOf(OneBit(dl, ty, p)) == ty && WellTyped(OneBit(dl, ty, p))
    decreases ty
  {
    hide StoreBytes;
    hide Offset;
    hide WellTyped;
    hide DataBit;
    hide CoveringElt;
    hide EltOffset;
    hide NullBut;
    if ty.IntTy? {
      OneBitInt(dl, ty.bits, p);
    } else {
      DataBitCovered(dl, ty, p);
      var i := CoveringElt(dl, ty, p).value;
      OneBitType(dl, Elt(ty, i), p - EltOffset(dl, ty, i));
      NullButType(ty, i, OneBit(dl, Elt(ty, i), p - EltOffset(dl, ty, i)));
    }
  }

  lemma OneBitInt(dl: DataLayout, bits: nat, p: int)
    requires dl.Valid() && WellFormedTy(IntTy(bits)) && DataBit(dl, IntTy(bits), p)
    ensures TypeOf(OneBit(dl, IntTy(bits), p)) == IntTy(bits) && WellTyped(OneBit(dl, IntTy(bits), p))
  {
    hide StoreBytes;
    Pow2Mono(BitIndex(dl, IntFirst(dl, bits), IntFirst(dl, bits) + bits, p) + 1, bits);
  }

  lemma {:induction false} OneBitImage(dl: DataLayout, ty: Ty, p: int, q: int)
    requires dl.Valid() && WellFormedTy(ty) && DataBit(dl, ty, p) && DataBit(dl, ty, q)
    ensures Image(dl, OneBit(dl, ty, p))(q) == Some(q == p)
    decreases ty
  {
    hide StoreBytes;
    hide Offset;
    hide DataBit;
    hide Image;
    hide CoveringElt;
    hide EltOffset;
    if ty.IntTy? {
      OneBitIntImage(dl, ty.bits, p, q);
    } else {
      DataBitCovered(dl, ty, q);
      OneBitElementImage(dl, ty, p, q, CoveringElt(dl, ty, q).value);
    }
  }

  lemma OneBitIntImage(dl: DataLayout, bits: nat, p: int, q: int)
    requires dl.Valid() && DataBit(dl, IntTy(bits), p) && DataBit(dl, IntTy(bits), q)
    ensures Image(dl, OneBit(dl, IntTy(bits), p))(q) == Some(q == p)
  {
    hide StoreBytes;
    hide Bit;
    var first := IntFirst(dl, bits);
    Pow2Bits(BitIndex(dl, first, first + bits, p), BitIndex(dl, first, first + bits, q));
    IntImage(dl, bits, Pow2(BitIndex(dl, first, first + bits, p)), q);
  }

  lemma {:induction false} OneBitElementImage(dl: DataLayout, ty: Ty, p: int, q: int, j: nat)
    requires dl.Valid() && WellFormedTy(ty) && DataBit(dl, ty, p) && Covers(dl, ty, j, q) && !ty.IntTy?
    requires DataBit(dl, Elt(ty, j), q - EltOffset(dl, ty, j))
    ensures Image(dl, OneBit(dl, ty, p))(q) == Some(q == p)
    decreases ty, 0
  {
    hide DataBit;
    hide EltOffset;
    hide StoreBytes;
    hide Offset;
    hide Image;
    hide NullBut;
    hide CoveringElt;
    OneBitType(dl, ty, p);
    ImageOfElement(dl, OneBit(dl, ty, p), j, q);
    DataBitCovered(dl, ty, p);
    var i := CoveringElt(dl, ty, p).value;
    NullButElement(ty, i, OneBit(dl, Elt(ty, i), p - EltOffset(dl, ty, i)), j);
    if i == j {
      OneBitImage(dl, Elt(ty, j), p - EltOffset(dl, ty, j), q - EltOffset(dl, ty, j));
    } else {
      NullValueBits(dl, Elt(ty, j), q - EltOffset(dl, ty, j));
      if p == q { CoversUnique(dl, ty, i, j, p); }
    }
  }

  /** Conversely, where a component would be used shifted over its own bits there
      is a constant for which the result disagrees with memory. */
  lemma {:induction false} ShiftedDisagrees(dl: DataLayout, cty: Ty, ty: Ty, start: int) returns (c: Const)
    requires dl.Valid() && WellFormedTy(cty) && WellFormedTy(ty) && !Unshifted(dl, cty, ty, start)
    ensures WellTyped(c) && TypeOf(c) == cty
    ensures forall d :: Interpreted(dl, c, ty, start, d) ==> !Loads(dl, Image(dl, c), start, d)
    decreases ty
  {
    hide EltOffset;
    hide StoreBytes;
    hide Offset;
    hide Image;
    hide DataBit;
    if cty == ty {
      var p :| DataBit(dl, ty, p) && DataBit(dl, ty, p + start);
      c := OneBit(dl, ty, p + start);
      OneBitType(dl, ty, p + start);
      OneBitImage(dl, ty, p + start, p);
      OneBitImage(dl, ty, p + start, p + start);
      assert Image(dl, c)(start + p).Some?;
    } else {
      var i: nat :| i < NumElts(ty) && !Undisturbed(dl, cty, cty, Elt(ty, i), start + EltOffset(dl, ty, i));
      c := ShiftedDisagrees(dl, cty, Elt(ty, i), start + EltOffset(dl, ty, i));
      forall d | Interpreted(dl, c, ty, start, d) ensures !Loads(dl, Image(dl, c), start, d) {
        ElementDisagrees(dl, Image(dl, c), ty, start, d, i);
      }
    }
  }

  lemma Disagreement(dl: DataLayout, m: Mem, start: int, d: Const) returns (p: int)
    requires dl.Valid() && !Loads(dl, m, start, d)
    ensures DataBit(dl, TypeOf(d), p) && m(start + p).Some? && Image(dl, d)(p) != m(start + p)
  {
    hide Image;
    hide DataBit;
    p :| DataBit(dl, TypeOf(d), p) && m(start + p).Some? && Image(dl, d)(p) != m(start + p);
  }

  lemma ElementDisagrees(dl: DataLayout, m: Mem, ty: Ty, start: int, d: Const, i: nat)
    requires dl.Valid() && WellTyped(d) && TypeOf(d) == ty && i < NumElts(ty)
    requires !Loads(dl, m, start + EltOffset(dl, ty, i), ExtractValue(d, i))
    ensures !Loads(dl, m, start, d)
  {
    hide DataBit;
    hide EltOffset;
    hide CoveringElt;
    hide StoreBytes;
    hide Offset;
    hide Image;
    var off := EltOffset(dl, ty, i);
    ExtractValueType(d, i);
    var e := ExtractValue(d, i);
    var q := Disagreement(dl, m, start + off, e);
    DataBitInStore(dl, Elt(ty, i), q);
    assert Covers(dl, ty, i, off + q);
    DataBitOfElement(dl, ty, i, off + q);
    ImageOfElement(dl, d, i, off + q);
    assert start + (off + q) == start + off + q;
    if Loads(dl, m, start, d) {
      LoadsAt(dl, m, start, d, off + q);
    }
  }

  // ---------- the program ----------

  lemma UndefInterpreted(dl: DataLayout, cty: Ty, ty: Ty, start: int)
    requires dl.Valid() && WellFormedTy(cty) && WellFormedTy(ty)
    ensures Interpreted(dl, CUndef(cty), ty, start, CUndef(ty))
    decreases ty
  {
    hide StoreBytes;
    hide Offset;
    if cty != ty {
      forall i: nat | i < NumElts(ty)
        ensures Interpreted(dl, CUndef(cty), Elt(ty, i), start + EltOffset(dl, ty, i), CUndef(Elt(ty, i)))
      {
        UndefInterpreted(dl, cty, Elt(ty, i), start + EltOffset(dl, ty, i));
      }
    }
  }

  lemma {:induction false} NullIsUnique(c: Const)
    requires WellTyped(c) && IsNullValue(c)
    ensures c == NullValue(TypeOf(c))
  {
    match c
    case CInt(_, _) =>
    case CArray(_, elts) =>
      forall i | 0 <= i < |elts| ensures elts[i] == NullValue(TypeOf(elts[i])) { NullIsUnique(elts[i]); }
    case CStruct(fields, _) =>
      forall i | 0 <= i < |fields| ensures fields[i] == NullValue(TypeOf(fields[i])) { NullIsUnique(fields[i]); }
    case CUndef(_) =>
  }

  lemma NullLoads(dl: DataLayout, c: Const, ty: Ty, start: int)
    requires dl.Valid() && WellTyped(c) && IsNullValue(c) && WellFormedTy(ty) && TypeOf(NullValue(ty)) == ty
    requires ty.IntTy?
    ensures LoadsBits(dl, Image(dl, c), start, NullValue(ty))
  {
    forall p ensures Image(dl, NullValue(ty))(p) != Some(true) { IsNullValueBits(dl, NullValue(ty), p); }
    forall q ensures Image(dl, c)(q) != Some(true) { IsNullValueBits(dl, c, q); }
    forall p | DataBit(dl, ty, p) ensures Image(dl, NullValue(ty))(p) == Some(false) { NullValueBits(dl, ty, p); }
    ZeroLoads(dl, Image(dl, c), start, NullValue(ty));
  }

  lemma NotTrue(bit: Option<bool>)
    requires bit.Some? && bit != Some(true)
    ensures bit == Some(false)
  {
    var b := bit.value;
    assert bit == Some(b);
  }

  lemma ZeroLoads(dl: DataLayout, m: Mem, start: int, d: Const)
    requires dl.Valid()
    requires forall q :: m(q) != Some(true)
    requires forall p :: DataBit(dl, TypeOf(d), p) ==> Image(dl, d)(p) == Some(false)
    ensures Loads(dl, m, start, d)
  {
    forall p | DataBit(dl, TypeOf(d), p) && m(start + p).Some? ensures m(start + p) == Some(false) {
      NotTrue(m(start + p));
    }
  }

  lemma {:induction false} NullInterpreted(dl: DataLayout, c: Const, ty: Ty, start: int)
    requires dl.Valid() && WellTyped(c) && IsNullValue(c) && WellFormedTy(ty)
    ensures Interpreted(dl, c, ty, start, NullValue(ty))
    decreases ty
  {
    hide DataBit;
    hide EltOffset;
    hide Loads;
    hide Image;
    NullValueType(ty);
    if TypeOf(c) == ty {
      NullIsUnique(c);
    } else if ty.IntTy? {
      NullLoads(dl, c, ty, start);
    } else {
      forall i: nat | i < NumElts(ty)
        ensures Interpreted(dl, c, Elt(ty, i), start + EltOffset(dl, ty, i), ExtractValue(NullValue(ty), i))
      {
        NullValueElement(ty, i);
        NullInterpreted(dl, c, Elt(ty, i), start + EltOffset(dl, ty, i));
      }
    }
  }

  lemma LoadedInt(dl: DataLayout, c: Const, start: int, width: nat, bits: BS.BitSlice, d: Const)
    requires dl.Valid() && WellTyped(c) && width >= 1
    requires ConstantConversion.Views(dl, Image(dl, c), StoreBits(dl, TypeOf(c)),
                                      Range(start, start + StoreBits(dl, IntTy(width))), bits)
    requires var first := IntFirst(dl, width);
             d == BS.GetBits(dl, BS.Displace(dl, bits, -start), Range(first, first + width))
    ensures TypeOf(d) == IntTy(width) && WellTyped(d) && LoadsBits(dl, Image(dl, c), start, d)
  {
    hide StoreBytes;
    hide Image;
    hide DataBit;
    hide IntFirst;
    hide BS.SliceBit;
    hide ConstantConversion.Views;
    hide BS.GetBits;
    forall p | DataBit(dl, IntTy(width), p) && Image(dl, c)(start + p).Some?
      ensures Image(dl, d)(p) == Image(dl, c)(start + p)
    {
      LoadedBit(dl, Image(dl, c), StoreBits(dl, TypeOf(c)), start, width, bits, d, p);
    }
    forall p | Image(dl, d)(p) == Some(true) ensures Image(dl, c)(start + p) == Some(true) {
      LoadedOne(dl, Image(dl, c), StoreBits(dl, TypeOf(c)), start, width, bits, d, p);
    }
  }

  lemma LoadedOne(dl: DataLayout, m: Mem, size: nat, start: int, width: nat, bits: BS.BitSlice, d: Const, p: int)
    requires dl.Valid() && width >= 1
    requires ConstantConversion.Views(dl, m, size, Range(start, start + StoreBits(dl, IntTy(width))), bits)
    requires var first := IntFirst(dl, width);
             d == BS.GetBits(dl, BS.Displace(dl, bits, -start), Range(first, first + width))
    requires Image(dl, d)(p) == Some(true)
    ensures m(start + p) == Some(true)
  {
    hide StoreBytes;
    hide Image;
    var moved := BS.Displace(dl, bits, -start);
    if d.CUndef? {
      UndefStoresNothing(dl, d.ty, p);
    } else {
      IntIsData(dl, width, d.value, p);
      IntImage(dl, width, d.value, p);
      assert BS.SliceBit(dl, moved, p) && BS.SliceBit(dl, bits, p + start);
    }
  }

  lemma LoadedBit(dl: DataLayout, m: Mem, size: nat, start: int, width: nat, bits: BS.BitSlice, d: Const, p: int)
    requires dl.Valid() && width >= 1 && DataBit(dl, IntTy(width), p) && m(start + p).Some?
    requires ConstantConversion.Views(dl, m, size, Range(start, start + StoreBits(dl, IntTy(width))), bits)
    requires var first := IntFirst(dl, width);
             d == BS.GetBits(dl, BS.Displace(dl, bits, -start), Range(first, first + width))
    ensures Image(dl, d)(p) == m(start + p)
  {
    hide StoreBytes;
    hide IntFirst;
    hide Image;
    var moved := BS.Displace(dl, bits, -start);
    DataBitInStore(dl, IntTy(width), p);
    assert Range(start, start + StoreBits(dl, IntTy(width))).Has(start + p);
    assert bits.range.Has(start + p) && moved.range.Has(p);
    IntImage(dl, width, d.value, p);
  }

  lemma IntImage(dl: DataLayout, bits: nat, value: nat, p: int)
    requires dl.Valid() && DataBit(dl, IntTy(bits), p)
    ensures Image(dl, CInt(bits, value))(p) ==
            Some(Bit(value, BitIndex(dl, IntFirst(dl, bits), IntFirst(dl, bits) + bits, p)))
  {}

  method InterpretAsType(dl: DataLayout, c: Const, ty: Ty, start: int) returns (d: Const)
    requires dl.Valid() && WellTyped(c) && WellFormedTy(ty)
    ensures Interpreted(dl, c, ty, start, d) && (c.CUndef? ==> d == CUndef(ty))
    ensures Unshifted(dl, TypeOf(c), ty, start) ==> Loads(dl, Image(dl, c), start, d)
    decreases ty
  {
    // Efficient handling for some common cases.
    if TypeOf(c) == ty {
      d := c;
    } else if c.CUndef? {
      UndefInterpreted(dl, c.ty, ty, start);
      d := CUndef(ty);
    } else if IsNullValue(c) {
      NullInterpreted(dl, c, ty, start);
      d := NullValue(ty);
    } else {
      match ty
      case IntTy(width) =>
        d := LoadInteger(dl, c, width, start);
      case _ =>
        d := InterpretElements(dl, c, ty, start);
    }
    if Unshifted(dl, TypeOf(c), ty, start) { StoreThenLoad(dl, c, ty, start, d); }
  }

  method LoadInteger(dl: DataLayout, c: Const, width: nat, start: int) returns (d: Const)
    requires dl.Valid() && WellTyped(c) && width >= 1
    ensures TypeOf(d) == IntTy(width) && WellTyped(d) && LoadsBits(dl, Image(dl, c), start, d)
  {
    hide Image;
    hide DataBit;
    hide Loads;
    hide StoreBytes;
    hide WellTyped;
    var storeSize: int := StoreBits(dl, IntTy(width));
    var bits := ConstantConversion.ViewAsBits(dl, c, Range(start, start + storeSize));
    ghost var viewed := bits;
    bits := BS.Displace(dl, bits, -start);
    d := if dl.bigEndian
         then BS.GetBits(dl, bits, Range(storeSize - width, storeSize))
         else BS.GetBits(dl, bits, Range(0, width));
    LoadedInt(dl, c, start, width, viewed, d);
  }

  method InterpretElements(dl: DataLayout, c: Const, ty: Ty, start: int) returns (d: Const)
    requires dl.Valid() && WellTyped(c) && WellFormedTy(ty) && !ty.IntTy? && TypeOf(c) != ty
    ensures Interpreted(dl, c, ty, start, d)
    decreases ty, 0
  {
    hide Undisturbed;
    hide Loads;
    hide EltOffset;
    hide Image;
    var vals := [];
    for i := 0 to NumElts(ty)
      invariant |vals| == i
      invariant forall j: nat :: j < i ==>
                  Interpreted(dl, c, Elt(ty, j), start + EltOffset(dl, ty, j), vals[j])
    {
      var val := InterpretAsType(dl, c, Elt(ty, i), start + EltOffset(dl, ty, i));
      vals := vals + [val];
    }
    match ty
    case ArrayTy(elem, _) => d := CArray(elem, vals);
    case StructTy(_, packed) => d := CStruct(vals, packed);
    InterpretedElements(dl, c, ty, start, vals, d);
  }

  lemma InterpretedElements(dl: DataLayout, c: Const, ty: Ty, start: int, vals: seq<Const>, d: Const)
    requires dl.Valid() && WellFormedTy(ty) && !ty.IntTy? && TypeOf(c) != ty && |vals| == NumElts(ty)
    requires forall j: nat :: j < |vals| ==>
               Interpreted(dl, c, Elt(ty, j), start + EltOffset(dl, ty, j), vals[j])
    requires d == if ty.ArrayTy? then CArray(ty.elem, vals) else CStruct(vals, ty.packed)
    ensures Interpreted(dl, c, ty, start, d)
  {
    hide Loads;
    hide EltOffset;
    hide Image;
    Assembled(ty, vals, d);
  }

  lemma Assembled(ty: Ty, vals: seq<Const>, d: Const)
    requires WellFormedTy(ty) && !ty.IntTy? && |vals| == NumElts(ty)
    requires forall j: nat :: j < |vals| ==> TypeOf(vals[j]) == Elt(ty, j) && WellTyped(vals[j])
    requires d == if ty.ArrayTy? then CArray(ty.elem, vals) else CStruct(vals, ty.packed)
    ensures TypeOf(d) == ty && WellTyped(d)
    ensures forall j: nat :: j < |vals| ==> ExtractValue(d, j) == vals[j]
  {
    if ty.StructTy? {
      assert forall j: nat :: j < |vals| ==> TypeOf(vals[j]) == ty.fields[j];
    }
  }

  // ---------- registers ----------

  /** An integral type: the number of bits of its values, and the size of the
      machine mode that holds them in memory. */
  datatype IntegralType = IntegralType(precision: nat, modeBits: nat, signed: bool)

  predicate ValidIntegral(t: IntegralType) {
    0 < t.precision <= t.modeBits && t.modeBits % 8 == 0
  }

  function TruncOrBitCast(c: Const, width: nat): Const
    requires c.CInt? || (c.CUndef? && c.ty.IntTy?)
  {
    if c.CInt? then CInt(width, Trunc(c.value, width)) else CUndef(IntTy(width))
  }

  /** The value of a register extended to the size of its mode. */
  function Extend(t: IntegralType, value: nat): (r: nat)
    requires ValidIntegral(t) && value < Pow2(t.precision)
    ensures r < Pow2(t.modeBits) && Trunc(r, t.precision) == value
  {
    Pow2Mono(t.precision, t.modeBits);
    TruncId(value, t.precision);
    TruncSExt(value, t.precision, t.modeBits);
    if t.signed then SExt(value, t.precision, t.modeBits) else value
  }

  /** Memory types without padding, such as an integer of the mode's size or an
      array of that many bytes. */
  ghost predicate Dense(dl: DataLayout, ty: Ty, bits: nat)
    requires dl.Valid()
  {
    StoreBits(dl, ty) == bits && forall p :: 0 <= p < bits ==> DataBit(dl, ty, p)
  }

  lemma IntDense(dl: DataLayout, bits: nat)
    requires dl.Valid() && bits % 8 == 0
    ensures Dense(dl, IntTy(bits), bits)
  {}

  lemma BytesDense(dl: DataLayout, n: nat)
    requires dl.Valid() && dl.intAlign(8) == 1
    ensures Dense(dl, ArrayTy(IntTy(8), n), 8 * n)
  {
    var ty := ArrayTy(IntTy(8), n);
    assert AllocBytes(dl, IntTy(8)) == 1 by { RoundUpIs(1, 1, 1); }
    forall p | 0 <= p < 8 * n ensures DataBit(dl, ty, p) {
      var i: nat := p / 8;
      assert EltOffset(dl, ty, i) == i * 8;
      assert Covers(dl, ty, i, p);
      DataBitOfElement(dl, ty, i, p);
    }
  }

  /** Reading memory back as the type it was stored from gives the value. */
  lemma LoadedIsStored(dl: DataLayout, width: nat, v: nat, m: Mem, d: Const)
    requires dl.Valid() && width >= 1 && v < Pow2(width)
    requires TypeOf(d) == IntTy(width) && WellTyped(d) && Loads(dl, m, 0, d)
    requires forall p :: DataBit(dl, IntTy(width), p) ==> m(p) == Image(dl, CInt(width, v))(p)
    ensures d == CInt(width, v)
  {
    hide Image;
    var first := IntFirst(dl, width);
    StoredBit(dl, width, v, m, d, first);
    forall k: nat | k < width ensures Bit(d.value, k) == Bit(v, k) {
      StoredBit(dl, width, v, m, d, if dl.bigEndian then first + width - 1 - k else first + k);
    }
    BitsDetermine(d.value, v, width);
  }

  lemma StoredBit(dl: DataLayout, width: nat, v: nat, m: Mem, d: Const, p: int)
    requires dl.Valid() && TypeOf(d) == IntTy(width) && WellTyped(d) && Loads(dl, m, 0, d)
    requires IntFirst(dl, width) <= p < IntFirst(dl, width) + width
    requires m(p) == Image(dl, CInt(width, v))(p)
    ensures d.CInt?
    ensures var k := BitIndex(dl, IntFirst(dl, width), IntFirst(dl, width) + width, p);
            Bit(d.value, k) == Bit(v, k)
  {
    assert m(0 + p) == m(p);
    IntImage(dl, width, v, p);
    LoadsAt(dl, m, 0, d, p);
    if d.CUndef? {
      UndefStoresNothing(dl, IntTy(width), p);
    } else {
      IntImage(dl, width, d.value, p);
    }
  }

  lemma DenseKeepsAll(dl: DataLayout, m: Mem, size: nat, d: Const)
    requires dl.Valid() && WellTyped(d) && Dense(dl, TypeOf(d), size) && Loads(dl, m, 0, d)
    ensures forall p :: 0 <= p < size && m(p).Some? ==> Image(dl, d)(p) == m(p)
  {
    hide Image;
    hide DataBit;
    forall p | 0 <= p < size && m(p).Some? ensures Image(dl, d)(p) == m(p) {
      assert m(0 + p) == m(p);
      LoadsAt(dl, m, 0, d, p);
    }
  }

  /** Extension to the mode's size.  Extending an undefined value gives zero, as the
      top bits of the result are all the same; an integer that has the mode's size
      already stays what it is. */
  function ExtendOrBitCast(t: IntegralType, c: Const): (e: Const)
    requires ValidIntegral(t) && WellTyped(c) && TypeOf(c) == IntTy(t.precision)
    ensures TypeOf(e) == IntTy(t.modeBits) && WellTyped(e)
  {
    if c.CInt? then ExtendFits(t, c.value); CInt(t.modeBits, Extend(t, c.value))
    else if t.precision == t.modeBits then c
    else Pow2Mono(0, t.modeBits); CInt(t.modeBits, 0)
  }

  lemma ExtendFits(t: IntegralType, value: nat)
    requires ValidIntegral(t) && value < Pow2(t.precision)
    ensures Extend(t, value) < Pow2(t.modeBits)
  {}

  /** What the register value found at a byte of a constant may be: an integer of the
      mode's size is loaded and truncated to the precision; nothing defined is found
      in an undefined constant. */
  ghost predicate Extracted(dl: DataLayout, c: Const, t: IntegralType, startingByte: int, r: Const)
    requires dl.Valid()
  {
    exists loaded :: Loaded(dl, c, t, startingByte, loaded) && r == TruncOrBitCast(loaded, t.precision)
  }

  ghost predicate Loaded(dl: DataLayout, c: Const, t: IntegralType, startingByte: int, loaded: Const)
    requires dl.Valid()
  {
    && Interpreted(dl, c, IntTy(t.modeBits), startingByte * 8, loaded)
    && TypeOf(loaded) == IntTy(t.modeBits) && WellTyped(loaded) && (c.CUndef? ==> loaded.CUndef?)
  }

  /** Extracting a register from the memory representation of a defined value gives
      the value back. */
  lemma DefinedRoundTrip(dl: DataLayout, t: IntegralType, value: nat, memTy: Ty, result: Const, loaded: Const)
    requires dl.Valid() && ValidIntegral(t) && value < Pow2(t.precision)
    requires Dense(dl, memTy, t.modeBits)
    requires Interpreted(dl, CInt(t.modeBits, Extend(t, value)), memTy, 0, result)
    requires Interpreted(dl, result, IntTy(t.modeBits), 0, loaded)
    ensures loaded == CInt(t.modeBits, Extend(t, value))
    ensures TruncOrBitCast(loaded, t.precision) == CInt(t.precision, value)
  {
    hide Image;
    hide DataBit;
    var stored := CInt(t.modeBits, Extend(t, value));
    IntDense(dl, t.modeBits);
    InBoundsUnshifted(dl, TypeOf(stored), memTy, 0);
    StoreThenLoad(dl, stored, memTy, 0, result);
    DenseKeepsAll(dl, Image(dl, stored), t.modeBits, result);
    InBoundsUnshifted(dl, memTy, IntTy(t.modeBits), 0);
    StoreThenLoad(dl, result, IntTy(t.modeBits), 0, loaded);
    forall p | DataBit(dl, IntTy(t.modeBits), p) ensures Image(dl, result)(p) == Image(dl, stored)(p) {
      DataBitInStore(dl, IntTy(t.modeBits), p);
      IntImage(dl, t.modeBits, Extend(t, value), p);
    }
    LoadedIsStored(dl, t.modeBits, Extend(t, value), Image(dl, result), loaded);
  }

  /** What is found in memory is the value with zeros above it if the type is unsigned,
      and else with its highest bit repeated. */
  ghost predicate WidenedTo(t: IntegralType, value: nat, wide: nat) {
    && (forall k: nat :: k < t.precision ==> Bit(wide, k) == Bit(value, k))
    && (forall k: nat :: t.precision <= k ==>
          Bit(wide, k) == (t.signed && k < t.modeBits && t.precision > 0 && Bit(value, t.precision - 1)))
  }

  lemma ExtendedBits(t: IntegralType, value: nat)
    requires ValidIntegral(t) && value < Pow2(t.precision)
    ensures WidenedTo(t, value, Extend(t, value))
  {
    hide Bit;
    hide SExt;
    forall k: nat
      ensures k < t.precision ==> Bit(Extend(t, value), k) == Bit(value, k)
      ensures t.precision <= k ==>
                Bit(Extend(t, value), k) == (t.signed && k < t.modeBits && Bit(value, t.precision - 1))
    {
      if t.signed {
        BitSExt(value, t.precision, t.modeBits, k);
      } else if k >= t.precision {
        BitHigh(value, t.precision, k);
      }
    }
  }

  lemma StoredWidened(dl: DataLayout, t: IntegralType, c: Const, memTy: Ty, result: Const, loaded: Const)
    requires dl.Valid() && ValidIntegral(t) && WellTyped(c) && c.CInt? && c.bits == t.precision
    requires Dense(dl, memTy, t.modeBits) && Interpreted(dl, ExtendOrBitCast(t, c), memTy, 0, result)
    requires Loaded(dl, result, t, 0, loaded)
    ensures loaded.CInt? && WidenedTo(t, c.value, loaded.value)
  {
    hide Image;
    hide Bit;
    hide WidenedTo;
    DefinedRoundTrip(dl, t, c.value, memTy, result, loaded);
    ExtendedBits(t, c.value);
  }

  /** Extracting a register from the memory representation of a constant gives the
      constant back iff it is defined or fills the mode; otherwise it gives zero. */
  lemma RegisterRoundTrip(dl: DataLayout, t: IntegralType, c: Const, memTy: Ty, result: Const, r: Const)
    requires dl.Valid() && ValidIntegral(t) && WellTyped(c) && TypeOf(c) == IntTy(t.precision)
    requires Dense(dl, memTy, t.modeBits)
    requires Interpreted(dl, ExtendOrBitCast(t, c), memTy, 0, result)
    requires ExtendOrBitCast(t, c).CUndef? ==> result.CUndef?
    requires Extracted(dl, result, t, 0, r)
    ensures r == c <==> c.CInt? || t.precision == t.modeBits
    ensures r != c ==> r == CInt(t.precision, 0)
  {
    hide Interpreted;
    hide Dense;
    var loaded :| Loaded(dl, result, t, 0, loaded) && r == TruncOrBitCast(loaded, t.precision);
    if c.CInt? {
      DefinedRoundTrip(dl, t, c.value, memTy, result, loaded);
    } else if t.precision < t.modeBits {
      ExtendZero(t);
      DefinedRoundTrip(dl, t, 0, memTy, result, loaded);
    }
  }

  lemma ExtendZero(t: IntegralType)
    requires ValidIntegral(t)
    ensures 0 < Pow2(t.precision) && Extend(t, 0) == 0
  {
    BitZero(t.precision - 1);
  }

  /** Where bit k of an integer of the mode's size is, counted from its first byte. */
  function ModePosition(dl: DataLayout, t: IntegralType, k: nat): int {
    if dl.bigEndian then t.modeBits - 1 - k else k
  }

  lemma ModeImage(dl: DataLayout, t: IntegralType, value: nat, k: nat)
    requires dl.Valid() && ValidIntegral(t) && k < t.modeBits
    ensures DataBit(dl, IntTy(t.modeBits), ModePosition(dl, t, k))
    ensures Image(dl, CInt(t.modeBits, value))(ModePosition(dl, t, k)) == Some(Bit(value, k))
  {
    hide Bit;
  }

  /** Every bit of the register is the one that memory has, from the given byte on, at
      its place in an integer of the mode's size. */
  lemma RegisterRead(dl: DataLayout, c: Const, t: IntegralType, startingByte: int, r: Const, k: nat)
    requires dl.Valid() && ValidIntegral(t) && WellTyped(c) && Extracted(dl, c, t, startingByte, r)
    requires Unshifted(dl, TypeOf(c), IntTy(t.modeBits), 8 * startingByte) && k < t.precision
    ensures var p := 8 * startingByte + ModePosition(dl, t, k);
            Image(dl, c)(p).Some? ==> r.CInt? && Image(dl, c)(p) == Some(Bit(r.value, k))
  {
    hide Interpreted;
    hide Unshifted;
    hide Image;
    hide DataBit;
    hide Bit;
    hide Trunc;
    var loaded :| Loaded(dl, c, t, startingByte, loaded) && r == TruncOrBitCast(loaded, t.precision);
    StoreThenLoad(dl, c, IntTy(t.modeBits), 8 * startingByte, loaded);
    ModeImage(dl, t, if loaded.CInt? then loaded.value else 0, k);
    if loaded.CInt? {
      BitTrunc(loaded.value, t.precision, k);
    } else {
      UndefStoresNothing(dl, IntTy(t.modeBits), ModePosition(dl, t, k));
    }
  }

  /** The register value found at a byte of a constant. */
  method ExtractRegisterFromConstant(dl: DataLayout, c: Const, t: IntegralType, startingByte: int)
    returns (r: Const)
    requires dl.Valid() && WellTyped(c) && ValidIntegral(t)
    ensures TypeOf(r) == IntTy(t.precision) && WellTyped(r)
    ensures Extracted(dl, c, t, startingByte, r)
  {
    var startingBit := startingByte * 8;
    var memory := InterpretAsType(dl, c, IntTy(t.modeBits), startingBit);
    r := TruncOrBitCast(memory, t.precision);
    assert Loaded(dl, c, t, startingByte, memory);
  }

  /** Turns a register constant into an in-memory constant of the given type. */
  method RepresentAsMemory(dl: DataLayout, c: Const, t: IntegralType, memTy: Ty) returns (result: Const)
    requires dl.Valid() && ValidIntegral(t) && WellTyped(c) && TypeOf(c) == IntTy(t.precision)
    requires WellFormedTy(memTy) && Dense(dl, memTy, t.modeBits)
    ensures TypeOf(result) == memTy && WellTyped(result)
    ensures c.CInt? ==> forall loaded :: Loaded(dl, result, t, 0, loaded) ==>
              loaded.CInt? && WidenedTo(t, c.value, loaded.value)
    ensures forall r :: Extracted(dl, result, t, 0, r) ==>
              (r == c <==> c.CInt? || t.precision == t.modeBits)
  {
    var extended := ExtendOrBitCast(t, c);
    result := InterpretAsType(dl, extended, memTy, 0);
    forall r | Extracted(dl, result, t, 0, r) ensures r == c <==> c.CInt? || t.precision == t.modeBits {
      RegisterRoundTrip(dl, t, c, memTy, result, r);
    }
    if c.CInt? {
      forall loaded | Loaded(dl, result, t, 0, loaded) ensures loaded.CInt? && WidenedTo(t, c.value, loaded.value) {
        StoredWidened(dl, t, c, memTy, result, loaded);
      }
    }
    // What the program asserts here without the condition.
    var back := ExtractRegisterFromConstant(dl, result, t, 0);
    assert back == c <==> c.CInt? || t.precision == t.modeBits;
  }

  /** The program's assertion fails for an undefined boolean in a byte: it is stored
      as zero and comes back as zero. */
  method UndefinedBooleanIsZero(dl: DataLayout) returns (stored: Const, back: Const)
    requires dl.Valid()
    ensures TypeOf(stored) == IntTy(8)
    ensures back == CInt(1, 0) && back != CUndef(IntTy(1))
  {
    var t := IntegralType(1, 8, false);
    var c := CUndef(IntTy(1));
    IntDense(dl, 8);
    stored := InterpretAsType(dl, ExtendOrBitCast(t, c), IntTy(8), 0);
    back := ExtractRegisterFromConstant(dl, stored, t, 0);
    RegisterRoundTrip(dl, t, c, IntTy(8), stored, back);
  }
}
