/** Constants of integer, array and struct type, and their image in memory. */
module Constants {
  import opened Options
  import opened Bits
  import opened StructLayouts
  import opened DataLayouts

  datatype Const =
    | CInt(bits: nat, value: nat)
    | CArray(elem: Ty, elts: seq<Const>)
    | CStruct(fields: seq<Const>, packed: bool)
    | CUndef(ty: Ty)

  function TypeOf(c: Const): Ty {
    match c
    case CInt(bits, _) => IntTy(bits)
    case CArray(elem, elts) => ArrayTy(elem, |elts|)
    case CStruct(fields, packed) => StructTy(seq(|fields|, i requires 0 <= i < |fields| => TypeOf(fields[i])), packed)
    case CUndef(ty) => ty
  }

  ghost predicate WellTyped(c: Const) {
    match c
    case CInt(bits, value) => bits >= 1 && value < Pow2(bits)
    case CArray(elem, elts) =>
      WellFormedTy(elem) && forall i :: 0 <= i < |elts| ==> TypeOf(elts[i]) == elem && WellTyped(elts[i])
    case CStruct(fields, _) => forall i :: 0 <= i < |fields| ==> WellTyped(fields[i])
    case CUndef(ty) => WellFormedTy(ty)
  }

  /** An element of an aggregate; every element of an undefined one is undefined. */
  function ExtractValue(c: Const, i: nat): Const
    requires i < NumElts(TypeOf(c))
  {
    match c
    case CArray(_, elts) => elts[i]
    case CStruct(fields, _) => fields[i]
    case CUndef(ty) => CUndef(Elt(ty, i))
  }

  lemma ExtractValueType(c: Const, i: nat)
    requires WellTyped(c) && i < NumElts(TypeOf(c))
    ensures TypeOf(ExtractValue(c, i)) == Elt(TypeOf(c), i) && WellTyped(ExtractValue(c, i))
  {}

  /** The constant with every bit zero. */
  function NullValue(ty: Ty): (c: Const)
  {
    match ty
    case IntTy(bits) => CInt(bits, 0)
    case ArrayTy(elem, count) => CArray(elem, seq(count, _ => NullValue(elem)))
    case StructTy(fields, packed) =>
      CStruct(seq(|fields|, i requires 0 <= i < |fields| => NullValue(fields[i])), packed)
  }

  predicate IsNullValue(c: Const) {
    match c
    case CInt(_, value) => value == 0
    case CArray(_, elts) => forall i :: 0 <= i < |elts| ==> IsNullValue(elts[i])
    case CStruct(fields, _) => forall i :: 0 <= i < |fields| ==> IsNullValue(fields[i])
    case CUndef(_) => false
  }

  // ---------- memory ----------

  /** The bits of a whole store unit that an integer of this width occupies: on
      big-endian machines any padding comes first, on little-endian ones last. */
  function IntFirst(dl: DataLayout, bits: nat): nat
    requires dl.Valid()
  {
    if dl.bigEndian then StoreBits(dl, IntTy(bits)) - bits else 0
  }

  /** Which bit of an integer lies at memory position p when its bits occupy
      [first, last): the first bit is the least significant one on
      little-endian machines, the most significant one on big-endian machines. */
  function BitIndex(dl: DataLayout, first: int, last: int, p: int): nat
    requires first <= p < last
  {
    if dl.bigEndian then last - 1 - p else p - first
  }

  /** Element i stores something at bit p of the aggregate. */
  predicate Covers(dl: DataLayout, ty: Ty, i: nat, p: int)
    requires dl.Valid()
  {
    i < NumElts(ty) && EltOffset(dl, ty, i) <= p < EltOffset(dl, ty, i) + StoreBits(dl, Elt(ty, i))
  }

  lemma CoversUnique(dl: DataLayout, ty: Ty, i: nat, j: nat, p: int)
    requires dl.Valid() && Covers(dl, ty, i, p) && Covers(dl, ty, j, p)
    ensures i == j
  {
    if i < j { EltsOrdered(dl, ty, i, j); }
    if j < i { EltsOrdered(dl, ty, j, i); }
  }

  /** The element that stores something at bit p, if there is one. */
  function CoveringElt(dl: DataLayout, ty: Ty, p: int): (r: Option<nat>)
    requires dl.Valid()
    ensures r.Some? ==> Covers(dl, ty, r.value, p)
    ensures forall i: nat :: Covers(dl, ty, i, p) ==> r == Some(i)
  {
    var r := FirstCovering(dl, ty, p, 0);
    assert forall i: nat :: Covers(dl, ty, i, p) ==> r == Some(i) by {
      forall i: nat | Covers(dl, ty, i, p) ensures r == Some(i) { CoversUnique(dl, ty, i, r.value, p); }
    }
    r
  }

  function FirstCovering(dl: DataLayout, ty: Ty, p: int, i: nat): (r: Option<nat>)
    requires dl.Valid()
    ensures r.Some? ==> Covers(dl, ty, r.value, p)
    ensures r == None ==> forall j: nat :: i <= j ==> !Covers(dl, ty, j, p)
    decreases NumElts(ty) - i
  {
    if i >= NumElts(ty) then None
    else if Covers(dl, ty, i, p) then Some(i)
    else FirstCovering(dl, ty, p, i + 1)
  }

  /** The bits of memory; None where nothing defined is stored. */
  type Mem = int -> Option<bool>

  /** What storing the constant at address 0 puts in memory: nothing in padding,
      undefined values and outside the constant. */
  function Image(dl: DataLayout, c: Const): Mem
    requires dl.Valid()
    decreases c
  {
    match c
    case CInt(bits, value) =>
      var first := IntFirst(dl, bits);
      p => if first <= p < first + bits then Some(Bit(value, BitIndex(dl, first, first + bits, p))) else None
    case CUndef(_) => p => None
    case _ =>
      p => match CoveringElt(dl, TypeOf(c), p)
           case None => None
           case Some(i) => Image(dl, ExtractValue(c, i))(p - EltOffset(dl, TypeOf(c), i))
  }

  /** Bit p of a stored value of this type carries data, i.e. is not padding. */
  ghost predicate DataBit(dl: DataLayout, ty: Ty, p: int)
    requires dl.Valid()
  {
    match ty
    case IntTy(bits) => IntFirst(dl, bits) <= p < IntFirst(dl, bits) + bits
    case _ =>
      match CoveringElt(dl, ty, p)
      case None => false
      case Some(i) => DataBit(dl, Elt(ty, i), p - EltOffset(dl, ty, i))
  }

  lemma DataBitOfInt(dl: DataLayout, bits: nat, p: int)
    requires dl.Valid()
    ensures DataBit(dl, IntTy(bits), p) <==> IntFirst(dl, bits) <= p < IntFirst(dl, bits) + bits
  {}

  lemma DataBitInStore(dl: DataLayout, ty: Ty, p: int)
    requires dl.Valid() && DataBit(dl, ty, p)
    ensures 0 <= p < StoreBits(dl, ty)
  {
    if !ty.IntTy? {
      var i := CoveringElt(dl, ty, p).value;
      EltsOrdered(dl, ty, i, i + 1);
    }
  }

  lemma DataBitOfElement(dl: DataLayout, ty: Ty, i: nat, p: int)
    requires dl.Valid() && Covers(dl, ty, i, p)
    ensures DataBit(dl, ty, p) == DataBit(dl, Elt(ty, i), p - EltOffset(dl, ty, i))
  {
    hide StoreBytes;
    hide Offset;
    assert CoveringElt(dl, ty, p) == Some(i);
  }

  lemma DataBitCovered(dl: DataLayout, ty: Ty, p: int)
    requires dl.Valid() && DataBit(dl, ty, p) && !ty.IntTy?
    ensures var i := CoveringElt(dl, ty, p);
            i.Some? && Covers(dl, ty, i.value, p) && DataBit(dl, Elt(ty, i.value), p - EltOffset(dl, ty, i.value))
  {}

  /** An aggregate stores its elements at their offsets... */
  lemma ImageOfElement(dl: DataLayout, c: Const, i: nat, p: int)
    requires dl.Valid() && WellTyped(c) && Covers(dl, TypeOf(c), i, p)
    ensures Image(dl, c)(p) == Image(dl, ExtractValue(c, i))(p - EltOffset(dl, TypeOf(c), i))
  {
    hide StoreBytes;
    hide Offset;
    hide EltOffset;
    hide DataBit;
    hide WellTyped;
    assert CoveringElt(dl, TypeOf(c), p) == Some(i);
  }

  /** ... and nothing else. */
  lemma ImageUncovered(dl: DataLayout, c: Const, p: int)
    requires dl.Valid() && !c.CInt? && Image(dl, c)(p).Some?
    ensures var i := CoveringElt(dl, TypeOf(c), p);
            i.Some? && Covers(dl, TypeOf(c), i.value, p)
  {}

  lemma IntIsData(dl: DataLayout, bits: nat, value: nat, p: int)
    requires dl.Valid() && Image(dl, CInt(bits, value))(p).Some?
    ensures DataBit(dl, IntTy(bits), p)
  {}

  /** Only data bits are ever stored. */
  lemma {:induction false} ImageIsData(dl: DataLayout, c: Const, p: int)
    requires dl.Valid() && WellTyped(c) && Image(dl, c)(p).Some?
    ensures DataBit(dl, TypeOf(c), p) && 0 <= p < StoreBits(dl, TypeOf(c))
    decreases c
  {
    hide StoreBytes;
    hide Offset;
    hide Image;
    hide DataBit;
    hide EltOffset;
    hide CoveringElt;
    hide WellTyped;
    if c.CInt? {
      IntIsData(dl, c.bits, c.value, p);
    } else {
      ImageUncovered(dl, c, p);
      var i := CoveringElt(dl, TypeOf(c), p).value;
      ImageOfElement(dl, c, i, p);
      DataBitOfElement(dl, TypeOf(c), i, p);
      ElementIsData(dl, c, i, p);
    }
    DataBitInStore(dl, TypeOf(c), p);
  }

  lemma {:induction false} ElementIsData(dl: DataLayout, c: Const, i: nat, p: int)
    requires dl.Valid() && WellTyped(c) && Covers(dl, TypeOf(c), i, p) && !c.CInt?
    requires Image(dl, ExtractValue(c, i))(p - EltOffset(dl, TypeOf(c), i)).Some?
    ensures DataBit(dl, Elt(TypeOf(c), i), p - EltOffset(dl, TypeOf(c), i))
    decreases c, 0
  {
    hide StoreBytes;
    hide Offset;
    hide Image;
    hide DataBit;
    hide EltOffset;
    hide CoveringElt;
    hide WellTyped;
    ExtractValueType(c, i);
    if !c.CUndef? {
      ImageIsData(dl, ExtractValue(c, i), p - EltOffset(dl, TypeOf(c), i));
    } else {
      UndefStoresNothing(dl, Elt(TypeOf(c), i), p - EltOffset(dl, TypeOf(c), i));
    }
  }

  lemma UndefStoresNothing(dl: DataLayout, ty: Ty, p: int)
    requires dl.Valid()
    ensures Image(dl, CUndef(ty))(p) == None
  {}

  lemma {:induction false} NullValueType(ty: Ty)
    requires WellFormedTy(ty)
    ensures TypeOf(NullValue(ty)) == ty && WellTyped(NullValue(ty))
  {
    match ty
    case IntTy(_) =>
    case ArrayTy(elem, _) => NullValueType(elem);
    case StructTy(fields, _) =>
      forall i | 0 <= i < |fields|
        ensures TypeOf(NullValue(fields[i])) == fields[i] && WellTyped(NullValue(fields[i]))
      {
        NullValueType(fields[i]);
      }
  }

  lemma NullValueElement(ty: Ty, i: nat)
    requires i < NumElts(ty)
    ensures NumElts(TypeOf(NullValue(ty))) == NumElts(ty)
    ensures ExtractValue(NullValue(ty), i) == NullValue(Elt(ty, i))
  {}

  /** The null value stores a zero at every data bit. */
  lemma {:induction false} NullValueBits(dl: DataLayout, ty: Ty, p: int)
    requires dl.Valid() && WellFormedTy(ty) && DataBit(dl, ty, p)
    ensures Image(dl, NullValue(ty))(p) == Some(false)
    decreases ty
  {
    NullValueType(ty);
    if ty.IntTy? {
      BitZero(BitIndex(dl, IntFirst(dl, ty.bits), IntFirst(dl, ty.bits) + ty.bits, p));
    } else {
      var i := CoveringElt(dl, ty, p).value;
      DataBitOfElement(dl, ty, i, p);
      NullElementBits(dl, ty, i, p);
    }
  }

  lemma {:induction false} NullElementBits(dl: DataLayout, ty: Ty, i: nat, p: int)
    requires dl.Valid() && WellFormedTy(ty) && Covers(dl, ty, i, p)
    requires DataBit(dl, Elt(ty, i), p - EltOffset(dl, ty, i))
    ensures Image(dl, NullValue(ty))(p) == Some(false)
    decreases ty, 0
  {
    hide StoreBytes;
    hide Offset;
    hide Image;
    hide DataBit;
    NullValueType(ty);
    NullValueElement(ty, i);
    NullValueBits(dl, Elt(ty, i), p - EltOffset(dl, ty, i));
    ImageOfElement(dl, NullValue(ty), i, p);
  }

  lemma {:induction false} NullIsNull(ty: Ty)
    ensures IsNullValue(NullValue(ty))
  {
    match ty
    case IntTy(_) =>
    case ArrayTy(elem, _) => NullIsNull(elem);
    case StructTy(fields, _) =>
      forall i | 0 <= i < |fields| ensures IsNullValue(NullValue(fields[i])) { NullIsNull(fields[i]); }
  }

  lemma {:induction false} IsNullValueBits(dl: DataLayout, c: Const, p: int)
    requires dl.Valid() && WellTyped(c) && IsNullValue(c)
    ensures Image(dl, c)(p) != Some(true)
    decreases c
  {
    hide Image;
    hide StoreBytes;
    hide Offset;
    if c.CInt? {
      ZeroBits(dl, c.bits, p);
    } else if Image(dl, c)(p).Some? {
      ImageUncovered(dl, c, p);
      var i := CoveringElt(dl, TypeOf(c), p).value;
      ImageOfElement(dl, c, i, p);
      IsNullElementBits(dl, c, i, p - EltOffset(dl, TypeOf(c), i));
    }
  }

  lemma ZeroBits(dl: DataLayout, bits: nat, p: int)
    requires dl.Valid()
    ensures Image(dl, CInt(bits, 0))(p) != Some(true)
  {
    if IntFirst(dl, bits) <= p < IntFirst(dl, bits) + bits {
      BitZero(BitIndex(dl, IntFirst(dl, bits), IntFirst(dl, bits) + bits, p));
    }
  }

  lemma {:induction false} IsNullElementBits(dl: DataLayout, c: Const, i: nat, p: int)
    requires dl.Valid() && WellTyped(c) && IsNullValue(c) && i < NumElts(TypeOf(c))
    ensures Image(dl, ExtractValue(c, i))(p) != Some(true)
    decreases c, 0
  {
    hide Image;
    ExtractValueType(c, i);
    IsNullValueBits(dl, ExtractValue(c, i), p);
  }
}
