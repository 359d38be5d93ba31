/** Types built from integers, arrays and structs, and how a target lays them
    out in memory: store size, allocation size, alignment, element offsets. */
module DataLayouts {
  import opened Arith
  import opened StructLayouts

  datatype Ty =
    | IntTy(bits: nat)
    | ArrayTy(elem: Ty, count: nat)
    | StructTy(fields: seq<Ty>, packed: bool)

  /** The target: byte order, and the ABI alignment in bytes of each integer width. */
  datatype DataLayout = DataLayout(bigEndian: bool, intAlign: nat -> nat) {
    ghost predicate Valid() {
      forall width :: intAlign(width) >= 1
    }
  }

  const BYTE_BITS: nat := 8

  predicate WellFormedTy(ty: Ty) {
    match ty
    case IntTy(bits) => bits >= 1
    case ArrayTy(elem, _) => WellFormedTy(elem)
    case StructTy(fields, _) => forall i :: 0 <= i < |fields| ==> WellFormedTy(fields[i])
  }

  function AbiAlign(dl: DataLayout, ty: Ty): (r: nat)
    requires dl.Valid()
    ensures r >= 1
    decreases ty, 0
  {
    match ty
    case IntTy(bits) => dl.intAlign(bits)
    case ArrayTy(elem, _) => AbiAlign(dl, elem)
    case StructTy(fields, packed) => Alignment(Slots(dl, fields), packed)
  }

  function StoreBytes(dl: DataLayout, ty: Ty): nat
    requires dl.Valid()
    decreases ty, 0
  {
    match ty
    case IntTy(bits) => (bits + 7) / 8
    case ArrayTy(elem, count) => MulNonNegative(count, AllocBytes(dl, elem)); count * AllocBytes(dl, elem)
    case StructTy(fields, packed) => Size(Slots(dl, fields), packed)
  }

  function AllocBytes(dl: DataLayout, ty: Ty): (r: nat)
    requires dl.Valid()
    ensures r >= StoreBytes(dl, ty)
    decreases ty, 1
  {
    RoundUp(StoreBytes(dl, ty), AbiAlign(dl, ty))
  }

  function Slots(dl: DataLayout, fields: seq<Ty>): (slots: seq<Slot>)
    requires dl.Valid()
    ensures |slots| == |fields| && WellFormed(slots)
    ensures forall i :: 0 <= i < |fields| ==> slots[i] == Slot(AllocBytes(dl, fields[i]), AbiAlign(dl, fields[i]))
    decreases fields
  {
    seq(|fields|, i requires 0 <= i < |fields| => Slot(AllocBytes(dl, fields[i]), AbiAlign(dl, fields[i])))
  }

  function StoreBits(dl: DataLayout, ty: Ty): nat
    requires dl.Valid()
  {
    8 * StoreBytes(dl, ty)
  }

  function AllocBits(dl: DataLayout, ty: Ty): (r: nat)
    requires dl.Valid()
    ensures r >= StoreBits(dl, ty)
  {
    8 * AllocBytes(dl, ty)
  }

  // ---------- elements of aggregates ----------

  function NumElts(ty: Ty): nat {
    match ty
    case IntTy(_) => 0
    case ArrayTy(_, count) => count
    case StructTy(fields, _) => |fields|
  }

  function Elt(ty: Ty, i: nat): (elt: Ty)
    requires i < NumElts(ty)
    ensures elt < ty
  {
    match ty
    case ArrayTy(elem, _) => elem
    case StructTy(fields, _) => fields[i]
  }

  /** Offset in bits of an element from the start of its aggregate. */
  function EltOffset(dl: DataLayout, ty: Ty, i: nat): nat
    requires dl.Valid() && i < NumElts(ty)
  {
    match ty
    case ArrayTy(elem, _) => MulNonNegative(i, AllocBits(dl, elem)); i * AllocBits(dl, elem)
    case StructTy(fields, packed) => 8 * Offset(Slots(dl, fields), packed, i)
  }

  /** Elements follow each other without overlap, within the store size. */
  lemma EltsOrdered(dl: DataLayout, ty: Ty, i: nat, j: nat)
    requires dl.Valid() && i < j <= NumElts(ty)
    ensures j < NumElts(ty) ==> EltOffset(dl, ty, i) + AllocBits(dl, Elt(ty, i)) <= EltOffset(dl, ty, j)
    ensures EltOffset(dl, ty, i) + AllocBits(dl, Elt(ty, i)) <= StoreBits(dl, ty)
  {
    match ty
    case ArrayTy(elem, count) =>
      var stride := AllocBits(dl, elem);
      StridesOrdered(i, j, stride);
      StridesOrdered(i, count, stride);
      MulAssoc(count, 8, AllocBytes(dl, elem));
    case StructTy(fields, packed) =>
      OffsetsOrdered(Slots(dl, fields), packed, i, j);
  }

  /** A byte, or an array of bytes for any number other than one. */
  function UnitTy(units: nat): Ty {
    if units == 1 then IntTy(BYTE_BITS) else ArrayTy(IntTy(BYTE_BITS), units)
  }

  /** Width of a primitive type; 0 for aggregates. */
  function PrimitiveBits(ty: Ty): nat {
    if ty.IntTy? then ty.bits else 0
  }

  lemma ByteLayout(dl: DataLayout)
    requires dl.Valid() && dl.intAlign(BYTE_BITS) == 1
    ensures StoreBytes(dl, IntTy(BYTE_BITS)) == AllocBytes(dl, IntTy(BYTE_BITS)) == 1
    ensures AbiAlign(dl, IntTy(BYTE_BITS)) == 1
  {
    RoundUpIs(1, 1, 1);
  }

  lemma ByteArrayLayout(dl: DataLayout, n: nat)
    requires dl.Valid() && dl.intAlign(BYTE_BITS) == 1
    ensures StoreBytes(dl, ArrayTy(IntTy(BYTE_BITS), n)) == AllocBytes(dl, ArrayTy(IntTy(BYTE_BITS), n)) == n
    ensures AbiAlign(dl, ArrayTy(IntTy(BYTE_BITS), n)) == 1
  {
    hide RoundUp;
    ByteLayout(dl);
    assert n * 1 == n;
    assert StoreBytes(dl, ArrayTy(IntTy(BYTE_BITS), n)) == n;
    RoundUpIs(n, 1, n);
  }

  lemma UnitTyLayout(dl: DataLayout, units: nat)
    requires dl.Valid() && dl.intAlign(BYTE_BITS) == 1
    ensures StoreBits(dl, UnitTy(units)) == AllocBits(dl, UnitTy(units)) == units * BYTE_BITS
    ensures AbiAlign(dl, UnitTy(units)) == 1 && PrimitiveBits(UnitTy(units)) % 8 == 0
  {
    hide StoreBytes;
    hide AllocBytes;
    if units == 1 { ByteLayout(dl); } else { ByteArrayLayout(dl, units); }
  }
}
