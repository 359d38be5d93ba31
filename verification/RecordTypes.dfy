/** Converting a record type: the fields, possibly overlapping and possibly not on
    byte boundaries, become a struct type with the same size and offsets. */
module RecordTypes {
  import opened Bits
  import opened Options
  import opened Ranges
  import opened StructLayouts
  import opened DataLayouts
  import opened IntervalLists
  import opened ElementPlacement

  /** A type as record conversion sees it.  Of types other than integers, arrays
      and structs (pointers, floating point) only the layout matters. */
  datatype LlvmType =
    | Known(ty: Ty)
    | Other(name: nat, primitiveBits: nat, size: nat, logAlign: nat)

  function SlotOf(dl: DataLayout, t: LlvmType): Slot
    requires dl.Valid()
  {
    match t
    case Known(ty) => Slot(AllocBytes(dl, ty), AbiAlign(dl, ty))
    case Other(_, _, size, logAlign) => Slot(size, Pow2(logAlign))
  }

  function Slotting(dl: DataLayout): (f: LlvmType -> Slot)
    requires dl.Valid()
    ensures forall t :: f(t) == SlotOf(dl, t)
  {
    t => SlotOf(dl, t)
  }

  function PrimitiveSize(t: LlvmType): nat {
    match t
    case Known(ty) => PrimitiveBits(ty)
    case Other(_, bits, _, _) => bits
  }

  function UnitType(units: nat): LlvmType {
    Known(UnitTy(units))
  }

  /** The type that applies to an interval, whose first bit is at starts. */
  datatype TypedBits = TypedBits(ty: LlvmType, starts: nat)

  /** How many bits the type defines: those of a type like i17, or else whole bytes. */
  function DefinedBits(dl: DataLayout, t: LlvmType): nat
    requires dl.Valid()
  {
    if PrimitiveSize(t) % 8 != 0 then PrimitiveSize(t) else 8 * SlotOf(dl, t).size
  }

  /** The type says something about the bit at position p. */
  ghost predicate Defines(dl: DataLayout, t: TypedBits, p: int)
    requires dl.Valid()
  {
    t.starts <= p < t.starts + DefinedBits(dl, t.ty)
  }

  type TypedRange = Interval<TypedBits>

  /** The target aligns whole bytes to bytes and every integer to a power of two. */
  ghost predicate GoodTarget(dl: DataLayout) {
    dl.Valid() && dl.intAlign(BYTE_BITS) == 1 && forall w :: PowerOfTwo(dl.intAlign(w))
  }

  lemma {:induction false} AlignIsPower(dl: DataLayout, ty: Ty)
    requires GoodTarget(dl)
    ensures PowerOfTwo(AbiAlign(dl, ty))
  {
    match ty
    case IntTy(_) =>
    case ArrayTy(elem, _) => AlignIsPower(dl, elem);
    case StructTy(fields, packed) =>
      assert PowerOfTwo(1) by { assert Pow2(0) == 1; }
      forall i | 0 <= i < |fields| ensures PowerOfTwo(AbiAlign(dl, fields[i])) { AlignIsPower(dl, fields[i]); }
      var slots := Slots(dl, fields);
      assert forall i :: 0 <= i < |slots| ==> slots[i].align == AbiAlign(dl, fields[i]);
  }

  lemma SlotAlignIsPower(dl: DataLayout, t: LlvmType)
    requires GoodTarget(dl)
    ensures PowerOfTwo(SlotOf(dl, t).align)
  {
    if t.Known? { AlignIsPower(dl, t.ty); }
  }

  predicate IsSafeToReturnContentsDirectly(dl: DataLayout, t: TypedRange)
    requires dl.Valid()
  {
    && (t.range.Empty() || t.range.first == t.contents.starts)
    && PrimitiveSize(t.contents.ty) % 8 == 0
    && 8 * SlotOf(dl, t.contents.ty).size <= t.range.Width()
  }

  /** A type for the bits of the range that is no larger than the range, yet covers
      every bit in it that the contents define: the type itself when it sits right
      and fits, else the type rounded to bytes, else plain bytes. */
  function ExtractContents(dl: DataLayout, t: TypedRange): (ty: LlvmType)
    requires GoodTarget(dl) && t.range.Width() % 8 == 0
    ensures 8 * SlotOf(dl, ty).size <= t.range.Width()
    ensures forall p :: t.range.Has(p) && Defines(dl, t.contents, p) ==>
              p < t.range.first + 8 * SlotOf(dl, ty).size
    ensures IsSafeToReturnContentsDirectly(dl, t) ==> ty == t.contents.ty
  {
    var rounded := Known(IntTy((PrimitiveSize(t.contents.ty) + 7) / 8 * 8));
    var units := t.range.Width() / 8;
    UnitTyLayout(dl, units);
    if IsSafeToReturnContentsDirectly(dl, t) then t.contents.ty
    else if t.range.Empty() then UnitTyLayout(dl, 0); UnitType(0)
    else if PrimitiveSize(t.contents.ty) % 8 != 0 &&
            IsSafeToReturnContentsDirectly(dl, t.(contents := t.contents.(ty := rounded))) then rounded
    else UnitType(units)
  }

  /** The first bit of the range is the first of the contents, and a slot fits the range. */
  predicate Sits(t: TypedRange, s: Slot) {
    !t.range.Empty() && t.range.first == t.contents.starts && 8 * s.size <= t.range.Width()
  }

  /** Which type it is: the one there, or an integer of the next whole number of bytes,
      wherever these sit right; else bytes. */
  lemma ExtractedAs(dl: DataLayout, t: TypedRange)
    requires GoodTarget(dl) && t.range.Width() % 8 == 0 && !t.range.Empty()
    ensures var bits, whole := PrimitiveSize(t.contents.ty), IntTy(RoundUp(PrimitiveSize(t.contents.ty), 8));
            var ty := ExtractContents(dl, t);
            && (bits % 8 == 0 && Sits(t, SlotOf(dl, t.contents.ty)) ==> ty == t.contents.ty)
            && (bits % 8 != 0 && Sits(t, SlotOf(dl, Known(whole))) ==> ty == Known(whole))
            && (!Sits(t, SlotOf(dl, if bits % 8 == 0 then t.contents.ty else Known(whole))) ==>
                  ty == Known(UnitTy(t.range.Width() / 8)))
  {
    var bits := PrimitiveSize(t.contents.ty);
    RoundUpIs(bits, 8, (bits + 7) / 8 * 8);
  }

  /** Overlapping bitfields become one integer over the hull. */
  function JoinWith(a: TypedRange, b: TypedRange): TypedBits {
    var hull := a.range.Join(b.range);
    TypedBits(Known(IntTy(hull.Width())), if hull.first < 0 then 0 else hull.first)
  }

  /** Hence the joined contents define every bit of the hull. */
  lemma JoinDefines(dl: DataLayout, a: TypedRange, b: TypedRange, p: int)
    requires dl.Valid() && 0 <= a.range.first < a.range.last && 0 <= b.range.first < b.range.last
    requires a.range.Has(p) || b.range.Has(p)
    ensures Defines(dl, JoinWith(a, b), p)
  {}

  /** A field declaration: position, width and type. */
  datatype FieldDecl = FieldDecl(firstBit: nat, width: nat, ty: LlvmType)

  function RangeOf(f: FieldDecl, typeSize: Option<nat>): Range {
    // Fields of qualified unions may run off the end of the type.
    var last := f.firstBit + f.width;
    Range(f.firstBit, if typeSize.Some? && last > typeSize.value then typeSize.value else last)
  }

  /** The field that decides about bit p: the first declared one that has it. */
  function OwnerOf(fields: seq<FieldDecl>, typeSize: Option<nat>, p: int): Option<TypedBits> {
    if fields == [] then None
    else if RangeOf(fields[0], typeSize).first <= p < RangeOf(fields[0], typeSize).last
    then Some(TypedBits(fields[0].ty, fields[0].firstBit))
    else OwnerOf(fields[1..], typeSize, p)
  }

  /** The field has the bit, which is not beyond the end of the type. */
  predicate InField(f: FieldDecl, typeSize: Option<nat>, p: int) {
    f.firstBit <= p < f.firstBit + f.width && (typeSize.Some? ==> p < typeSize.value)
  }

  /** The first field declared that has the bit decides, and if there is none, none does. */
  lemma {:induction false} FirstDecides(fields: seq<FieldDecl>, typeSize: Option<nat>, p: int)
    ensures forall k :: 0 <= k < |fields| && InField(fields[k], typeSize, p) &&
                        (forall j :: 0 <= j < k ==> !InField(fields[j], typeSize, p)) ==>
              OwnerOf(fields, typeSize, p) == Some(TypedBits(fields[k].ty, fields[k].firstBit))
    ensures OwnerOf(fields, typeSize, p) == None <==>
            forall k :: 0 <= k < |fields| ==> !InField(fields[k], typeSize, p)
  {
    if fields != [] {
      FirstDecides(fields[1..], typeSize, p);
    }
  }

  function IntervalOf(f: FieldDecl, typeSize: Option<nat>): TypedRange {
    Interval(RangeOf(f, typeSize), TypedBits(f.ty, f.firstBit))
  }

  /** Field k is not empty and overlaps no other field from index i on. */
  ghost predicate Alone(fields: seq<FieldDecl>, typeSize: Option<nat>, k: nat, i: nat)
    requires k < |fields|
  {
    && !RangeOf(fields[k], typeSize).Empty()
    && forall j :: i <= j < |fields| && j != k ==>
         !RangeOf(fields[k], typeSize).Intersects(RangeOf(fields[j], typeSize))
  }

  /** Contents are those of a declared field or, once joined, an integer. */
  ghost predicate FieldOrInteger(fields: seq<FieldDecl>, t: TypedBits) {
    || (t.ty.Known? && t.ty.ty.IntTy?)
    || (exists k :: 0 <= k < |fields| && t == TypedBits(fields[k].ty, fields[k].firstBit))
  }

  ghost function Allowed(fields: seq<FieldDecl>): (f: (TypedBits, int) -> bool)
    ensures forall t, p :: f(t, p) <==> FieldOrInteger(fields, t)
  {
    (t, p) => FieldOrInteger(fields, t)
  }

  /** Contents may change, but go on defining the bits that they define. */
  ghost function Keeping(dl: DataLayout): (f: (TypedBits, TypedBits, int) -> bool)
    requires dl.Valid()
    ensures forall t, u, p :: f(t, u, p) <==> (Defines(dl, t, p) ==> Defines(dl, u, p))
  {
    (t, u, p) => Defines(dl, t, p) ==> Defines(dl, u, p)
  }

  /** Adds the fields last to first, so that earlier fields take precedence. */
  method AddFields(dl: DataLayout, fields: seq<FieldDecl>, typeSize: Option<nat>)
    returns (layout: IntervalList<TypedBits>)
    requires dl.Valid()
    requires typeSize.Some? ==> forall f :: f in fields ==> f.firstBit <= typeSize.value
    ensures fresh(layout) && layout.join == JoinWith
    ensures layout.allowed == Allowed(fields) && layout.keeps == Keeping(dl)
    ensures Sane(layout.intervals) && layout.AllFill(layout.intervals, 0)
    ensures forall p :: At(layout.intervals, p) == OwnerOf(fields, typeSize, p)
    ensures forall k :: 0 <= k < |fields| && Alone(fields, typeSize, k, 0) ==>
              IntervalOf(fields[k], typeSize) in layout.intervals
  {
    layout := new IntervalList<TypedBits>(JoinWith, Allowed(fields), Keeping(dl));
    var i := |fields|;
    while i > 0
      invariant 0 <= i <= |fields| && Sane(layout.intervals) && fresh(layout)
      invariant layout.join == JoinWith && layout.AllFill(layout.intervals, 0)
      invariant layout.allowed == Allowed(fields) && layout.keeps == Keeping(dl)
      invariant forall p :: At(layout.intervals, p) == OwnerOf(fields[i..], typeSize, p)
      invariant forall k :: i <= k < |fields| && Alone(fields, typeSize, k, i) ==>
                  IntervalOf(fields[k], typeSize) in layout.intervals
    {
      i := i - 1;
      var f := fields[i];
      assert fields[i..] == [f] + fields[i + 1..];
      assert f in fields;
      layout.AddInterval(IntervalOf(f, typeSize));
    }
    assert fields[0..] == fields;
  }

  function FieldOf(dl: DataLayout, t: TypedRange): Field<LlvmType>
    requires GoodTarget(dl) && t.range.Width() % 8 == 0 && t.range.first >= 0
  {
    Field(t.range.first, ExtractContents(dl, t))
  }

  /** The layout on byte boundaries that the struct is built from. */
  ghost predicate ByteLayout(layout: seq<TypedRange>) {
    Sane(layout) && forall t :: t in layout ==> Aligned(t.range, 8)
  }

  lemma ByteLayoutWidths(layout: seq<TypedRange>)
    requires ByteLayout(layout)
    ensures forall k :: 0 <= k < |layout| ==> layout[k].range.Width() % 8 == 0 && layout[k].range.first % 8 == 0
  {
    forall k | 0 <= k < |layout| ensures layout[k].range.Width() % 8 == 0 && layout[k].range.first % 8 == 0 {
      assert layout[k] in layout;
    }
  }

  lemma FieldsInOrder(dl: DataLayout, layout: seq<TypedRange>, fields: seq<Field<LlvmType>>)
    requires GoodTarget(dl) && ByteLayout(layout) && |fields| == |layout|
    requires forall k :: 0 <= k < |layout| ==> layout[k].range.Width() % 8 == 0 && fields[k] == FieldOf(dl, layout[k])
    ensures InOrder(Slotting(dl), fields)
    ensures forall k :: 0 <= k < |fields| ==> PowerOfTwo(SlotOf(dl, fields[k].item).align)
    ensures forall k :: 0 <= k < |fields| ==>
              fields[k].first + 8 * SlotOf(dl, fields[k].item).size <= layout[k].range.last
  {
    hide SlotOf;
    ByteLayoutWidths(layout);
    forall k | 0 <= k < |fields|
      ensures PowerOfTwo(SlotOf(dl, fields[k].item).align)
      ensures fields[k].first + 8 * SlotOf(dl, fields[k].item).size <= layout[k].range.last
    {
      SlotAlignIsPower(dl, fields[k].item);
      assert fields[k] == FieldOf(dl, layout[k]);
    }
    assert forall n: nat :: PowerOfTwo(n) ==> n >= 1;
    forall i, j | 0 <= i < j < |fields|
      ensures fields[i].first + 8 * SlotOf(dl, fields[i].item).size <= fields[j].first
    {
      assert layout[i].range.last <= layout[j].range.first;
      assert fields[j] == FieldOf(dl, layout[j]);
    }
  }

  lemma OwnersWithin(fields: seq<FieldDecl>, size: nat, p: int)
    requires OwnerOf(fields, Some(size), p).Some?
    ensures p < size
  {}

  lemma LayoutWithin(fields: seq<FieldDecl>, size: nat, layout: seq<TypedRange>, k: nat)
    requires Sane(layout) && k < |layout| && size % 8 == 0
    requires forall p: nat :: Covered(layout, p) ==> ByteUsed(fields, Some(size), p)
    ensures layout[k].range.last <= size
  {
    var p: nat := layout[k].range.last - 1;
    assert layout[k].range.Has(p) && Covered(layout, p);
    var q: nat :| OwnerOf(fields, Some(size), q).Some? && RoundDown(q, 8) == RoundDown(p, 8);
    OwnersWithin(fields, size, q);
    NextMultiple(RoundDown(q, 8), size, 8);
  }

  /** Element at[k] of the struct stands for interval k of the layout, and the rules
      of struct layout put it at exactly the offset of the interval. */
  ghost predicate Realizes(dl: DataLayout, layout: seq<TypedRange>, elts: seq<LlvmType>, pack: bool, at: seq<nat>)
    requires GoodTarget(dl)
  {
    && |at| == |layout| && WellFormed(SlotsOf(Slotting(dl), elts))
    && forall k :: 0 <= k < |layout| ==>
         && layout[k].range.Width() % 8 == 0
         && at[k] < |elts| && elts[at[k]] == ExtractContents(dl, layout[k])
         && 8 * Offset(SlotsOf(Slotting(dl), elts), pack, at[k]) == layout[k].range.first
  }

  /** A layout on byte boundaries for the fields: it covers exactly the bytes in which
      some field has bits; what the field that a bit belongs to defines there is
      defined; contents come from fields or are integers; and an aligned field that
      overlaps no other stays as it is. */
  ghost predicate LaysOut(dl: DataLayout, fields: seq<FieldDecl>, typeSize: Option<nat>, layout: seq<TypedRange>)
    requires dl.Valid()
  {
    && ByteLayout(layout)
    && (forall p: nat :: Covered(layout, p) <==> ByteUsed(fields, typeSize, p))
    && (forall p :: OwnerDefines(dl, fields, typeSize, p) ==> Covered(layout, p) && Defines(dl, At(layout, p).value, p))
    && (forall t :: t in layout ==> FieldOrInteger(fields, t.contents))
    && (forall k :: 0 <= k < |fields| && Alone(fields, typeSize, k, 0) && Aligned(RangeOf(fields[k], typeSize), 8) ==>
          IntervalOf(fields[k], typeSize) in layout)
  }

  /** Some field has a bit in the same byte. */
  ghost predicate ByteUsed(fields: seq<FieldDecl>, typeSize: Option<nat>, p: nat) {
    exists q: nat :: OwnerOf(fields, typeSize, q).Some? && RoundDown(q, 8) == RoundDown(p, 8)
  }

  /** The field that bit p belongs to has a type that says something about it. */
  ghost predicate OwnerDefines(dl: DataLayout, fields: seq<FieldDecl>, typeSize: Option<nat>, p: int)
    requires dl.Valid()
  {
    OwnerOf(fields, typeSize, p).Some? && Defines(dl, OwnerOf(fields, typeSize, p).value, p)
  }

  /** The struct is such a layout put into practice, every other element being
      padding; it has exactly the record's size and is no more aligned than the
      record. */
  ghost predicate Struct(dl: DataLayout, fields: seq<FieldDecl>, typeSize: Option<nat>, maxAlign: nat,
                         elts: seq<LlvmType>, pack: bool, layout: seq<TypedRange>, at: seq<nat>)
    requires GoodTarget(dl)
  {
    && LaysOut(dl, fields, typeSize, layout)
    && Realizes(dl, layout, elts, pack, at)
    && FieldsAndPadding(UnitType, elts, at)
    && (typeSize.Some? ==> 8 * Size(SlotsOf(Slotting(dl), elts), pack) == typeSize.value)
    && 8 * Alignment(SlotsOf(Slotting(dl), elts), pack) <= maxAlign
  }

  /** Converts the fields of a record: element at[k] of the struct stands for interval
      k of a layout, and layout rules put it at exactly that offset. */
  method ConvertRecord(dl: DataLayout, fields: seq<FieldDecl>, typeSize: Option<nat>, maxAlign: nat)
    returns (elts: seq<LlvmType>, pack: bool, ghost layout: seq<TypedRange>, ghost at: seq<nat>)
    requires GoodTarget(dl) && PowerOfTwo(maxAlign) && maxAlign >= 8
    requires typeSize.Some? ==> typeSize.value % maxAlign == 0
    requires typeSize.Some? ==> forall f :: f in fields ==> f.firstBit <= typeSize.value
    ensures Struct(dl, fields, typeSize, maxAlign, elts, pack, layout, at)
  {
    hide RoundDown;
    hide OwnerOf;
    hide SlotOf;
    hide SlotsOf;
    hide ExtractContents;
    hide Defines;
    hide At;
    hide Alone;
    hide FieldOrInteger;
    hide OwnerDefines;
    var intervals := LayOutFields(dl, fields, typeSize);
    layout := intervals;
    ByteLayoutWidths(layout);
    var placed := PlacedFields(dl, intervals);
    FieldsInOrder(dl, layout, placed);
    if typeSize.Some? {
      SizeInBytes(typeSize.value, maxAlign);
      forall k: nat | k < |layout| ensures layout[k].range.last <= typeSize.value {
        LayoutWithin(fields, typeSize.value, layout, k);
      }
    }
    forall n ensures Slotting(dl)(UnitType(n)) == Slot(n, 1) { UnitSlot(dl, n); }
    elts, pack, at := BuildStruct(Slotting(dl), UnitType, placed, typeSize, maxAlign);
  }

  lemma UnitSlot(dl: DataLayout, n: nat)
    requires GoodTarget(dl)
    ensures SlotOf(dl, UnitType(n)) == Slot(n, 1)
  {
    UnitTyLayout(dl, n);
  }

  function PlacedFields(dl: DataLayout, layout: seq<TypedRange>): (fields: seq<Field<LlvmType>>)
    requires GoodTarget(dl)
    requires forall k :: 0 <= k < |layout| ==> layout[k].range.Width() % 8 == 0 && layout[k].range.first >= 0
    ensures |fields| == |layout|
    ensures forall k :: 0 <= k < |layout| ==> fields[k] == FieldOf(dl, layout[k])
  {
    seq(|layout|, k requires 0 <= k < |layout| => FieldOf(dl, layout[k]))
  }

  /** The fields' intervals, forced onto byte boundaries. */
  method LayOutFields(dl: DataLayout, fields: seq<FieldDecl>, typeSize: Option<nat>) returns (layout: seq<TypedRange>)
    requires dl.Valid()
    requires typeSize.Some? ==> forall f :: f in fields ==> f.firstBit <= typeSize.value
    ensures LaysOut(dl, fields, typeSize, layout)
  {
    hide At;
    hide Defines;
    hide OwnerOf;
    hide Alone;
    hide RoundDown;
    hide FieldOrInteger;
    hide Touched;
    var list := AddFields(dl, fields, typeSize);
    ghost var raw := list.intervals;
    assert list.JoinKeeps() by { JoinsKeep(dl, fields, list); }
    list.AlignBoundaries(8);
    layout := list.intervals;
    forall p: nat ensures Covered(layout, p) <==> ByteUsed(fields, typeSize, p) {
      TouchedOwner(fields, typeSize, raw, p);
    }
    forall p | OwnerDefines(dl, fields, typeSize, p)
      ensures Covered(layout, p) && Defines(dl, At(layout, p).value, p)
    {
      assert At(raw, p) == OwnerOf(fields, typeSize, p);
    }
  }

  lemma JoinsKeep(dl: DataLayout, fields: seq<FieldDecl>, list: IntervalList<TypedBits>)
    requires dl.Valid() && list.join == JoinWith
    requires list.allowed == Allowed(fields) && list.keeps == Keeping(dl)
    ensures list.JoinKeeps()
  {
    hide Defines;
    forall a: TypedRange, b: TypedRange | list.Joinable(a, b) ensures list.Joined(a, b, list.join(a, b)) {
      forall p | a.range.Has(p) || b.range.Has(p) ensures Defines(dl, JoinWith(a, b), p) { JoinDefines(dl, a, b, p); }
    }
  }

  lemma TouchedOwner(fields: seq<FieldDecl>, typeSize: Option<nat>, raw: seq<TypedRange>, p: nat)
    requires Sane(raw) && forall q :: At(raw, q) == OwnerOf(fields, typeSize, q)
    ensures Touched(raw, 8, p) <==> ByteUsed(fields, typeSize, p)
  {
    hide RoundDown;
    hide OwnerOf;
    if Touched(raw, 8, p) {
      var q: nat :| Covered(raw, q) && RoundDown(q, 8) == RoundDown(p, 8);
      assert At(raw, q).Some?;
    }
    if q: nat :| OwnerOf(fields, typeSize, q).Some? && RoundDown(q, 8) == RoundDown(p, 8) {
      assert At(raw, q).Some?;
    }
  }

  /** The bit lies within the element, where the rules of struct layout put it. */
  ghost predicate InElement(dl: DataLayout, elts: seq<LlvmType>, pack: bool, e: nat, p: int)
    requires GoodTarget(dl) && WellFormed(SlotsOf(Slotting(dl), elts))
  {
    e < |elts| &&
    var start := 8 * Offset(SlotsOf(Slotting(dl), elts), pack, e);
    start <= p < start + 8 * SlotOf(dl, elts[e]).size
  }

  /** Every bit that the field it belongs to defines is within an element that is not
      padding. */
  lemma DefinedBitsCovered(dl: DataLayout, fields: seq<FieldDecl>, typeSize: Option<nat>, maxAlign: nat,
                           elts: seq<LlvmType>, pack: bool, layout: seq<TypedRange>, at: seq<nat>, p: int)
    requires GoodTarget(dl) && Struct(dl, fields, typeSize, maxAlign, elts, pack, layout, at)
    requires OwnerDefines(dl, fields, typeSize, p)
    ensures exists e :: e in at && InElement(dl, elts, pack, e, p)
  {
    hide Defines;
    hide OwnerDefines;
    hide SlotsOf;
    hide Realizes;
    hide FieldOrInteger;
    hide InElement;
    assert Covered(layout, p);
    var k: nat :| k < |layout| && layout[k].range.Has(p);
    assert At(layout, p) == Some(layout[k].contents);
    IntervalInElement(dl, elts, pack, layout, at, k, p);
  }

  lemma IntervalInElement(dl: DataLayout, elts: seq<LlvmType>, pack: bool, layout: seq<TypedRange>, at: seq<nat>,
                          k: nat, p: int)
    requires GoodTarget(dl) && Realizes(dl, layout, elts, pack, at)
    requires k < |layout| && layout[k].range.Has(p) && Defines(dl, layout[k].contents, p)
    ensures at[k] in at && InElement(dl, elts, pack, at[k], p)
  {
    hide Defines;
    hide SlotOf;
    hide SlotsOf;
  }

  /** A single integer, or bytes: the only types that are not those of fields. */
  ghost predicate IntegerOrBytes(t: LlvmType) {
    (t.Known? && t.ty.IntTy?) || exists n :: t == UnitType(n)
  }

  /** Every element is an integer or bytes, or the type of a field at the field's own
      offset. */
  lemma ElementsAreFields(dl: DataLayout, fields: seq<FieldDecl>, typeSize: Option<nat>, maxAlign: nat,
                          elts: seq<LlvmType>, pack: bool, layout: seq<TypedRange>, at: seq<nat>, e: nat)
    requires GoodTarget(dl) && Struct(dl, fields, typeSize, maxAlign, elts, pack, layout, at)
    requires e < |elts| && !IntegerOrBytes(elts[e])
    ensures exists k :: 0 <= k < |fields| && elts[e] == fields[k].ty &&
              8 * Offset(SlotsOf(Slotting(dl), elts), pack, e) == fields[k].firstBit
  {
    hide LaysOut;
    hide Realizes;
    hide ExtractContents;
    hide FieldOrInteger;
    hide IntegerOrBytes;
    var j := PlacedElement(elts, at, e);
    RealizedAt(dl, layout, elts, pack, at, j);
    LaidOutAt(dl, fields, typeSize, layout, j);
    ExtractedField(dl, fields, layout[j]);
  }

  lemma PlacedElement(elts: seq<LlvmType>, at: seq<nat>, e: nat) returns (j: nat)
    requires FieldsAndPadding(UnitType, elts, at) && e < |elts| && !IntegerOrBytes(elts[e])
    ensures j < |at| && at[j] == e
  {
    j :| j < |at| && at[j] == e;
  }

  lemma RealizedAt(dl: DataLayout, layout: seq<TypedRange>, elts: seq<LlvmType>, pack: bool, at: seq<nat>, j: nat)
    requires GoodTarget(dl) && Realizes(dl, layout, elts, pack, at) && j < |at|
    ensures j < |layout| && layout[j].range.Width() % 8 == 0 && WellFormed(SlotsOf(Slotting(dl), elts))
    ensures at[j] < |elts| && elts[at[j]] == ExtractContents(dl, layout[j])
    ensures 8 * Offset(SlotsOf(Slotting(dl), elts), pack, at[j]) == layout[j].range.first
  {
    hide ExtractContents;
    hide SlotsOf;
  }

  lemma LaidOutAt(dl: DataLayout, fields: seq<FieldDecl>, typeSize: Option<nat>, layout: seq<TypedRange>, j: nat)
    requires dl.Valid() && LaysOut(dl, fields, typeSize, layout) && j < |layout|
    ensures !layout[j].range.Empty() && FieldOrInteger(fields, layout[j].contents)
  {
    hide FieldOrInteger;
    hide OwnerDefines;
    hide ByteUsed;
    hide Alone;
    assert layout[j] in layout;
  }

  /** Extraction gives an integer, or bytes, or the type of a field that starts there. */
  lemma ExtractedField(dl: DataLayout, fields: seq<FieldDecl>, t: TypedRange)
    requires GoodTarget(dl) && t.range.Width() % 8 == 0 && !t.range.Empty() && FieldOrInteger(fields, t.contents)
    requires !IntegerOrBytes(ExtractContents(dl, t))
    ensures exists k :: 0 <= k < |fields| &&
              ExtractContents(dl, t) == fields[k].ty && t.range.first == fields[k].firstBit
  {
    hide SlotOf;
    hide UnitTy;
    var k :| 0 <= k < |fields| && t.contents == TypedBits(fields[k].ty, fields[k].firstBit);
  }

  /** A field on byte boundaries that overlaps no other and whose type fits it is
      an element of the struct, of the field's own type, at the field's offset. */
  lemma FieldAtItsOffset(dl: DataLayout, fields: seq<FieldDecl>, typeSize: Option<nat>, k: nat,
                         elts: seq<LlvmType>, pack: bool, layout: seq<TypedRange>, at: seq<nat>)
    requires GoodTarget(dl) && k < |fields| && Realizes(dl, layout, elts, pack, at)
    requires IntervalOf(fields[k], typeSize) in layout
    requires PrimitiveSize(fields[k].ty) % 8 == 0
    requires 8 * SlotOf(dl, fields[k].ty).size <= RangeOf(fields[k], typeSize).Width()
    ensures exists e :: 0 <= e < |elts| && elts[e] == fields[k].ty &&
              8 * Offset(SlotsOf(Slotting(dl), elts), pack, e) == fields[k].firstBit
  {
    var j :| 0 <= j < |layout| && layout[j] == IntervalOf(fields[k], typeSize);
    assert elts[at[j]] == fields[k].ty;
  }
}
