/** Assembling the initializer of a record from positioned constants. */
module RecordConstants {
  import opened Options
  import opened StructLayouts
  import opened DataLayouts
  import opened Constants
  import opened ElementPlacement

  function Slotting(dl: DataLayout): (f: Const -> Slot)
    requires dl.Valid()
    ensures forall c :: f(c) == Slot(AllocBytes(dl, TypeOf(c)), AbiAlign(dl, TypeOf(c)))
  {
    c => Slot(AllocBytes(dl, TypeOf(c)), AbiAlign(dl, TypeOf(c)))
  }

  /** Padding: zeros when globals are to be default initialized, else undefined. */
  function DefaultBytes(zero: bool): nat -> Const {
    (n: nat) => if zero then NullValue(UnitTy(n)) else CUndef(UnitTy(n))
  }

  lemma DefaultBytesSlot(dl: DataLayout, zero: bool, n: nat)
    requires dl.Valid() && dl.intAlign(BYTE_BITS) == 1
    ensures Slotting(dl)(DefaultBytes(zero)(n)) == Slot(n, 1)
  {
    NullValueType(UnitTy(n));
    UnitTyLayout(dl, n);
  }

  lemma StructSlots(dl: DataLayout, elts: seq<Const>, pack: bool)
    requires dl.Valid()
    ensures var ty := TypeOf(CStruct(elts, pack));
            ty.StructTy? && ty.packed == pack && Slots(dl, ty.fields) == SlotsOf(Slotting(dl), elts)
  {}

  /** In memory, every defined bit of every field's constant is at its position. */
  ghost predicate Stores(dl: DataLayout, fields: seq<Field<Const>>, c: Const)
    requires dl.Valid()
  {
    forall k, p :: 0 <= k < |fields| && Image(dl, fields[k].item)(p).Some? ==>
      Image(dl, c)(fields[k].first + p) == Image(dl, fields[k].item)(p)
  }

  /** Every one in memory is that of some field's constant. */
  ghost predicate OnlyStores(dl: DataLayout, fields: seq<Field<Const>>, c: Const)
    requires dl.Valid()
  {
    forall p :: Image(dl, c)(p) == Some(true) ==>
      exists k :: 0 <= k < |fields| && Image(dl, fields[k].item)(p - fields[k].first) == Some(true)
  }

  /** Elements that are not fields have all bits zero, or none defined. */
  ghost predicate PadsWith(zero: bool, fields: seq<Field<Const>>, c: Const) {
    c.CStruct? &&
    forall e :: 0 <= e < |c.fields| ==>
      || (exists k :: 0 <= k < |fields| && c.fields[e] == fields[k].item)
      || (if zero then IsNullValue(c.fields[e]) else c.fields[e].CUndef?)
  }

  /** The initializer stores every defined bit of every constant at the constant's
      position, and no other ones; it is at least as big as the type, and not
      over-aligned; padding is zero if that is asked for, and else undefined. */
  method BuildInitializer(dl: DataLayout, fields: seq<Field<Const>>, typeSize: nat, maxAlign: nat, zero: bool)
    returns (c: Const)
    requires dl.Valid() && dl.intAlign(BYTE_BITS) == 1
    requires InOrder(Slotting(dl), fields) && forall k :: 0 <= k < |fields| ==> WellTyped(fields[k].item)
    requires typeSize % 8 == 0 && maxAlign >= 8
    requires forall k :: 0 <= k < |fields| ==> PowerOfTwo(Slotting(dl)(fields[k].item).align)
    ensures c.CStruct? && WellTyped(c)
    ensures Stores(dl, fields, c) && OnlyStores(dl, fields, c) && PadsWith(zero, fields, c)
    ensures AllocBits(dl, TypeOf(c)) >= typeSize
    ensures 8 * AbiAlign(dl, TypeOf(c)) <= maxAlign
  {
    hide Image;
    hide SlotsOf;
    hide RoundUp;
    hide AllocBytes;
    hide AbiAlign;
    hide EndOf;
    hide InPlace;
    hide FieldsAndPadding;
    hide Stores;
    hide OnlyStores;
    hide PadsWith;
    forall n ensures Slotting(dl)(DefaultBytes(zero)(n)) == Slot(n, 1) { DefaultBytesSlot(dl, zero, n); }
    var elts, pack, at := BuildAtLeast(Slotting(dl), DefaultBytes(zero), fields, typeSize, maxAlign);
    c := CStruct(elts, pack);
    ElementsTyped(dl, zero, fields, elts, pack, at, c);
    InitializerStores(dl, fields, elts, pack, at);
    PaddedElements(dl, zero, fields, elts, pack, at);
    InitializerOnly(dl, zero, fields, elts, pack, at);
  }

  lemma PaddedElements(dl: DataLayout, zero: bool, fields: seq<Field<Const>>, elts: seq<Const>, pack: bool,
                       at: seq<nat>)
    requires dl.Valid() && InPlace(Slotting(dl), fields, pack, elts, at)
    requires FieldsAndPadding(DefaultBytes(zero), elts, at)
    ensures PadsWith(zero, fields, CStruct(elts, pack))
  {
    forall e: nat | e < |elts|
      ensures (exists k :: 0 <= k < |fields| && elts[e] == fields[k].item) ||
              (if zero then IsNullValue(elts[e]) else elts[e].CUndef?)
    {
      if e in at {
        var k :| 0 <= k < |at| && at[k] == e;
        assert elts[e] == fields[k].item;
      } else {
        var n :| elts[e] == DefaultBytes(zero)(n);
        NullIsNull(UnitTy(n));
      }
    }
  }

  /** A one comes from an element, and that is a field. */
  lemma InitializerOnly(dl: DataLayout, zero: bool, fields: seq<Field<Const>>, elts: seq<Const>, pack: bool,
                        at: seq<nat>)
    requires dl.Valid() && InPlace(Slotting(dl), fields, pack, elts, at)
    requires FieldsAndPadding(DefaultBytes(zero), elts, at) && WellTyped(CStruct(elts, pack))
    ensures OnlyStores(dl, fields, CStruct(elts, pack))
  {
    hide Image;
    hide InPlace;
    hide FieldsAndPadding;
    hide WellTyped;
    var c := CStruct(elts, pack);
    forall p | Image(dl, c)(p) == Some(true)
      ensures exists k :: 0 <= k < |fields| && Image(dl, fields[k].item)(p - fields[k].first) == Some(true)
    {
      var k := StoringField(dl, zero, fields, elts, pack, at, c, p);
    }
  }

  lemma StoringField(dl: DataLayout, zero: bool, fields: seq<Field<Const>>, elts: seq<Const>, pack: bool,
                     at: seq<nat>, c: Const, p: int) returns (k: nat)
    requires dl.Valid() && InPlace(Slotting(dl), fields, pack, elts, at)
    requires FieldsAndPadding(DefaultBytes(zero), elts, at)
    requires c == CStruct(elts, pack) && WellTyped(c) && Image(dl, c)(p) == Some(true)
    ensures k < |fields| && Image(dl, fields[k].item)(p - fields[k].first) == Some(true)
  {
    hide Image;
    hide InPlace;
    hide FieldsAndPadding;
    hide WellTyped;
    hide EltOffset;
    var e := StoringElement(dl, c, p);
    k := FieldOfOne(dl, zero, fields, elts, pack, at, e, p - EltOffset(dl, TypeOf(c), e));
    ElementPlaced(dl, fields, elts, pack, at, k);
  }

  lemma StoringElement(dl: DataLayout, c: Const, p: int) returns (e: nat)
    requires dl.Valid() && WellTyped(c) && c.CStruct? && Image(dl, c)(p) == Some(true)
    ensures e < NumElts(TypeOf(c)) == |c.fields|
    ensures Image(dl, c.fields[e])(p - EltOffset(dl, TypeOf(c), e)) == Some(true)
  {
    hide Image;
    hide EltOffset;
    hide StoreBytes;
    ImageUncovered(dl, c, p);
    e := CoveringElt(dl, TypeOf(c), p).value;
    ImageOfElement(dl, c, e, p);
  }

  lemma FieldOfOne(dl: DataLayout, zero: bool, fields: seq<Field<Const>>, elts: seq<Const>, pack: bool, at: seq<nat>,
                   e: nat, q: int) returns (k: nat)
    requires dl.Valid() && InPlace(Slotting(dl), fields, pack, elts, at)
    requires FieldsAndPadding(DefaultBytes(zero), elts, at) && e < |elts| && Image(dl, elts[e])(q) == Some(true)
    ensures k < |at| && at[k] == e
  {
    hide Image;
    if e !in at {
      var n :| elts[e] == DefaultBytes(zero)(n);
      NullValueType(UnitTy(n));
      NullIsNull(UnitTy(n));
      if zero { IsNullValueBits(dl, elts[e], q); } else { UndefStoresNothing(dl, UnitTy(n), q); }
    }
    k :| k < |at| && at[k] == e;
  }

  lemma ElementsTyped(dl: DataLayout, zero: bool, fields: seq<Field<Const>>, elts: seq<Const>, pack: bool,
                      at: seq<nat>, c: Const)
    requires dl.Valid() && InPlace(Slotting(dl), fields, pack, elts, at)
    requires FieldsAndPadding(DefaultBytes(zero), elts, at)
    requires forall k :: 0 <= k < |fields| ==> WellTyped(fields[k].item)
    requires c.CStruct? && c.fields == elts
    ensures WellTyped(c)
  {
    forall k: nat | k < |elts| ensures WellTyped(elts[k]) {
      if n :| elts[k] == DefaultBytes(zero)(n) { NullValueType(UnitTy(n)); }
    }
  }

  lemma InitializerStores(dl: DataLayout, fields: seq<Field<Const>>, elts: seq<Const>, pack: bool, at: seq<nat>)
    requires dl.Valid() && InPlace(Slotting(dl), fields, pack, elts, at) && |at| == |fields|
    requires WellTyped(CStruct(elts, pack))
    ensures var c := CStruct(elts, pack);
            && AllocBits(dl, TypeOf(c)) >= 8 * EndOf(Slotting(dl), elts, pack)
            && AbiAlign(dl, TypeOf(c)) == Alignment(SlotsOf(Slotting(dl), elts), pack)
            && Stores(dl, fields, c)
  {
    hide Image;
    hide RoundUp;
    hide Stores;
    hide InPlace;
    hide WellTyped;
    StructSlots(dl, elts, pack);
    InitializerPlaces(dl, fields, elts, pack, at);
  }

  lemma InitializerPlaces(dl: DataLayout, fields: seq<Field<Const>>, elts: seq<Const>, pack: bool, at: seq<nat>)
    requires dl.Valid() && InPlace(Slotting(dl), fields, pack, elts, at) && |at| == |fields|
    requires WellTyped(CStruct(elts, pack))
    ensures Stores(dl, fields, CStruct(elts, pack))
  {
    hide Image;
    hide InPlace;
    hide WellTyped;
    hide EltOffset;
    hide Slotting;
    var c := CStruct(elts, pack);
    forall k, p | 0 <= k < |fields| && Image(dl, fields[k].item)(p).Some?
      ensures Image(dl, c)(fields[k].first + p) == Image(dl, fields[k].item)(p)
    {
      ElementPlaced(dl, fields, elts, pack, at, k);
      ElementStored(dl, c, at[k], p);
    }
  }

  lemma ElementPlaced(dl: DataLayout, fields: seq<Field<Const>>, elts: seq<Const>, pack: bool, at: seq<nat>, k: nat)
    requires dl.Valid() && InPlace(Slotting(dl), fields, pack, elts, at) && k < |at|
    ensures k < |fields| && at[k] < |elts| && elts[at[k]] == fields[k].item
    ensures EltOffset(dl, TypeOf(CStruct(elts, pack)), at[k]) == fields[k].first
  {
    hide RoundUp;
    StructSlots(dl, elts, pack);
  }

  lemma ElementStored(dl: DataLayout, c: Const, i: nat, p: int)
    requires dl.Valid() && WellTyped(c) && c.CStruct? && i < |c.fields| && Image(dl, c.fields[i])(p).Some?
    ensures Image(dl, c)(EltOffset(dl, TypeOf(c), i) + p) == Image(dl, c.fields[i])(p)
  {
    hide Image;
    hide StoreBytes;
    hide EltOffset;
    ImageIsData(dl, c.fields[i], p);
    ImageOfElement(dl, c, i, EltOffset(dl, TypeOf(c), i) + p);
  }
}
