/** A constant restricted to a range of bits, and its rendering as a constant
    that fits the range. */
module FieldContents {
  import opened Options
  import opened Arith
  import opened Bits
  import opened Ranges
  import opened DataLayouts
  import opened Constants
  import opened Interpretation
  import opened Joining
  import BS = BitSlices

  /** A number of bits rounded up to whole bytes. */
  function WholeBytes(bits: nat): (r: nat)
    ensures bits <= r < bits + 8 && r % 8 == 0
  {
    MultipleMod((bits + 7) / 8, 8);
    (bits + 7) / 8 * 8
  }

  /** A constant of a type like i17 rounded up to whole bytes by zero extension. */
  function RoundedToBytes(c: Const): Const {
    if PrimitiveBits(TypeOf(c)) % 8 == 0 then c
    else CInt(WholeBytes(PrimitiveBits(TypeOf(c))), if c.CInt? then c.value else 0)
  }

  function RoundedTy(ty: Ty): Ty {
    if PrimitiveBits(ty) % 8 == 0 then ty else IntTy(WholeBytes(PrimitiveBits(ty)))
  }

  /** Rounding the width up does not move the bits of an integer in memory. */
  lemma RoundedBit(dl: DataLayout, bits: nat, p: int)
    requires dl.Valid() && bits >= 1 && DataBit(dl, IntTy(bits), p)
    ensures var rounded := WholeBytes(bits);
            && DataBit(dl, IntTy(rounded), p)
            && BitIndex(dl, IntFirst(dl, rounded), IntFirst(dl, rounded) + rounded, p) ==
               BitIndex(dl, IntFirst(dl, bits), IntFirst(dl, bits) + bits, p)
  {}

  lemma IntRounded(dl: DataLayout, bits: nat, value: nat)
    requires dl.Valid() && value < Pow2(bits) && bits >= 1
    ensures var wide := CInt(WholeBytes(bits), value);
            && WellTyped(wide)
            && forall p :: Image(dl, CInt(bits, value))(p).Some? ==>
                 Image(dl, wide)(p) == Image(dl, CInt(bits, value))(p)
  {
    hide Bit;
    hide DataBit;
    hide Image;
    hide IntFirst;
    hide BitIndex;
    hide WholeBytes;
    var rounded := WholeBytes(bits);
    Pow2Mono(bits, rounded);
    forall p | Image(dl, CInt(bits, value))(p).Some?
      ensures Image(dl, CInt(rounded, value))(p) == Image(dl, CInt(bits, value))(p)
    {
      IntIsData(dl, bits, value, p);
      RoundedBit(dl, bits, p);
      IntImage(dl, bits, value, p);
      IntImage(dl, rounded, value, p);
    }
  }

  lemma RoundedFacts(dl: DataLayout, c: Const)
    requires dl.Valid() && WellTyped(c)
    ensures TypeOf(RoundedToBytes(c)) == RoundedTy(TypeOf(c)) && WellTyped(RoundedToBytes(c))
    ensures PrimitiveBits(TypeOf(RoundedToBytes(c))) % 8 == 0
    ensures Reflects(dl, Image(dl, c), TypeOf(c), RoundedToBytes(c))
  {
    hide Image;
    hide DataBit;
    hide Bit;
    hide Reflects;
    hide WholeBytes;
    ImageReflects(dl, c);
    var bits := PrimitiveBits(TypeOf(c));
    if bits % 8 != 0 {
      if c.CInt? { IntRounded(dl, c.bits, c.value); } else { UndefRounded(dl, c.ty); }
      StillReflects(dl, Image(dl, c), TypeOf(c), c, RoundedToBytes(c));
    }
  }

  lemma StillReflects(dl: DataLayout, m: Mem, known: Ty, c: Const, d: Const)
    requires dl.Valid() && Reflects(dl, m, known, c)
    requires forall p :: Image(dl, c)(p).Some? ==> Image(dl, d)(p) == Image(dl, c)(p)
    ensures Reflects(dl, m, known, d)
  {
    hide Image;
    hide DataBit;
  }

  lemma UndefRounded(dl: DataLayout, ty: Ty)
    requires dl.Valid() && ty.IntTy? && WellFormedTy(ty)
    ensures WellTyped(CInt(WholeBytes(ty.bits), 0))
    ensures forall p :: Image(dl, CUndef(ty))(p) == None
  {
    Pow2Mono(0, WholeBytes(ty.bits));
    forall p ensures Image(dl, CUndef(ty))(p) == None { UndefStoresNothing(dl, ty, p); }
  }

  /** Bit p of the first size bits is the bit of memory m found shift further on,
      wherever that is defined. */
  ghost predicate Holds(dl: DataLayout, m: Mem, shift: int, size: nat, d: Const)
    requires dl.Valid()
  {
    forall p :: 0 <= p < size && m(p + shift).Some? ==> Image(dl, d)(p) == m(p + shift)
  }

  /** The constant, starting at bit starts, can stand for the bits of the range. */
  predicate SafeToReturn(dl: DataLayout, c: Const, starts: int, r: Range)
    requires dl.Valid()
  {
    && (r.Empty() || r.first == starts)
    && PrimitiveBits(TypeOf(c)) % 8 == 0
    && AllocBits(dl, TypeOf(c)) <= r.Width()
  }

  /** What extraction returns: the constant if that is safe; nothing for an empty
      range; the constant rounded to bytes if that is safe; else the range's bytes. */
  ghost predicate Extraction(dl: DataLayout, c: Const, starts: int, r: Range, val: Const)
    requires dl.Valid()
  {
    if SafeToReturn(dl, c, starts, r) then val == c
    else if r.Empty() then val == CUndef(UnitTy(0))
    else if SafeToReturn(dl, RoundedToBytes(c), starts, r) then val == RoundedToBytes(c)
    else Interpreted(dl, RoundedToBytes(c), UnitTy(r.Width() / 8), r.first - starts, val)
  }

  /** No byte of the range, nor the range as a whole, has the type of the constant
      rounded to bytes where that would sit shifted over bits of the constant. */
  ghost predicate Undisplaced(dl: DataLayout, ty: Ty, starts: int, r: Range)
    requires dl.Valid()
  {
    Undisturbed(dl, ty, RoundedTy(ty), UnitTy(r.Width() / 8), r.first - starts)
  }

  /** Then extraction returns every defined bit in the range... */
  lemma ExtractionHolds(dl: DataLayout, c: Const, starts: int, r: Range, val: Const)
    requires dl.Valid() && dl.intAlign(BYTE_BITS) == 1 && WellTyped(c) && r.Width() % 8 == 0 && !r.Empty()
    requires Extraction(dl, c, starts, r, val) && Undisplaced(dl, TypeOf(c), starts, r)
    ensures Holds(dl, Image(dl, c), r.first - starts, r.Width(), val)
  {
    hide Image;
    hide Interpreted;
    hide Undisturbed;
    hide DataBit;
    hide AllocBytes;
    RoundedFacts(dl, c);
    if !SafeToReturn(dl, c, starts, r) && !SafeToReturn(dl, RoundedToBytes(c), starts, r) {
      InterpretedType(dl, RoundedToBytes(c), UnitTy(r.Width() / 8), r.first - starts, val);
      InterpretedLoads(dl, Image(dl, c), TypeOf(c), RoundedToBytes(c), UnitTy(r.Width() / 8), r.first - starts, val);
      BytesHold(dl, Image(dl, c), r.Width() / 8, r.first - starts, val);
    }
  }

  lemma InterpretedType(dl: DataLayout, c: Const, ty: Ty, start: int, d: Const)
    requires dl.Valid() && Interpreted(dl, c, ty, start, d)
    ensures TypeOf(d) == ty && WellTyped(d)
  {}

  lemma BytesHold(dl: DataLayout, m: Mem, units: nat, shift: int, val: Const)
    requires dl.Valid() && dl.intAlign(BYTE_BITS) == 1
    requires TypeOf(val) == UnitTy(units) && Loads(dl, m, shift, val)
    ensures Holds(dl, m, shift, 8 * units, val)
  {
    hide Image;
    hide DataBit;
    UnitsDense(dl, units);
    forall p | 0 <= p < 8 * units && m(p + shift).Some? ensures Image(dl, val)(p) == m(p + shift) {
      assert m(shift + p) == m(p + shift);
      LoadsAt(dl, m, shift, val, p);
    }
  }

  lemma UnitsDense(dl: DataLayout, units: nat)
    requires dl.Valid() && dl.intAlign(BYTE_BITS) == 1
    ensures Dense(dl, UnitTy(units), 8 * units)
  {
    if units == 1 { IntDense(dl, 8); } else { BytesDense(dl, units); }
  }

  /** A constant of the type with a single set bit, which the rounded constant has
      at another place while a zero is found where the bit should be. */
  lemma ClashWitness(dl: DataLayout, ty: Ty, distance: int) returns (c: Const, p: int)
    requires dl.Valid() && WellFormedTy(ty) && Clashes(dl, ty, RoundedTy(ty), distance)
    ensures WellTyped(c) && TypeOf(c) == ty && DataBit(dl, RoundedTy(ty), p)
    ensures Image(dl, c)(p + distance) == Some(true) && Image(dl, RoundedToBytes(c))(p) == Some(false)
  {
    hide Image;
    hide DataBit;
    hide OneBit;
    p :| DataBit(dl, RoundedTy(ty), p) && DataBit(dl, ty, p + distance);
    c := OneBit(dl, ty, p + distance);
    OneBitType(dl, ty, p + distance);
    OneBitImage(dl, ty, p + distance, p + distance);
    if RoundedTy(ty) == ty {
      OneBitImage(dl, ty, p + distance, p);
    } else {
      RoundedOneBit(dl, ty.bits, p + distance, p);
    }
  }

  lemma RoundedOneBit(dl: DataLayout, bits: nat, p: int, q: int)
    requires dl.Valid() && bits >= 1 && bits % 8 != 0 && DataBit(dl, IntTy(bits), p) && q != p
    requires DataBit(dl, RoundedTy(IntTy(bits)), q)
    ensures Image(dl, RoundedToBytes(OneBit(dl, IntTy(bits), p)))(q) == Some(false)
  {
    hide StoreBytes;
    hide Bit;
    var first, rounded := IntFirst(dl, bits), WholeBytes(bits);
    var k := BitIndex(dl, first, first + bits, p);
    assert OneBit(dl, IntTy(bits), p) == CInt(bits, Pow2(k));
    RoundedBit(dl, bits, p);
    IntImage(dl, rounded, Pow2(k), q);
    Pow2Bits(k, BitIndex(dl, IntFirst(dl, rounded), IntFirst(dl, rounded) + rounded, q));
  }

  /** Bytes other than the range as a whole that the constant is taken for. */
  lemma ClashingByte(dl: DataLayout, ty: Ty, units: nat, shift: int) returns (i: nat)
    requires dl.Valid() && dl.intAlign(BYTE_BITS) == 1 && RoundedTy(ty) != UnitTy(units)
    requires !Undisturbed(dl, ty, RoundedTy(ty), UnitTy(units), shift)
    ensures i < units && units != 1 && RoundedTy(ty) == IntTy(8)
    ensures shift != 0 && Clashes(dl, ty, IntTy(8), shift + 8 * i)
  {
    hide Clashes;
    hide AllocBytes;
    ByteLayout(dl);
    var bytes := UnitTy(units);
    i :| i < NumElts(bytes) && !Undisturbed(dl, ty, RoundedTy(ty), Elt(bytes, i), shift + EltOffset(dl, bytes, i));
    assert EltOffset(dl, bytes, i) == i * 8;
    ClashingByteShift(dl, ty, shift, i);
  }

  lemma ClashingByteShift(dl: DataLayout, ty: Ty, shift: int, i: nat)
    requires dl.Valid() && RoundedTy(ty) == IntTy(8) && Clashes(dl, ty, IntTy(8), shift + 8 * i)
    ensures shift != 0
  {
    var p :| DataBit(dl, IntTy(8), p) && DataBit(dl, ty, p + (shift + 8 * i));
    DataBitInStore(dl, ty, p + (shift + 8 * i));
  }

  lemma Copies(dl: DataLayout, b: Const, units: nat, start: int, i: nat, p: int)
    requires dl.Valid() && dl.intAlign(BYTE_BITS) == 1 && WellTyped(b) && TypeOf(b) == IntTy(8)
    requires units != 1 && i < units && 0 <= p < 8
    ensures var copies := CArray(IntTy(8), seq(units, _ => b));
            Interpreted(dl, b, UnitTy(units), start, copies) && Image(dl, copies)(8 * i + p) == Image(dl, b)(p)
  {
    hide Image;
    hide AllocBytes;
    hide StoreBytes;
    ByteLayout(dl);
    var copies := CArray(IntTy(8), seq(units, _ => b));
    assert EltOffset(dl, UnitTy(units), i) == i * 8;
    assert Covers(dl, UnitTy(units), i, 8 * i + p);
    ImageOfElement(dl, copies, i, 8 * i + p);
  }

  lemma Missing(dl: DataLayout, m: Mem, shift: int, size: nat, d: Const, p: int)
    requires dl.Valid() && 0 <= p < size && m(p + shift).Some? && Image(dl, d)(p) != m(p + shift)
    ensures !Holds(dl, m, shift, size, d)
  {}

  /** ... and otherwise there is a constant of the type for which it does not. */
  lemma ExtractionFails(dl: DataLayout, ty: Ty, starts: int, r: Range) returns (c: Const, val: Const)
    requires dl.Valid() && dl.intAlign(BYTE_BITS) == 1 && WellFormedTy(ty) && r.Width() % 8 == 0 && !r.Empty()
    requires !Undisplaced(dl, ty, starts, r)
    ensures WellTyped(c) && TypeOf(c) == ty
    ensures Extraction(dl, c, starts, r, val) && !Holds(dl, Image(dl, c), r.first - starts, r.Width(), val)
  {
    hide Image;
    hide DataBit;
    hide Holds;
    hide AllocBytes;
    hide StoreBytes;
    var units, shift := r.Width() / 8, r.first - starts;
    if RoundedTy(ty) == UnitTy(units) {
      var p;
      c, p := ClashWitness(dl, ty, shift);
      RoundedFacts(dl, c);
      val := RoundedToBytes(c);
      UnitTyLayout(dl, units);
      DataBitInStore(dl, UnitTy(units), p);
      Missing(dl, Image(dl, c), shift, r.Width(), val, p);
    } else {
      var i := ClashingByte(dl, ty, units, shift);
      var p;
      c, p := ClashWitness(dl, ty, shift + 8 * i);
      RoundedFacts(dl, c);
      val := CArray(IntTy(8), seq(units, _ => RoundedToBytes(c)));
      ByteLayout(dl);
      DataBitInStore(dl, IntTy(8), p);
      Copies(dl, RoundedToBytes(c), units, shift, i, p);
      assert p + (shift + 8 * i) == 8 * i + p + shift;
      Missing(dl, Image(dl, c), shift, r.Width(), val, 8 * i + p);
    }
  }

  /** Extraction returns every defined bit in the range, for all constants of the
      type, exactly when no shifted use is possible. */
  lemma ExtractionExact(dl: DataLayout, ty: Ty, starts: int, r: Range)
    requires dl.Valid() && dl.intAlign(BYTE_BITS) == 1 && WellFormedTy(ty) && r.Width() % 8 == 0 && !r.Empty()
    ensures (forall c, val :: WellTyped(c) && TypeOf(c) == ty && Extraction(dl, c, starts, r, val) ==>
              Holds(dl, Image(dl, c), r.first - starts, r.Width(), val))
            <==> Undisplaced(dl, ty, starts, r)
  {
    hide Image;
    hide Holds;
    hide Extraction;
    hide Undisplaced;
    if Undisplaced(dl, ty, starts, r) {
      forall c, val | WellTyped(c) && TypeOf(c) == ty && Extraction(dl, c, starts, r, val)
        ensures Holds(dl, Image(dl, c), r.first - starts, r.Width(), val)
      {
        ExtractionHolds(dl, c, starts, r, val);
      }
    } else {
      var c, val := ExtractionFails(dl, ty, starts, r);
    }
  }

  /** A range in which every bit is one of the constant's is in order. */
  lemma DataUndisplaced(dl: DataLayout, ty: Ty, starts: int, r: Range)
    requires dl.Valid() && dl.intAlign(BYTE_BITS) == 1 && r.Width() % 8 == 0 && !r.Empty()
    requires forall p :: r.Has(p) ==> DataBit(dl, ty, p - starts)
    ensures Undisplaced(dl, ty, starts, r)
  {
    hide StoreBytes;
    hide Undisturbed;
    hide DataBit;
    assert r.Has(r.first) && r.Has(r.last - 1);
    DataBitInStore(dl, ty, r.first - starts);
    DataBitInStore(dl, ty, r.last - 1 - starts);
    if PrimitiveBits(ty) % 8 == 0 {
      InBoundsUndisplaced(dl, ty, starts, r);
    } else {
      DataBitOfInt(dl, ty.bits, r.first - starts);
      DataBitOfInt(dl, ty.bits, r.last - 1 - starts);
      BytesDisturbed(dl, ty, r.Width() / 8, r.first - starts);
    }
  }

  /** A range within a constant of whole bytes is in order... */
  lemma InBoundsUndisplaced(dl: DataLayout, ty: Ty, starts: int, r: Range)
    requires dl.Valid() && dl.intAlign(BYTE_BITS) == 1 && r.Width() % 8 == 0 && PrimitiveBits(ty) % 8 == 0
    requires !r.Empty() && starts <= r.first && r.last <= starts + StoreBits(dl, ty)
    ensures Undisplaced(dl, ty, starts, r)
  {
    hide StoreBytes;
    hide Undisturbed;
    UnitTyLayout(dl, r.Width() / 8);
    InBoundsUndisturbed(dl, ty, ty, UnitTy(r.Width() / 8), r.first - starts);
  }

  /** ... and so is a range that contains an integer of more than eight bits; a shorter
      one is displaced exactly when it does not begin on a byte boundary. */
  lemma ShortIntegersDisplaced(dl: DataLayout, bits: nat, starts: int, r: Range)
    requires dl.Valid() && dl.intAlign(BYTE_BITS) == 1 && !dl.bigEndian && bits >= 1
    requires r.first % 8 == 0 && r.last % 8 == 0 && r.first <= starts && starts + bits <= r.last
    ensures Undisplaced(dl, IntTy(bits), starts, r) <==> bits > 8 || starts % 8 == 0
  {
    hide Clashes;
    hide Undisturbed;
    hide DataBit;
    var units, shift := r.Width() / 8, r.first - starts;
    BytesDisturbed(dl, IntTy(bits), units, shift);
    if bits <= 8 {
      assert RoundedTy(IntTy(bits)) == IntTy(8);
      var i: nat := (starts - r.first) / 8;
      assert -8 < shift + 8 * i <= 0 && i < units;
      if starts % 8 != 0 {
        ByteClash(dl, bits, shift + 8 * i);
      } else {
        forall j: nat | j < units ensures !Clashes(dl, IntTy(bits), IntTy(8), shift + 8 * j) {
          ByteClash(dl, bits, shift + 8 * j);
          if shift + 8 * j != 0 { MultipleOfEight(shift + 8 * j); }
        }
      }
    }
  }

  lemma MultipleOfEight(n: int)
    requires n % 8 == 0 && n != 0
    ensures n <= -8 || n >= 8
  {}

  /** What it takes for an integer not to be taken for one of the bytes. */
  lemma BytesDisturbed(dl: DataLayout, ty: Ty, units: nat, shift: int)
    requires dl.Valid() && dl.intAlign(BYTE_BITS) == 1 && ty.IntTy? && units >= 1
    ensures Undisturbed(dl, ty, RoundedTy(ty), UnitTy(units), shift) <==>
            (RoundedTy(ty) == IntTy(8) ==> forall i: nat :: i < units ==> !Clashes(dl, ty, IntTy(8), shift + 8 * i))
  {
    hide Clashes;
    hide AllocBytes;
    ByteLayout(dl);
    var bytes := UnitTy(units);
    if units == 1 {
      assert shift + 8 * 0 == shift;
    } else {
      forall i: nat | i < units
        ensures Undisturbed(dl, ty, RoundedTy(ty), Elt(bytes, i), shift + EltOffset(dl, bytes, i)) <==>
                (RoundedTy(ty) == IntTy(8) ==> !Clashes(dl, ty, IntTy(8), shift + 8 * i))
      {
        assert EltOffset(dl, bytes, i) == i * 8;
      }
      assert Undisturbed(dl, ty, RoundedTy(ty), bytes, shift) <==>
             forall i: nat :: i < NumElts(bytes) ==>
               Undisturbed(dl, ty, RoundedTy(ty), Elt(bytes, i), shift + EltOffset(dl, bytes, i));
      if RoundedTy(ty) == IntTy(8) && Undisturbed(dl, ty, RoundedTy(ty), bytes, shift) {
        forall i: nat | i < units ensures !Clashes(dl, ty, IntTy(8), shift + 8 * i) {
          assert Undisturbed(dl, ty, RoundedTy(ty), Elt(bytes, i), shift + EltOffset(dl, bytes, i));
        }
      }
    }
  }

  lemma ByteClash(dl: DataLayout, bits: nat, distance: int)
    requires dl.Valid() && !dl.bigEndian && 1 <= bits <= 8
    ensures Clashes(dl, IntTy(bits), IntTy(8), distance) <==> distance != 0 && -8 < distance < bits
  {
    if distance != 0 && -8 < distance < bits {
      var p := if distance < 0 then -distance else 0;
      assert DataBit(dl, IntTy(8), p) && DataBit(dl, IntTy(bits), p + distance);
    }
  }

  /** A constant that does not start on a byte boundary is taken for the bytes of the
      range, although it is shifted against them. */
  predicate Misread(ty: Ty, starts: int, r: Range) {
    starts % 8 != 0 && (RoundedTy(ty) == IntTy(8) || RoundedTy(ty) == UnitTy(r.Width() / 8))
  }

  /** Nothing else can go wrong with a constant that starts in the first byte. */
  lemma ReadWell(dl: DataLayout, ty: Ty, starts: int, r: Range)
    requires dl.Valid() && dl.intAlign(BYTE_BITS) == 1 && !Misread(ty, starts, r)
    requires starts % 8 == 0 ==> r.first == starts
    ensures Undisplaced(dl, ty, starts, r)
  {
    hide Undisturbed;
    if starts % 8 == 0 {
      ClashNeedsShift(dl, ty, r.Width() / 8);
    } else {
      NotBytes(dl, ty, RoundedTy(ty), r.Width() / 8, r.first - starts);
    }
  }

  lemma NotBytes(dl: DataLayout, known: Ty, ty: Ty, units: nat, shift: int)
    requires dl.Valid() && ty != IntTy(8) && ty != UnitTy(units)
    ensures Undisturbed(dl, known, ty, UnitTy(units), shift)
  {
    hide Clashes;
    hide AllocBytes;
    forall i: nat | i < NumElts(UnitTy(units))
      ensures Undisturbed(dl, known, ty, Elt(UnitTy(units), i), shift + EltOffset(dl, UnitTy(units), i))
    {
      assert NumElts(Elt(UnitTy(units), i)) == 0;
    }
  }

  lemma ClashNeedsShift(dl: DataLayout, ty: Ty, units: nat)
    requires dl.Valid() && dl.intAlign(BYTE_BITS) == 1
    ensures Undisturbed(dl, ty, RoundedTy(ty), UnitTy(units), 0)
  {
    if RoundedTy(ty) != UnitTy(units) && !Undisturbed(dl, ty, RoundedTy(ty), UnitTy(units), 0) {
      var i := ClashingByte(dl, ty, units, 0);
    }
  }

  /** What is returned when a constant is misread: each bit is that of the constant, as
      if it started with the range, or with each of its bytes. */
  lemma MisreadBits(dl: DataLayout, c: Const, starts: int, r: Range, val: Const, q: int)
    requires dl.Valid() && dl.intAlign(BYTE_BITS) == 1 && WellTyped(c)
    requires r.first % 8 == 0 && r.Width() % 8 == 0 && 0 <= q < r.Width()
    requires Misread(TypeOf(c), starts, r) && Extraction(dl, c, starts, r, val)
    ensures Image(dl, val)(q) ==
            Image(dl, RoundedToBytes(c))(if RoundedTy(TypeOf(c)) == UnitTy(r.Width() / 8) then q else q % 8)
  {
    hide Image;
    hide AllocBytes;
    hide StoreBytes;
    hide WholeBytes;
    var units := r.Width() / 8;
    RoundedFacts(dl, c);
    if RoundedTy(TypeOf(c)) == UnitTy(units) {
      assert val == RoundedToBytes(c);
    } else {
      BytewiseImage(dl, RoundedToBytes(c), units, r.first - starts, val, q);
    }
  }

  /** A byte interpreted as other than one byte is every one of the bytes. */
  lemma BytewiseImage(dl: DataLayout, c: Const, units: nat, shift: int, val: Const, q: int)
    requires dl.Valid() && dl.intAlign(BYTE_BITS) == 1 && TypeOf(c) == IntTy(8) && units != 1 && 0 <= q < 8 * units
    requires Interpreted(dl, c, UnitTy(units), shift, val)
    ensures Image(dl, val)(q) == Image(dl, c)(q % 8)
  {
    hide Image;
    hide AllocBytes;
    hide StoreBytes;
    var i: nat := q / 8;
    ByteLayout(dl);
    assert EltOffset(dl, UnitTy(units), i) == i * 8;
    assert Covers(dl, UnitTy(units), i, q);
    ImageOfElement(dl, val, i, q);
    assert ExtractValue(val, i) == c;
  }

  /** The single set bit at position p is not where it should be. */
  lemma MisreadLoses(dl: DataLayout, ty: Ty, starts: int, r: Range, p: int, val: Const)
    requires dl.Valid() && dl.intAlign(BYTE_BITS) == 1 && WellFormedTy(ty)
    requires r.first % 8 == 0 && r.Width() % 8 == 0 && r.Has(p) && DataBit(dl, ty, p - starts)
    requires Misread(ty, starts, r) && Extraction(dl, OneBit(dl, ty, p - starts), starts, r, val)
    ensures Image(dl, val)(p - r.first) == Some(false)
  {
    hide Image;
    hide DataBit;
    hide OneBit;
    hide Extraction;
    hide WholeBytes;
    var units, q := r.Width() / 8, p - r.first;
    OneBitType(dl, ty, p - starts);
    MisreadBits(dl, OneBit(dl, ty, p - starts), starts, r, val, q);
    UnitsDense(dl, units);
    IntDense(dl, 8);
    var read := if RoundedTy(ty) == UnitTy(units) then q else q % 8;
    DataBitInStore(dl, ty, p - starts);
    assert read != p - starts;
    assert DataBit(dl, RoundedTy(ty), read);
    if RoundedTy(ty) == ty {
      OneBitImage(dl, ty, p - starts, read);
    } else {
      RoundedOneBit(dl, ty.bits, p - starts, read);
    }
  }

  class FieldContents {
    var r: Range
    var c: Option<Const>
    var starts: int  // position of the first bit of the constant

    ghost predicate Valid()
      reads this
    {
      (r.Empty() || c.Some?) && (c.Some? ==> WellTyped(c.value))
    }

    /** Fills the range [first, last) with the given constant. */
    constructor (first: int, last: int, contents: Const)
      requires WellTyped(contents)
      ensures Valid() && r == Range(first, last) && c == Some(contents) && starts == first
    {
      r := Range(first, last);
      c := Some(contents);
      starts := first;
    }

    method ChangeRangeTo(range: Range)
      requires Valid() && c.Some?
      modifies this`r
      ensures Valid() && r == range
    {
      r := range;
    }

    /** The bits in the range as an integer; None if the range is empty. */
    method GetAsBits(dl: DataLayout) returns (bits: Option<Const>)
      requires dl.Valid() && Valid()
      ensures bits == None <==> r.Empty()
      ensures bits.Some? ==>
                Interpreted(dl, c.value, IntTy(r.Width()), r.first - starts, bits.value)
    {
      if r.Empty() {
        return None;
      }
      var d := InterpretAsType(dl, c.value, IntTy(r.Width()), r.first - starts);
      bits := Some(d);
    }

    /** Forms the union of this field with another, disjoint one. */
    method JoinWith(dl: DataLayout, s: FieldContents)
      requires dl.Valid() && Valid() && s.Valid() && !r.Intersects(s.r)
      modifies this
      ensures Valid() && r.Same(old(r).Join(old(s.r)))
      ensures old(s.r).Empty() ==> r == old(r) && c == old(c) && starts == old(starts)
      ensures !old(s.r).Empty() && old(r).Empty() ==> r == old(s.r) && c == old(s.c) && starts == old(s.starts)
      ensures !old(s.r).Empty() && !old(r).Empty() ==>
                c.Some? && Positioned(c.value, starts) ==
                           JoinedWith(dl, Positioned(old(c).value, old(starts)), old(r),
                                      Positioned(old(s.c).value, old(s.starts)), old(s.r))
    {
      hide Interpreted;
      hide Image;
      if s.r.Empty() {
        return;
      }
      if r.Empty() {
        r, c, starts := s.r, s.c, s.starts;
        return;
      }
      var x := GetAsBits(dl);
      var y := s.GetAsBits(dl);
      ghost var mine, other := Positioned(c.value, starts), Positioned(s.c.value, s.starts);
      assert AsBits(dl, mine, r, ValueOf(x.value)) && AsBits(dl, other, s.r, ValueOf(y.value));
      SliceFits(dl, mine, r, ValueOf(x.value));
      SliceFits(dl, other, s.r, ValueOf(y.value));
      var bits := BS.BitSlice(r, ValueOf(x.value));
      bits := BS.Merge(dl, bits, BS.BitSlice(s.r, ValueOf(y.value)));
      MergedIsJoined(dl, mine, r, ValueOf(x.value), other, s.r, ValueOf(y.value));
      r := bits.range;
      c := Some(BS.GetBits(dl, bits, r));
      starts := r.first;
    }

    predicate IsSafeToReturnContentsDirectly(dl: DataLayout)
      requires dl.Valid()
      reads this
    {
      c.Some? && SafeToReturn(dl, c.value, starts, r)
    }

    /** The contents as a constant no larger than the range.  By ExtractionExact
        every defined bit of the range is kept, whatever the constant, exactly when
        the constant, rounded to bytes, cannot be taken for bytes of the range while
        shifted against them. */
    method ExtractContents(dl: DataLayout) returns (val: Const)
      requires dl.Valid() && dl.intAlign(BYTE_BITS) == 1 && Valid() && r.Width() % 8 == 0
      modifies this
      ensures Valid() && r == old(r) && c == Some(val) && IsSafeToReturnContentsDirectly(dl)
      ensures old(c).Some? ==> Extraction(dl, old(c).value, old(starts), r, val)
      ensures !r.Empty() && Undisplaced(dl, TypeOf(old(c).value), old(starts), r) ==>
                Holds(dl, Image(dl, old(c).value), r.first - old(starts), r.Width(), val)
    {
      hide Image;
      hide Undisplaced;
      hide Interpreted;
      hide Holds;
      hide StoreBytes;
      hide WellTyped;
      ghost var was, from := c, starts;
      if IsSafeToReturnContentsDirectly(dl) {
        val := c.value;
      } else if r.Empty() {
        val := EmptyUnits(dl);
        c := Some(val);
      } else {
        RoundedFacts(dl, c.value);
        if PrimitiveBits(TypeOf(c.value)) % 8 != 0 {
          c := Some(RoundedToBytes(c.value));
        }
        val := c.value;
        if !IsSafeToReturnContentsDirectly(dl) {
          val := Bytes(dl, c.value, r.Width() / 8, r.first - starts);
          c := Some(val);
          starts := r.first;
        }
      }
      if !r.Empty() && Undisplaced(dl, TypeOf(was.value), from, r) {
        ExtractionHolds(dl, was.value, from, r, val);
      }
    }
  }

  method EmptyUnits(dl: DataLayout) returns (val: Const)
    requires dl.Valid() && dl.intAlign(BYTE_BITS) == 1
    ensures val == CUndef(UnitTy(0)) && WellTyped(val)
    ensures AllocBits(dl, TypeOf(val)) == 0 && PrimitiveBits(TypeOf(val)) % 8 == 0
  {
    UnitTyLayout(dl, 0);
    val := CUndef(UnitTy(0));
  }

  /** The bytes found shift bits into a constant. */
  method Bytes(dl: DataLayout, c: Const, units: nat, shift: int) returns (val: Const)
    requires dl.Valid() && dl.intAlign(BYTE_BITS) == 1 && WellTyped(c)
    ensures Interpreted(dl, c, UnitTy(units), shift, val) && WellTyped(val)
    ensures AllocBits(dl, TypeOf(val)) == 8 * units && PrimitiveBits(TypeOf(val)) % 8 == 0
  {
    UnitTyLayout(dl, units);
    val := InterpretAsType(dl, c, UnitTy(units), shift);
  }

  /** A bit-field can bring the failure about: a byte whose first bit is at bit 3,
      asked for as the byte from bit 0 on, is handed back as it stands, so that its
      first bit ends up at bit 0 and a zero at bit 3. */
  method ShiftedByteIsNotMoved(dl: DataLayout) returns (field: FieldContents, val: Const)
    requires dl.Valid() && dl.intAlign(BYTE_BITS) == 1
    ensures Image(dl, val)(3) == Some(false) && Image(dl, val)(0) == Some(true)
  {
    var first := CInt(8, if dl.bigEndian then 128 else 1);
    assert Pow2(8) == 256;
    field := new FieldContents(3, 8, first);
    field.ChangeRangeTo(Range(0, 8));
    val := field.ExtractContents(dl);
  }

  /** On big-endian machines joining may lose bits: three bits at the start of a byte
      are read as the low-order bits of that byte, so the bit that is set is lost. */
  method JoinedOnBigEndian(dl: DataLayout) returns (field: FieldContents)
    requires dl.Valid() && dl.bigEndian
    ensures field.r == Range(0, 8) && field.c.Some? && field.starts == 0
    ensures Image(dl, CInt(8, 128))(0) == Some(true) && Image(dl, field.c.value)(0) == Some(false)
  {
    hide Image;
    hide WellTyped;
    hide JoinedWith;
    HighBit(dl);
    field := new FieldContents(0, 3, CInt(8, 128));
    var other := new FieldContents(3, 8, CInt(8, 0));
    field.JoinWith(dl, other);
    LostBit(dl);
  }

  lemma HighBit(dl: DataLayout)
    requires dl.Valid() && dl.bigEndian
    ensures WellTyped(CInt(8, 128)) && WellTyped(CInt(8, 0))
    ensures Image(dl, CInt(8, 128))(0) == Some(true) && Image(dl, CInt(8, 128))(5) == Some(false)
  {
    assert Pow2(8) == 256;
  }

  lemma LostBit(dl: DataLayout)
    requires dl.Valid() && dl.bigEndian
    ensures var joined := JoinedWith(dl, Positioned(CInt(8, 128), 0), Range(0, 3),
                                     Positioned(CInt(8, 0), 3), Range(3, 8));
            joined.starts == 0 && Image(dl, joined.c)(0) == Some(false)
  {
    hide Image;
    var x, xr, yr := Positioned(CInt(8, 128), 0), Range(0, 3), Range(3, 8);
    HighBit(dl);
    assert IntFirst(dl, 3) == 5 && IntFirst(dl, 8) == 0;
    JoinedImage(dl, x, xr, Positioned(CInt(8, 0), 3), yr, 0);
  }
}
