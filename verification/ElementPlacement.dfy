/** Turning a list of positioned fields into the elements of a struct: choosing
    between a packed and an ordinary struct, and inserting padding so that layout
    puts every field back at its position. */
module ElementPlacement {
  import opened Arith
  import opened Bits
  import opened Options
  import opened StructLayouts

  /** Something placed at a bit offset. */
  datatype Field<T> = Field(first: nat, item: T)

  function SlotsOf<T>(slot: T -> Slot, elts: seq<T>): (slots: seq<Slot>)
    ensures |slots| == |elts|
    ensures forall i :: 0 <= i < |elts| ==> slots[i] == slot(elts[i])
  {
    seq(|elts|, i requires 0 <= i < |elts| => slot(elts[i]))
  }

  ghost predicate PowerOfTwo(n: nat) {
    exists k: nat :: n == Pow2(k)
  }

  lemma PowersDivide(a: nat, b: nat)
    requires PowerOfTwo(a) && PowerOfTwo(b) && a <= b
    ensures b % a == 0
  {
    var j: nat :| a == Pow2(j);
    var k: nat :| b == Pow2(k);
    if j > k { Pow2Mono(k + 1, j); }
    Pow2Add(k - j, j);
    MultipleMod(Pow2(k - j), a);
  }

  lemma ModMultiple(x: nat, a: nat, b: nat)
    requires a >= 1 && b >= 1 && x % b == 0 && b % a == 0
    ensures x % a == 0
  {
    var i, j := x / b, b / a;
    assert x == i * b && b == j * a;
    assert x == (i * j) * a;
    MultipleMod(i * j, a);
  }

  /** Rounding bit positions up by a bit alignment is rounding bytes. */
  lemma RoundUpBits(e: nat, a: nat)
    requires a >= 1
    ensures (8 * e + 8 * a - 1) / (8 * a) * (8 * a) == 8 * RoundUp(e, a)
  {
    var r := RoundUp(e, a);
    var q := r / a;
    MulAssoc(8, q, a);
    MultipleMod(q, 8 * a);
    assert RoundUp(8 * e, 8 * a) == 8 * r by {
      assert 8 * r == q * (8 * a);
      RoundUpIs(8 * e, 8 * a, 8 * r);
    }
  }

  lemma BitMultiple(x: nat, a: nat)
    requires a >= 1 && x % 8 == 0 && x % (8 * a) == 0
    ensures (x / 8) % a == 0
  {
    var q := x / (8 * a);
    assert x == q * (8 * a);
    MulAssoc(8, q, a);
    MultipleMod(q, a);
  }

  /** One more element at the end leaves the others where they are. */
  lemma Appended(slots: seq<Slot>, s: Slot, packed: bool)
    requires WellFormed(slots) && s.align >= 1
    ensures WellFormed(slots + [s])
    ensures var start := RoundUp(End(slots, packed, |slots|), if packed then 1 else s.align);
            && Offset(slots + [s], packed, |slots|) == start
            && End(slots + [s], packed, |slots| + 1) == start + s.size
    ensures forall k :: 0 <= k < |slots| ==> Offset(slots + [s], packed, k) == Offset(slots, packed, k)
  {
    EndPrefix(slots, [s], packed, |slots|);
    forall k | 0 <= k < |slots| ensures Offset(slots + [s], packed, k) == Offset(slots, packed, k) {
      EndPrefix(slots, [s], packed, k);
    }
  }

  /** The fields are on byte boundaries, in order, and do not run into each other. */
  ghost predicate InOrder<T>(slot: T -> Slot, fields: seq<Field<T>>) {
    && (forall i :: 0 <= i < |fields| ==> fields[i].first % 8 == 0 && slot(fields[i].item).align >= 1)
    && (forall i, j :: 0 <= i < j < |fields| ==> fields[i].first + 8 * slot(fields[i].item).size <= fields[j].first)
  }

  predicate Misfits(s: Slot, first: nat, maxAlign: nat)
    requires s.align >= 1
  {
    s.align * 8 > maxAlign || first % (s.align * 8) != 0
  }

  /** Whether some field would be over-aligned or moved by its own alignment. */
  method NeedsPacking<T>(slot: T -> Slot, fields: seq<Field<T>>, maxAlign: nat) returns (pack: bool)
    requires InOrder(slot, fields)
    ensures pack <==> exists i :: 0 <= i < |fields| && Misfits(slot(fields[i].item), fields[i].first, maxAlign)
  {
    pack := false;
    for i := 0 to |fields|
      invariant !pack
      invariant forall j :: 0 <= j < i ==> !Misfits(slot(fields[j].item), fields[j].first, maxAlign)
    {
      if Misfits(slot(fields[i].item), fields[i].first, maxAlign) {
        pack := true;
        break;
      }
    }
  }

  /** Field j is element at[j], and layout puts it at its position. */
  ghost predicate InPlace<T>(slot: T -> Slot, fields: seq<Field<T>>, pack: bool, elts: seq<T>, at: seq<nat>) {
    && WellFormed(SlotsOf(slot, elts))
    && |at| <= |fields|
    && forall j :: 0 <= j < |at| ==>
         at[j] < |elts| && elts[at[j]] == fields[j].item &&
         8 * Offset(SlotsOf(slot, elts), pack, at[j]) == fields[j].first
  }

  /** Every element stands for one of the fields or is padding. */
  ghost predicate FieldsAndPadding<T>(pad: nat -> T, elts: seq<T>, at: seq<nat>) {
    forall k: nat :: k < |elts| ==> k in at || exists n :: elts[k] == pad(n)
  }

  lemma OneMoreField<T>(pad: nat -> T, elts: seq<T>, at: seq<nat>, x: T)
    requires FieldsAndPadding(pad, elts, at)
    ensures FieldsAndPadding(pad, elts + [x], at + [|elts|])
  {
    assert (at + [|elts|])[|at|] == |elts|;
  }

  lemma OneMorePadding<T>(pad: nat -> T, elts: seq<T>, at: seq<nat>, n: nat)
    requires FieldsAndPadding(pad, elts, at)
    ensures FieldsAndPadding(pad, elts + [pad(n)], at)
  {}

  /** First byte after the elements so far. */
  function EndOf<T>(slot: T -> Slot, elts: seq<T>, pack: bool): nat
    requires WellFormed(SlotsOf(slot, elts))
  {
    End(SlotsOf(slot, elts), pack, |elts|)
  }

  lemma NoElements<T>(slot: T -> Slot, pad: nat -> T, fields: seq<Field<T>>, pack: bool)
    ensures Placing(slot, pad, fields, pack, [], [], 0)
  {}

  lemma AppendElement<T>(slot: T -> Slot, fields: seq<Field<T>>, pack: bool, elts: seq<T>, at: seq<nat>, x: T)
    requires InPlace(slot, fields, pack, elts, at) && slot(x).align >= 1
    ensures InPlace(slot, fields, pack, elts + [x], at)
    ensures Offset(SlotsOf(slot, elts + [x]), pack, |elts|) ==
            RoundUp(EndOf(slot, elts, pack), if pack then 1 else slot(x).align)
    ensures EndOf(slot, elts + [x], pack) ==
            RoundUp(EndOf(slot, elts, pack), if pack then 1 else slot(x).align) + slot(x).size
  {
    hide RoundUp;
    assert SlotsOf(slot, elts + [x]) == SlotsOf(slot, elts) + [slot(x)];
    Appended(SlotsOf(slot, elts), slot(x), pack);
  }

  /** Where construction stands after the first |at| fields. */
  ghost predicate Placing<T>(slot: T -> Slot, pad: nat -> T, fields: seq<Field<T>>, pack: bool, elts: seq<T>,
                             at: seq<nat>, endOfPrevious: nat) {
    && InPlace(slot, fields, pack, elts, at)
    && FieldsAndPadding(pad, elts, at)
    && endOfPrevious == 8 * EndOf(slot, elts, pack)
  }

  /** Appends the padding elements and fields.  The element of every field ends up
      at exactly the field's position. */
  method PlaceElements<T>(slot: T -> Slot, pad: nat -> T, fields: seq<Field<T>>, pack: bool)
    returns (elts: seq<T>, endOfPrevious: nat, ghost at: seq<nat>)
    requires InOrder(slot, fields) && forall n :: slot(pad(n)) == Slot(n, 1)
    requires !pack ==> forall i :: 0 <= i < |fields| ==> fields[i].first % (slot(fields[i].item).align * 8) == 0
    ensures Placing(slot, pad, fields, pack, elts, at, endOfPrevious) && |at| == |fields|
    ensures endOfPrevious ==
              if |fields| == 0 then 0 else fields[|fields| - 1].first + 8 * slot(fields[|fields| - 1].item).size
  {
    hide Placing;
    elts, endOfPrevious, at := [], 0, [];
    NoElements(slot, pad, fields, pack);
    for i := 0 to |fields|
      invariant Placing(slot, pad, fields, pack, elts, at, endOfPrevious) && |at| == i
      invariant endOfPrevious == if i == 0 then 0 else fields[i - 1].first + 8 * slot(fields[i - 1].item).size
    {
      var first, ty := fields[i].first, fields[i].item;
      assert endOfPrevious <= first;
      // If there is a gap then it may need to be filled with padding.
      if first > endOfPrevious && NeedsPadding(slot(ty), pack, first, endOfPrevious) {
        elts := AddPadding(slot, pad, fields, pack, elts, at, first, endOfPrevious);
        endOfPrevious := first;
      }
      AppendField(slot, pad, fields, pack, elts, at, endOfPrevious);
      at := at + [|elts|];
      elts := elts + [ty];
      endOfPrevious := first + 8 * slot(ty).size;
    }
  }

  /** The alignment of the field's contents may make it start at the right offset
      anyway, but if not then padding is inserted. */
  predicate NeedsPadding(s: Slot, pack: bool, first: nat, endOfPrevious: nat)
    requires s.align >= 1
  {
    pack ||
    var alignment := s.align * 8;
    first != (endOfPrevious + alignment - 1) / alignment * alignment
  }

  lemma AppendField<T>(slot: T -> Slot, pad: nat -> T, fields: seq<Field<T>>, pack: bool, elts: seq<T>, at: seq<nat>,
                       endOfPrevious: nat)
    requires Placing(slot, pad, fields, pack, elts, at, endOfPrevious) && |at| < |fields|
    requires InOrder(slot, fields)
    requires var f := fields[|at|];
             && (!pack ==> f.first % (slot(f.item).align * 8) == 0)
             && (endOfPrevious == f.first || !NeedsPadding(slot(f.item), pack, f.first, endOfPrevious))
    ensures var f := fields[|at|];
            Placing(slot, pad, fields, pack, elts + [f.item], at + [|elts|], f.first + 8 * slot(f.item).size)
  {
    hide RoundUp;
    hide EndOf;
    hide SlotsOf;
    hide FieldsAndPadding;
    var f := fields[|at|];
    var x := f.item;
    RoundUpBits(EndOf(slot, elts, pack), slot(x).align);
    StartsAt(slot, elts, pack, f.first, x);
    AppendElement(slot, fields, pack, elts, at, x);
    OneMoreField(pad, elts, at, x);
  }

  /** Fills the bytes up to a position. */
  method AddPadding<T>(slot: T -> Slot, pad: nat -> T, fields: seq<Field<T>>, pack: bool,
                       elts: seq<T>, ghost at: seq<nat>, upTo: nat, endOfPrevious: nat) returns (more: seq<T>)
    requires Placing(slot, pad, fields, pack, elts, at, endOfPrevious)
    requires forall n :: slot(pad(n)) == Slot(n, 1)
    requires upTo % 8 == 0 && endOfPrevious <= upTo
    ensures Placing(slot, pad, fields, pack, more, at, upTo)
  {
    hide RoundUp;
    hide EndOf;
    hide SlotsOf;
    hide FieldsAndPadding;
    var units := (upTo - endOfPrevious) / 8;
    AppendElement(slot, fields, pack, elts, at, pad(units));
    OneMorePadding(pad, elts, at, units);
    RoundUpIs(EndOf(slot, elts, pack), 1, EndOf(slot, elts, pack));
    more := elts + [pad(units)];
  }

  /** The next element starts at the position when that is where rounding up puts
      it, in particular when the elements so far end there. */
  lemma StartsAt<T>(slot: T -> Slot, elts: seq<T>, pack: bool, first: nat, x: T)
    requires WellFormed(SlotsOf(slot, elts)) && slot(x).align >= 1 && first % 8 == 0
    requires pack || first % (slot(x).align * 8) == 0
    requires var e := EndOf(slot, elts, pack);
             8 * e == first || (!pack && 8 * RoundUp(e, slot(x).align) == first)
    ensures 8 * RoundUp(EndOf(slot, elts, pack), if pack then 1 else slot(x).align) == first
  {
    var e := EndOf(slot, elts, pack);
    if 8 * e == first {
      if pack {
        RoundUpIs(e, 1, e);
      } else {
        BitMultiple(first, slot(x).align);
        RoundUpIs(e, slot(x).align, e);
      }
    }
  }

  /** The whole construction.  With a known size the struct has exactly that size
      and its alignment does not exceed the limit. */
  method BuildStruct<T>(slot: T -> Slot, pad: nat -> T, fields: seq<Field<T>>, typeSize: Option<nat>, maxAlign: nat)
    returns (elts: seq<T>, pack: bool, ghost at: seq<nat>)
    requires InOrder(slot, fields) && forall n :: slot(pad(n)) == Slot(n, 1)
    requires PowerOfTwo(maxAlign) && maxAlign >= 8
    requires forall i :: 0 <= i < |fields| ==> PowerOfTwo(slot(fields[i].item).align)
    requires typeSize.Some? ==> typeSize.value % maxAlign == 0
    requires typeSize.Some? ==> forall i :: 0 <= i < |fields| ==>
               fields[i].first + 8 * slot(fields[i].item).size <= typeSize.value
    ensures InPlace(slot, fields, pack, elts, at) && |at| == |fields| && FieldsAndPadding(pad, elts, at)
    ensures 8 * Alignment(SlotsOf(slot, elts), pack) <= maxAlign
    ensures typeSize.Some? ==> 8 * Size(SlotsOf(slot, elts), pack) == typeSize.value
    ensures pack <==> exists i :: 0 <= i < |fields| && Misfits(slot(fields[i].item), fields[i].first, maxAlign)
  {
    pack := NeedsPacking(slot, fields, maxAlign);
    var endOfPrevious;
    elts, endOfPrevious, at := PlaceElements(slot, pad, fields, pack);
    if typeSize.Some? {
      SizeInBytes(typeSize.value, maxAlign);
    }
    if typeSize.Some? && endOfPrevious < typeSize.value {
      elts := AddPadding(slot, pad, fields, pack, elts, at, typeSize.value, endOfPrevious);
    }
    AlignmentBounded(slot, pad, fields, elts, pack, at, maxAlign);
    if typeSize.Some? {
      SizeExact(slot, elts, pack, typeSize.value, maxAlign);
    }
  }

  /** As BuildStruct, for contents that may run past the size of the type: the
      struct is at least as big as the type. */
  method BuildAtLeast<T>(slot: T -> Slot, pad: nat -> T, fields: seq<Field<T>>, typeSize: nat, maxAlign: nat)
    returns (elts: seq<T>, pack: bool, ghost at: seq<nat>)
    requires InOrder(slot, fields) && forall n :: slot(pad(n)) == Slot(n, 1)
    requires typeSize % 8 == 0 && maxAlign >= 8
    requires forall i :: 0 <= i < |fields| ==> PowerOfTwo(slot(fields[i].item).align)
    ensures InPlace(slot, fields, pack, elts, at) && |at| == |fields| && FieldsAndPadding(pad, elts, at)
    ensures 8 * Alignment(SlotsOf(slot, elts), pack) <= maxAlign
    ensures 8 * EndOf(slot, elts, pack) >= typeSize
  {
    pack := NeedsPacking(slot, fields, maxAlign);
    var endOfPrevious;
    elts, endOfPrevious, at := PlaceElements(slot, pad, fields, pack);
    if endOfPrevious < typeSize {
      elts := AddPadding(slot, pad, fields, pack, elts, at, typeSize, endOfPrevious);
    }
    AlignmentBounded(slot, pad, fields, elts, pack, at, maxAlign);
  }

  lemma SizeInBytes(size: nat, maxAlign: nat)
    requires PowerOfTwo(maxAlign) && maxAlign >= 8 && size % maxAlign == 0
    ensures size % 8 == 0
  {
    assert PowerOfTwo(8) by { assert Pow2(3) == 8; }
    PowersDivide(8, maxAlign);
    ModMultiple(size, 8, maxAlign);
  }

  lemma AlignmentBounded<T>(slot: T -> Slot, pad: nat -> T, fields: seq<Field<T>>, elts: seq<T>, pack: bool,
                            at: seq<nat>, maxAlign: nat)
    requires InPlace(slot, fields, pack, elts, at) && FieldsAndPadding(pad, elts, at) && maxAlign >= 8
    requires forall n :: slot(pad(n)) == Slot(n, 1)
    requires InOrder(slot, fields) && forall i :: 0 <= i < |fields| ==> PowerOfTwo(slot(fields[i].item).align)
    requires !pack ==> forall i :: 0 <= i < |fields| ==> !Misfits(slot(fields[i].item), fields[i].first, maxAlign)
    ensures 8 * Alignment(SlotsOf(slot, elts), pack) <= maxAlign
    ensures PowerOfTwo(Alignment(SlotsOf(slot, elts), pack))
  {
    var slots := SlotsOf(slot, elts);
    var a := Alignment(slots, pack);
    assert PowerOfTwo(1) by { assert Pow2(0) == 1; }
    if a != 1 {
      var k :| 0 <= k < |slots| && ElementAlign(slots, pack, k) == a;
      assert slots[k] == slot(elts[k]);
      assert forall n :: slot(pad(n)).align == 1;
      assert k in at;
      var j :| 0 <= j < |at| && at[j] == k;
      assert !Misfits(slot(fields[j].item), fields[j].first, maxAlign);
    }
  }

  lemma SizeExact<T>(slot: T -> Slot, elts: seq<T>, pack: bool, size: nat, maxAlign: nat)
    requires WellFormed(SlotsOf(slot, elts)) && size == 8 * EndOf(slot, elts, pack)
    requires PowerOfTwo(maxAlign) && size % maxAlign == 0
    requires 8 * Alignment(SlotsOf(slot, elts), pack) <= maxAlign && PowerOfTwo(Alignment(SlotsOf(slot, elts), pack))
    ensures 8 * Size(SlotsOf(slot, elts), pack) == size
  {
    hide RoundUp;
    var a := Alignment(SlotsOf(slot, elts), pack);
    var k: nat :| a == Pow2(k);
    assert 8 * a == Pow2(k + 3) by { Pow2Add(3, k); assert Pow2(3) == 8; }
    PowersDivide(8 * a, maxAlign);
    ModMultiple(size, 8 * a, maxAlign);
    RoundedSize(EndOf(slot, elts, pack), a);
  }

  lemma RoundedSize(e: nat, a: nat)
    requires a >= 1 && (8 * e) % (8 * a) == 0
    ensures RoundUp(e, a) == e
  {
    BitMultiple(8 * e, a);
    RoundUpIs(e, a, e);
  }
}
