/** GCC types as a graph, the LLVM types they are converted to, and which types are
    still to be converted with care. */
module TypeGraphs {
  import opened Options
  import opened Arith
  import opened Bits
  import opened Graphs
  import opened StructLayouts
  import opened DataLayouts
  import opened ElementPlacement
  import RecordTypes

  type Id = Node

  /** A field is compatible if it is at a constant position; its size may be unknown. */
  datatype FieldDecl = FieldDecl(ty: Id, compatible: bool, firstBit: nat, width: Option<nat>)

  /** The size and alignment of a type in bits. */
  datatype Extent = Extent(size: nat, align: nat)

  /** The main variant of a type: what it contains.  The length and size of an array may
      be variable, and it may be less aligned than its elements.  An incomplete record
      has no size at all, a complete one a size that may be variable. */
  datatype Kind =
    | Void
    | IncompleteEnum
    | Simple(integer: bool, extent: Extent)
    | Complex(elem: Id, extent: Extent)
    | Vector(elem: Id, count: nat, extent: Extent)
    | Array(elem: Id, length: Option<nat>, size: Option<nat>, underaligned: bool)
    | Function(ret: Id, args: seq<Id>)
    | Pointer(pointee: Id)
    | Record(complete: bool, fields: seq<FieldDecl>, size: Option<nat>, align: nat)

  type Types = map<Id, Kind>

  /** An LLVM type; a named struct is identified by the record it stands for, and
      integers and arrays of bytes may be found where no type of the program is.
      Anonymous structs are pairs, packed ones with one element, and ones with an
      element and bytes of padding. */
  datatype LlvmType =
    | LVoid
    | LData(ty: Ty)
    | LSimple(name: Id)
    | LPair(elem: LlvmType)
    | LVector(elem: LlvmType, count: nat)
    | LArray(elem: LlvmType, count: nat)
    | LPacked(elem: LlvmType)
    | LPadded(elem: LlvmType, bytes: nat)
    | LFunction(ret: LlvmType, args: seq<LlvmType>)
    | LPointer(pointee: LlvmType)
    | LStruct(record: Id)
    | LEmpty

  datatype Body = Body(elts: seq<LlvmType>, pack: bool)

  /** The LLVM types found so far, and the bodies of the structs that have one; a
      struct without a body is opaque. */
  datatype Registry = Registry(cache: map<Id, LlvmType>, bodies: map<Id, Body>)

  const BYTE := LData(IntTy(BYTE_BITS))

  /** What the target says about an LLVM type. */
  datatype Measure = Measure(primitiveBits: nat, size: nat, logAlign: nat)

  /** The target: how data is laid out, and the measures of other types that are not
      made up of types themselves, a named struct counting as one. */
  datatype Target = Target(dl: DataLayout, measure: LlvmType -> Measure) {
    ghost predicate Valid() {
      RecordTypes.GoodTarget(dl) && forall l :: measure(l).size % Pow2(measure(l).logAlign) == 0
    }
  }

  function SlotOf(tg: Target, l: LlvmType): (s: Slot)
    requires tg.Valid()
    ensures s.align >= 1
  {
    match l
    case LData(ty) => Slot(AllocBytes(tg.dl, ty), AbiAlign(tg.dl, ty))
    case LPair(elem) => StructSlot([SlotOf(tg, elem), SlotOf(tg, elem)], false)
    case LArray(elem, count) =>
      MulNonNegative(count, SlotOf(tg, elem).size);
      Slot(count * SlotOf(tg, elem).size, SlotOf(tg, elem).align)
    case LPacked(elem) => StructSlot([SlotOf(tg, elem)], true)
    case LPadded(elem, bytes) => StructSlot([SlotOf(tg, elem), Slot(bytes, 1)], false)
    case LEmpty => Slot(0, 1)
    case _ => Slot(tg.measure(l).size, Pow2(tg.measure(l).logAlign))
  }

  function StructSlot(slots: seq<Slot>, packed: bool): (s: Slot)
    requires StructLayouts.WellFormed(slots)
    ensures s.align >= 1
  {
    Slot(Size(slots, packed), Alignment(slots, packed))
  }

  /** Alignments are powers of two, and sizes multiples of them. */
  lemma {:induction false} SlotIsAligned(tg: Target, l: LlvmType)
    requires tg.Valid()
    ensures PowerOfTwo(SlotOf(tg, l).align) && SlotOf(tg, l).size % SlotOf(tg, l).align == 0
  {
    match l
    case LData(ty) =>
      RecordTypes.AlignIsPower(tg.dl, ty);
      RoundedUp(StoreBytes(tg.dl, ty), AbiAlign(tg.dl, ty));
    case LPair(elem) =>
      SlotIsAligned(tg, elem);
      StructIsAligned([SlotOf(tg, elem), SlotOf(tg, elem)], false);
    case LArray(elem, count) =>
      SlotIsAligned(tg, elem);
      ManyAligned(count, SlotOf(tg, elem).size, SlotOf(tg, elem).align);
    case LPacked(elem) =>
      SlotIsAligned(tg, elem);
      StructIsAligned([SlotOf(tg, elem)], true);
    case LPadded(elem, bytes) =>
      SlotIsAligned(tg, elem);
      assert PowerOfTwo(1) by { assert Pow2(0) == 1; }
      StructIsAligned([SlotOf(tg, elem), Slot(bytes, 1)], false);
    case LEmpty =>
      assert PowerOfTwo(1) by { assert Pow2(0) == 1; }
    case _ =>
  }

  lemma StructIsAligned(slots: seq<Slot>, packed: bool)
    requires StructLayouts.WellFormed(slots) && forall i :: 0 <= i < |slots| ==> PowerOfTwo(slots[i].align)
    ensures PowerOfTwo(Alignment(slots, packed)) && Size(slots, packed) % Alignment(slots, packed) == 0
  {
    assert PowerOfTwo(1) by { assert Pow2(0) == 1; }
    RoundedUp(End(slots, packed, |slots|), Alignment(slots, packed));
  }

  lemma RoundedUp(x: nat, a: nat)
    requires a >= 1
    ensures x <= RoundUp(x, a) < x + a && RoundUp(x, a) % a == 0
  {}

  lemma ManyAligned(count: nat, size: nat, a: nat)
    requires a >= 1 && size % a == 0
    ensures count * size >= 0 && (count * size) % a == 0
  {
    var q := size / a;
    ExactQuotient(size, a);
    MulNonNegative(count, q);
    assert count * size == count * (q * a) == (count * q) * a by { MulTwice(count, q, a); }
    MultipleMod(count * q, a);
  }

  lemma MulTwice(a: nat, b: nat, c: nat)
    ensures a * (b * c) == (a * b) * c
  {}

  function Log2(n: nat): nat {
    if n <= 1 then 0 else 1 + Log2(n / 2)
  }

  lemma {:induction false} Log2Exact(k: nat)
    ensures Log2(Pow2(k)) == k
  {
    if k > 0 { Log2Exact(k - 1); }
  }

  /** The type as record conversion sees it, known by the given name. */
  function Seen(tg: Target, name: nat, l: LlvmType): RecordTypes.LlvmType
    requires tg.Valid()
  {
    if l.LData? then RecordTypes.Known(l.ty)
    else RecordTypes.Other(name, PrimitiveBitsOf(tg, l), SlotOf(tg, l).size, Log2(SlotOf(tg, l).align))
  }

  function PrimitiveBitsOf(tg: Target, l: LlvmType): nat {
    if l.LSimple? || l.LVector? || l.LPointer? then tg.measure(l).primitiveBits else 0
  }

  /** Record conversion sees its size and alignment as they are. */
  lemma SeenSlot(tg: Target, name: nat, l: LlvmType)
    requires tg.Valid()
    ensures RecordTypes.SlotOf(tg.dl, Seen(tg, name, l)) == SlotOf(tg, l)
  {
    SlotIsAligned(tg, l);
    var k: nat :| SlotOf(tg, l).align == Pow2(k);
    Log2Exact(k);
  }

  function Slotting(tg: Target): (f: LlvmType -> Slot)
    requires tg.Valid()
    ensures forall l :: f(l) == SlotOf(tg, l)
  {
    l => SlotOf(tg, l)
  }

  /** The LLVM type has the size that is called for and is not over-aligned. */
  predicate Fits(tg: Target, l: LlvmType, e: Extent)
    requires tg.Valid()
  {
    8 * SlotOf(tg, l).size == e.size && 8 * SlotOf(tg, l).align <= e.align
  }

  /** The obvious LLVM type, or else a bunch of bytes. */
  function Fitted(tg: Target, l: LlvmType, e: Extent): LlvmType
    requires tg.Valid()
  {
    if Fits(tg, l, e) then l else LData(UnitTy(e.size / 8))
  }

  // ---------- arrays ----------

  const MAX_BITS: nat := 0x1_0000_0000_0000_0000

  /** The array of the elements, in a packed struct if it is to be less aligned. */
  function PlainArray(e: LlvmType, length: Option<nat>, underaligned: bool): LlvmType {
    var a := LArray(e, Count(length));
    if underaligned then LPacked(a) else a
  }

  /** How many bits are missing, with the wrap-around of 64 bit numbers. */
  function PadBits(tg: Target, a: LlvmType, size: nat): (r: nat)
    requires tg.Valid()
    ensures r < MAX_BITS
  {
    (size - 8 * SlotOf(tg, a).size) % MAX_BITS
  }

  /** The array, followed by padding if it does not have the size that is called for. */
  function ArrayOf(tg: Target, e: LlvmType, length: Option<nat>, size: Option<nat>, underaligned: bool): LlvmType
    requires tg.Valid()
  {
    var a := PlainArray(e, length, underaligned);
    if size.None? || PadBits(tg, a, size.value) == 0 then a
    else LPadded(a, PadBits(tg, a, size.value) / 8)
  }

  /** The LLVM type has the size of the array iff the elements do not take up more than
      that, and it is a multiple of their alignment. */
  lemma ArraySizeExact(tg: Target, e: LlvmType, length: Option<nat>, size: nat, underaligned: bool)
    requires tg.Valid() && size % 8 == 0 && size < MAX_BITS
    requires 8 * SlotOf(tg, PlainArray(e, length, underaligned)).size < MAX_BITS
    ensures var s := SlotOf(tg, PlainArray(e, length, underaligned));
            8 * SlotOf(tg, ArrayOf(tg, e, length, Some(size), underaligned)).size == size <==>
            8 * s.size <= size && (size / 8) % s.align == 0
  {
    hide SlotOf;
    var a := PlainArray(e, length, underaligned);
    var s := SlotOf(tg, a);
    SlotIsAligned(tg, a);
    if 8 * s.size != size {
      PaddedSlot(tg, a, PadBits(tg, a, size) / 8);
      PadBitsAre(size, s.size);
      RoundUpExact(s.size + PadBits(tg, a, size) / 8, s.align);
    }
  }

  /** Its alignment is that of its elements, or one if the array is less aligned. */
  lemma ArrayAlignment(tg: Target, e: LlvmType, length: Option<nat>, size: Option<nat>, underaligned: bool)
    requires tg.Valid()
    ensures SlotOf(tg, ArrayOf(tg, e, length, size, underaligned)).align ==
            if underaligned then 1 else SlotOf(tg, e).align
  {
    var a := PlainArray(e, length, underaligned);
    PackedAlign(SlotOf(tg, LArray(e, Count(length))));
    PaddedAlign(SlotOf(tg, a), if size.Some? then PadBits(tg, a, size.value) / 8 else 0);
  }

  lemma PackedAlign(s: Slot)
    requires s.align >= 1
    ensures Alignment([s], true) == 1
  {
    assert AlignmentOfFirst([s], true, 1) == 1;
  }

  lemma PaddedAlign(s: Slot, bytes: nat)
    requires s.align >= 1
    ensures Alignment([s, Slot(bytes, 1)], false) == s.align
  {
    var slots := [s, Slot(bytes, 1)];
    assert AlignmentOfFirst(slots, false, 1) == s.align && AlignmentOfFirst(slots, false, 2) == s.align;
  }

  lemma PadBitsAre(size: nat, bytes: nat)
    requires size % 8 == 0 && size < MAX_BITS && 8 * bytes < MAX_BITS && 8 * bytes != size
    ensures var pad := (size - 8 * bytes) % MAX_BITS;
            pad != 0 && pad % 8 == 0 &&
            pad == if 8 * bytes < size then size - 8 * bytes else MAX_BITS + size - 8 * bytes
  {}

  lemma PaddedSlot(tg: Target, l: LlvmType, bytes: nat)
    requires tg.Valid()
    ensures SlotOf(tg, LPadded(l, bytes)).size == RoundUp(SlotOf(tg, l).size + bytes, SlotOf(tg, l).align)
  {
    hide RoundUp;
    hide Size;
    hide Alignment;
    PaddedSize(SlotOf(tg, l), bytes);
  }

  lemma PaddedSize(s: Slot, bytes: nat)
    requires s.align >= 1
    ensures Size([s, Slot(bytes, 1)], false) == RoundUp(s.size + bytes, s.align)
  {
    hide RoundUp;
    var slots := [s, Slot(bytes, 1)];
    RoundUpExact(0, s.align);
    RoundUpExact(s.size, 1);
    assert Offset(slots, false, 0) == 0 && End(slots, false, 1) == s.size;
    assert Offset(slots, false, 1) == s.size && End(slots, false, 2) == s.size + bytes;
    assert AlignmentOfFirst(slots, false, 1) == s.align && AlignmentOfFirst(slots, false, 2) == s.align;
  }

  lemma RoundUpExact(x: nat, a: nat)
    requires a >= 1
    ensures RoundUp(x, a) >= x && (RoundUp(x, a) == x <==> x % a == 0)
  {
    RoundedUp(x, a);
    if x % a == 0 { RoundUpIs(x, a, x); }
  }

  function FieldTypes(fields: seq<FieldDecl>): set<Id> {
    set f | f in fields :: f.ty
  }

  function Contained(k: Kind): set<Id> {
    match k
    case Void => {}
    case IncompleteEnum => {}
    case Simple(_, _) => {}
    case Complex(elem, _) => {elem}
    case Vector(elem, _, _) => {elem}
    case Array(elem, _, _, _) => {elem}
    case Function(ret, args) => {ret} + set a | a in args
    case Pointer(pointee) => {pointee}
    case Record(_, fields, _, _) => FieldTypes(fields)
  }

  /** The edges that conversion cannot cut. */
  function Direct(k: Kind): set<Id> {
    if k.Pointer? then {} else Contained(k)
  }

  function DirectGraph(g: Types): Graph {
    map t | t in g :: Direct(g[t])
  }

  /** Sizes are whole bytes, and those of records multiples of their alignment; an
      incomplete record lists no fields. */
  ghost predicate GoodKind(k: Kind) {
    match k
    case Simple(_, e) => GoodExtent(e)
    case Complex(_, e) => GoodExtent(e)
    case Vector(_, _, e) => GoodExtent(e)
    case Array(_, _, size, _) => size.Some? ==> size.value % 8 == 0 && size.value < MAX_BITS
    case Record(complete, fields, size, align) =>
      && (!complete ==> fields == [])
      && PowerOfTwo(align) && align >= 8
      && (size.Some? ==> size.value % align == 0 &&
                         forall f :: f in fields && f.compatible ==> f.firstBit <= size.value)
    case _ => true
  }

  ghost predicate GoodExtent(e: Extent) {
    e.size % 8 == 0 && e.align >= 8
  }

  /** Every cycle passes through a pointer; complex numbers have simple parts, and
      vectors simple or pointer elements. */
  ghost predicate WellFormed(g: Types) {
    && (forall t :: t in g ==> Contained(g[t]) <= g.Keys)
    && (forall t :: t in g && g[t].Complex? ==> g[g[t].elem].Simple?)
    && (forall t :: t in g && g[t].Vector? ==> g[g[t].elem].Simple? || g[g[t].elem].Pointer?)
    && (forall t :: t in g ==> GoodKind(g[t]))
    && Acyclic(DirectGraph(g))
  }

  lemma DirectClosed(g: Types)
    requires WellFormed(g)
    ensures Closed(DirectGraph(g), g.Keys)
  {
    forall t | t in g ensures Succ(DirectGraph(g), t) <= g.Keys {
      assert Contained(g[t]) <= g.Keys;
    }
  }

  ghost function Rank(g: Types, t: Id): nat
    requires WellFormed(g) && t in g
  {
    DirectClosed(g);
    |Down(DirectGraph(g), g.Keys, t)|
  }

  lemma DirectRank(g: Types, t: Id, u: Id)
    requires WellFormed(g) && t in g && u in Direct(g[t])
    ensures u in g && Rank(g, u) < Rank(g, t)
  {
    DirectClosed(g);
    RankFalls(DirectGraph(g), g.Keys, t, u);
  }

  /** Converting the type may require breaking a loop. */
  predicate MayRecurse(g: Types, r: Registry, t: Id)
    requires t in g
  {
    match g[t]
    case Void => false
    case IncompleteEnum => false
    case Simple(_, _) => false
    case Complex(_, _) => false
    case Vector(elem, _, _) => elem in g && g[elem].Pointer? && t !in r.cache
    case Array(_, _, _, _) => t !in r.cache
    case Function(_, _) => t !in r.cache
    case Pointer(_) => t !in r.cache
    case Record(complete, _, _, _) => complete && (t !in r.cache || t !in r.bodies)
  }

  /** The graph that is searched for components. */
  function RecursiveGraph(g: Types, r: Registry): Graph {
    map t | t in g :: set u | u in Contained(g[t]) && u in g && MayRecurse(g, r, u)
  }

  function Drilled(g: Types, t: Id, fuel: nat): Id
    decreases fuel
  {
    if fuel > 0 && t in g && g[t].Array? then Drilled(g, g[t].elem, fuel - 1) else t
  }

  /** What stands for a pointee that cannot be converted yet: the struct of the record
      that nested arrays ultimately contain, or else the empty struct. */
  predicate Placeholder(g: Types, l: LlvmType, pointee: Id, depth: nat) {
    var d := Drilled(g, pointee, depth);
    d in g && !g[d].Array? && l == if g[d].Record? then LStruct(d) else LEmpty
  }

  /** What pointers may point to instead of the conversion of the pointee. */
  ghost predicate StandIn(g: Types, l: LlvmType, pointee: Id) {
    || (pointee in g && g[pointee].Void? && l == BYTE)
    || (exists depth: nat :: Placeholder(g, l, pointee, depth))
  }

  /** What is left without packing and padding. */
  function Core(l: LlvmType): (c: LlvmType)
    ensures c == l || c < l
  {
    match l
    case LPacked(elem) => Core(elem)
    case LPadded(elem, _) => Core(elem)
    case _ => l
  }

  /** An array of variable length has no elements. */
  function Count(length: Option<nat>): nat {
    if length.Some? then length.value else 0
  }

  /** The LLVM type represents the GCC type, up to what pointers point to. */
  ghost predicate Shape(g: Types, l: LlvmType, t: Id)
    decreases l
  {
    t in g &&
    match g[t]
    case Void => l == LVoid
    case IncompleteEnum => l == BYTE
    case Simple(_, _) => l.LData? || l == LSimple(t)
    case Complex(elem, _) => l.LData? || (l.LPair? && Shape(g, l.elem, elem))
    case Vector(elem, count, _) => l.LData? || (l.LVector? && l.count == count && Shape(g, l.elem, elem))
    case Array(elem, length, _, _) =>
      && Core(l).LArray? && Shape(g, Core(l).elem, elem)
      && (length.Some? ==> Core(l).count == length.value) && (length.None? ==> Core(l).count == 0)
    case Function(ret, args) =>
      && l.LFunction? && Shape(g, l.ret, ret)
      && (l.args == [] || |l.args| == |args|)
      && (forall i :: 0 <= i < |l.args| && i < |args| ==> Shape(g, l.args[i], args[i]))
    case Pointer(pointee) => l.LPointer? && (StandIn(g, l.pointee, pointee) || Shape(g, l.pointee, pointee))
    case Record(_, _, _, _) => l == LStruct(t)
  }

  /** A pointer to a record goes to the struct of that record, wherever it stands and
      whenever it was made; one to nested arrays of it goes there or to the arrays. */
  lemma PointerToRecord(g: Types, l: LlvmType, t: Id, depth: nat)
    requires Shape(g, l, t) && g[t].Pointer?
    requires var r := Drilled(g, g[t].pointee, depth); r in g && g[r].Record?
    ensures var r := Drilled(g, g[t].pointee, depth);
            l == LPointer(LStruct(r)) || (g[g[t].pointee].Array? && l.LPointer? && Shape(g, l.pointee, g[t].pointee))
  {
    var pointee := g[t].pointee;
    var r := Drilled(g, pointee, depth);
    forall d: nat | Placeholder(g, l.pointee, pointee, d) ensures Drilled(g, pointee, d) == r {
      DrilledOnce(g, pointee, d, depth);
    }
  }

  /** Drilling ends at the same type whenever it ends. */
  lemma {:induction false} DrilledOnce(g: Types, t: Id, m: nat, n: nat)
    requires t in g && Drilled(g, t, m) in g && Drilled(g, t, n) in g
    requires !g[Drilled(g, t, m)].Array? && !g[Drilled(g, t, n)].Array?
    ensures Drilled(g, t, m) == Drilled(g, t, n)
    decreases m
  {
    if m > 0 && n > 0 && g[t].Array? { DrilledOnce(g, g[t].elem, m - 1, n - 1); }
  }

  // ---------- bodies ----------

  /** The fields that are laid out. */
  function Compatible(fields: seq<FieldDecl>): (r: seq<FieldDecl>)
    ensures forall f :: f in r <==> f in fields && f.compatible
  {
    if fields == [] then []
    else (if fields[0].compatible then [fields[0]] else []) + Compatible(fields[1..])
  }

  /** The parts are the conversions of the types of the fields. */
  ghost predicate Shapes(g: Types, parts: seq<LlvmType>, fields: seq<FieldDecl>) {
    |parts| == |fields| && forall i :: 0 <= i < |fields| ==> Shape(g, parts[i], fields[i].ty)
  }

  lemma NoShapes(g: Types)
    ensures forall fields: seq<FieldDecl> :: fields == [] ==> Shapes(g, [], fields)
  {}

  lemma MoreShapes(g: Types, parts: seq<LlvmType>, fields: seq<FieldDecl>, i: nat, l: LlvmType)
    requires i < |fields| && Shapes(g, parts, fields[i + 1..]) && Shape(g, l, fields[i].ty)
    ensures Shapes(g, [l] + parts, fields[i..])
  {
    hide Shape;
    assert fields[i..] == [fields[i]] + fields[i + 1..];
  }

  /** A field for record conversion.  If its size is not known then that of the LLVM
      type is used, which is the least that the field may have. */
  function Decl(tg: Target, f: FieldDecl, name: nat, part: LlvmType): RecordTypes.FieldDecl
    requires tg.Valid()
  {
    RecordTypes.FieldDecl(f.firstBit, if f.width.Some? then f.width.value else 8 * SlotOf(tg, part).size,
                          Seen(tg, name, part))
  }

  function Decls(tg: Target, fields: seq<FieldDecl>, parts: seq<LlvmType>): (decls: seq<RecordTypes.FieldDecl>)
    requires tg.Valid() && |parts| == |fields|
    ensures |decls| == |fields|
    ensures forall i :: 0 <= i < |fields| ==> decls[i] == Decl(tg, fields[i], i, parts[i])
  {
    seq(|fields|, i requires 0 <= i < |fields| => Decl(tg, fields[i], i, parts[i]))
  }

  /** The element that record conversion speaks of. */
  function Named(parts: seq<LlvmType>, e: RecordTypes.LlvmType): LlvmType
    requires e.Other? ==> e.name < |parts|
  {
    if e.Known? then LData(e.ty) else parts[e.name]
  }

  ghost predicate Elements(parts: seq<LlvmType>, elts: seq<RecordTypes.LlvmType>, ls: seq<LlvmType>) {
    |ls| == |elts| && forall i :: 0 <= i < |elts| ==>
      (elts[i].Other? ==> elts[i].name < |parts|) && ls[i] == Named(parts, elts[i])
  }

  /** The body is a struct for the record, made of the conversions of its fields. */
  ghost predicate Embodies(tg: Target, g: Types, t: Id, body: Body)
    requires t in g && g[t].Record?
  {
    tg.Valid() && exists parts, elts, layout, at :: EmbodiesBy(tg, g, t, body, parts, elts, layout, at)
  }

  ghost predicate EmbodiesBy(tg: Target, g: Types, t: Id, body: Body, parts: seq<LlvmType>,
                             elts: seq<RecordTypes.LlvmType>, layout: seq<RecordTypes.TypedRange>, at: seq<nat>)
    requires tg.Valid() && t in g && g[t].Record?
  {
    && Shapes(g, parts, Compatible(g[t].fields))
    && RecordTypes.Struct(tg.dl, Decls(tg, Compatible(g[t].fields), parts), g[t].size, g[t].align,
                          elts, body.pack, layout, at)
    && Elements(parts, elts, body.elts)
  }

  /** A simple type is converted to the integer of its size, or to what the target has
      for it, if that has the right size and is not over-aligned, and to bytes if not. */
  ghost predicate SimplyConverted(tg: Target, g: Types, l: LlvmType, t: Id)
    requires tg.Valid() && t in g && g[t].Simple?
  {
    var e := g[t].extent;
    if g[t].integer then
      l == if 8 * AllocBytes(tg.dl, IntTy(e.size)) == e.size && 8 * AbiAlign(tg.dl, IntTy(e.size)) <= e.align
           then LData(IntTy(e.size)) else LData(UnitTy(e.size / 8))
    else
      var m := tg.measure(LSimple(t));
      l == if 8 * m.size == e.size && 8 * Pow2(m.logAlign) <= e.align
           then LSimple(t) else LData(UnitTy(e.size / 8))
  }

  /** A complex number is converted to the pair of what its parts are converted to, if
      twice their size is right and they are not over-aligned, and to bytes if not. */
  ghost predicate PairConverted(tg: Target, l: LlvmType, x: LlvmType, e: Extent)
    requires tg.Valid()
  {
    l == if 16 * SlotOf(tg, x).size == e.size && 8 * SlotOf(tg, x).align <= e.align
         then LPair(x) else LData(UnitTy(e.size / 8))
  }

  /** Likewise a vector of simple types, whose measure the target knows. */
  ghost predicate VectorConverted(tg: Target, l: LlvmType, x: LlvmType, count: nat, e: Extent)
    requires tg.Valid()
  {
    var m := tg.measure(LVector(x, count));
    l == if 8 * m.size == e.size && 8 * Pow2(m.logAlign) <= e.align
         then LVector(x, count) else LData(UnitTy(e.size / 8))
  }

  /** Two of a kind take up twice the size. */
  lemma PairSlot(tg: Target, l: LlvmType)
    requires tg.Valid()
    ensures SlotOf(tg, LPair(l)) == Slot(2 * SlotOf(tg, l).size, SlotOf(tg, l).align)
  {
    SlotIsAligned(tg, l);
    PairSize(SlotOf(tg, l));
  }

  lemma PairSize(s: Slot)
    requires s.align >= 1 && s.size % s.align == 0
    ensures Size([s, s], false) == 2 * s.size && Alignment([s, s], false) == s.align
  {
    hide RoundUp;
    var slots := [s, s];
    RoundUpExact(0, s.align);
    RoundUpExact(s.size, s.align);
    ManyAligned(2, s.size, s.align);
    RoundUpExact(2 * s.size, s.align);
    assert Offset(slots, false, 0) == 0 && End(slots, false, 1) == s.size;
    assert Offset(slots, false, 1) == s.size && End(slots, false, 2) == 2 * s.size;
    assert AlignmentOfFirst(slots, false, 1) == s.align && AlignmentOfFirst(slots, false, 2) == s.align;
  }

  /** Simple types, complex numbers and vectors of simple types have an LLVM type of
      their size, the obvious one where that fits; arrays are packed and padded as need
      be, see ArraySizeExact. */
  ghost predicate Sized(tg: Target, g: Types, l: LlvmType, t: Id)
    requires tg.Valid() && t in g
  {
    match g[t]
    case Simple(_, e) => Fits(tg, l, e) && SimplyConverted(tg, g, l, t)
    case Complex(elem, e) =>
      Fits(tg, l, e) &&
      (elem in g && g[elem].Simple? ==>
         forall x :: SimplyConverted(tg, g, x, elem) ==> PairConverted(tg, l, x, e))
    case Vector(elem, count, e) =>
      elem in g && g[elem].Simple? ==>
        Fits(tg, l, e) && forall x :: SimplyConverted(tg, g, x, elem) ==> VectorConverted(tg, l, x, count, e)
    case Array(_, length, size, underaligned) =>
      Core(l).LArray? && l == ArrayOf(tg, Core(l).elem, length, size, underaligned)
    case _ => true
  }

  /** Everything registered is right; a body belongs to a complete record. */
  ghost predicate Sound(tg: Target, g: Types, r: Registry) {
    && tg.Valid()
    && (forall t {:trigger t in r.cache} :: t in r.cache ==> t in g)
    && (forall t {:trigger r.cache[t]} :: t in r.cache ==> Shape(g, r.cache[t], t) && Sized(tg, g, r.cache[t], t))
    && (forall t {:trigger t in r.bodies} :: t in r.bodies ==> t in r.cache && t in g && g[t].Record? && g[t].complete)
    && (forall t {:trigger Embodies(tg, g, t, r.bodies[t])} :: t in r.bodies ==> Embodies(tg, g, t, r.bodies[t]))
  }
}
