/** The bodies of converted records. */
module RecordBodies {
  import opened Options
  import opened StructLayouts
  import opened DataLayouts
  import opened IntervalLists
  import opened ElementPlacement
  import opened TypeGraphs
  import RecordTypes

  /** Every element that is not plain data goes by the name of the field it is for. */
  lemma NamesKnown(tg: Target, fields: seq<FieldDecl>, parts: seq<LlvmType>, size: Option<nat>, align: nat,
                   elts: seq<RecordTypes.LlvmType>, pack: bool, layout: seq<RecordTypes.TypedRange>, at: seq<nat>)
    requires tg.Valid() && |parts| == |fields|
    requires RecordTypes.Struct(tg.dl, Decls(tg, fields, parts), size, align, elts, pack, layout, at)
    ensures forall e :: 0 <= e < |elts| && elts[e].Other? ==>
              elts[e].name < |parts| && elts[e] == Seen(tg, elts[e].name, parts[elts[e].name])
  {
    hide RecordTypes.Struct;
    forall e | 0 <= e < |elts| && elts[e].Other?
      ensures elts[e].name < |parts| && elts[e] == Seen(tg, elts[e].name, parts[elts[e].name])
    {
      RecordTypes.ElementsAreFields(tg.dl, Decls(tg, fields, parts), size, align, elts, pack, layout, at, e);
    }
  }

  /** The elements of the body have the sizes and alignments that the layout was made
      for. */
  lemma SlotsAgree(tg: Target, g: Types, t: Id, body: Body, parts: seq<LlvmType>,
                   elts: seq<RecordTypes.LlvmType>, layout: seq<RecordTypes.TypedRange>, at: seq<nat>)
    requires tg.Valid() && t in g && g[t].Record? && EmbodiesBy(tg, g, t, body, parts, elts, layout, at)
    ensures SlotsOf(Slotting(tg), body.elts) == SlotsOf(RecordTypes.Slotting(tg.dl), elts)
  {
    hide RecordTypes.Struct;
    hide RecordTypes.SlotOf;
    hide Shape;
    NamesKnown(tg, Compatible(g[t].fields), parts, g[t].size, g[t].align, elts, body.pack, layout, at);
    forall e | 0 <= e < |elts| ensures SlotOf(tg, body.elts[e]) == RecordTypes.SlotOf(tg.dl, elts[e]) {
      NamedSlot(tg, elts[e], parts);
    }
  }

  lemma NamedSlot(tg: Target, e: RecordTypes.LlvmType, parts: seq<LlvmType>)
    requires tg.Valid() && (e.Other? ==> e.name < |parts| && e == Seen(tg, e.name, parts[e.name]))
    ensures SlotOf(tg, Named(parts, e)) == RecordTypes.SlotOf(tg.dl, e)
  {
    if e.Other? { SeenSlot(tg, e.name, parts[e.name]); }
  }

  /** The struct of a record has exactly the size of the record, if that is constant,
      and no more than its alignment. */
  lemma BodySize(tg: Target, g: Types, t: Id, body: Body)
    requires t in g && g[t].Record? && Embodies(tg, g, t, body)
    ensures tg.Valid() && WellFormedSlots(tg, body)
    ensures g[t].size.Some? ==> 8 * Size(SlotsOf(Slotting(tg), body.elts), body.pack) == g[t].size.value
    ensures 8 * Alignment(SlotsOf(Slotting(tg), body.elts), body.pack) <= g[t].align
  {
    hide RecordTypes.LaysOut;
    hide RecordTypes.SlotOf;
    hide Shape;
    var parts, elts: seq<RecordTypes.LlvmType>, layout, at :| EmbodiesBy(tg, g, t, body, parts, elts, layout, at);
    SlotsAgree(tg, g, t, body, parts, elts, layout, at);
  }

  ghost predicate WellFormedSlots(tg: Target, body: Body)
    requires tg.Valid()
  {
    StructLayouts.WellFormed(SlotsOf(Slotting(tg), body.elts))
  }

  /** Element e of the body starts at the given bit. */
  ghost predicate StartsAt(tg: Target, body: Body, e: nat, bit: nat)
    requires tg.Valid()
  {
    && WellFormedSlots(tg, body) && e < |body.elts|
    && 8 * Offset(SlotsOf(Slotting(tg), body.elts), body.pack, e) == bit
  }

  /** Element e stands for the field: it represents the field's type at its place. */
  ghost predicate Represents(tg: Target, g: Types, body: Body, e: nat, f: FieldDecl) {
    tg.Valid() && StartsAt(tg, body, e, f.firstBit) && Shape(g, body.elts[e], f.ty)
  }

  /** A single integer, or bytes. */
  ghost predicate IntegerOrBytes(l: LlvmType) {
    l.LData? && (l.ty.IntTy? || exists n :: l.ty == UnitTy(n))
  }

  /** Every element of the struct is an integer, or bytes, or stands for some field. */
  lemma ElementsRepresent(tg: Target, g: Types, t: Id, body: Body, e: nat)
    requires t in g && g[t].Record? && Embodies(tg, g, t, body) && e < |body.elts|
    ensures IntegerOrBytes(body.elts[e]) ||
            exists f :: f in g[t].fields && f.compatible && Represents(tg, g, body, e, f)
  {
    hide RecordTypes.LaysOut;
    hide RecordTypes.SlotOf;
    hide Shape;
    var parts, elts: seq<RecordTypes.LlvmType>, layout, at :| EmbodiesBy(tg, g, t, body, parts, elts, layout, at);
    assert body.elts[e] == Named(parts, elts[e]);
    if !RecordTypes.IntegerOrBytes(elts[e]) {
      var k := FieldOfElement(tg, g, t, body, parts, elts, layout, at, e);
      assert Compatible(g[t].fields)[k] in Compatible(g[t].fields);
    }
  }

  lemma FieldOfElement(tg: Target, g: Types, t: Id, body: Body, parts: seq<LlvmType>, elts: seq<RecordTypes.LlvmType>,
                       layout: seq<RecordTypes.TypedRange>, at: seq<nat>, e: nat) returns (k: nat)
    requires tg.Valid() && t in g && g[t].Record? && EmbodiesBy(tg, g, t, body, parts, elts, layout, at)
    requires e < |elts| && !RecordTypes.IntegerOrBytes(elts[e])
    ensures k < |Compatible(g[t].fields)| && Represents(tg, g, body, e, Compatible(g[t].fields)[k])
  {
    hide RecordTypes.LaysOut;
    hide RecordTypes.SlotOf;
    hide Shape;
    SlotsAgree(tg, g, t, body, parts, elts, layout, at);
    var decls := Decls(tg, Compatible(g[t].fields), parts);
    RecordTypes.ElementsAreFields(tg.dl, decls, g[t].size, g[t].align, elts, body.pack, layout, at, e);
    k :| 0 <= k < |decls| && elts[e] == decls[k].ty &&
         8 * Offset(SlotsOf(RecordTypes.Slotting(tg.dl), elts), body.pack, e) == decls[k].firstBit;
  }

  /** Field k is on byte boundaries and overlaps no other, and its LLVM type fits. */
  ghost predicate OnItsOwn(tg: Target, fields: seq<FieldDecl>, parts: seq<LlvmType>, size: Option<nat>, k: nat)
    requires tg.Valid()
  {
    && k < |fields| == |parts|
    && var decls := Decls(tg, fields, parts);
       var r := RecordTypes.RangeOf(decls[k], size);
       RecordTypes.Alone(decls, size, k, 0) && Aligned(r, 8) && 8 * SlotOf(tg, parts[k]).size <= r.Width()
  }

  /** ... and has whole bytes. */
  ghost predicate Separate(tg: Target, fields: seq<FieldDecl>, parts: seq<LlvmType>, size: Option<nat>, k: nat)
    requires tg.Valid()
  {
    OnItsOwn(tg, fields, parts, size, k) && RecordTypes.PrimitiveSize(Decls(tg, fields, parts)[k].ty) % 8 == 0
  }

  /** Some element stands for the field and is what the field's type was converted to. */
  ghost predicate Represented(tg: Target, g: Types, body: Body, fields: seq<FieldDecl>, parts: seq<LlvmType>, k: nat) {
    k < |fields| == |parts| &&
    exists e: nat :: Represents(tg, g, body, e, fields[k]) && body.elts[e] == parts[k]
  }

  /** Conversely such a field has an element that stands for it. */
  lemma FieldRepresented(tg: Target, g: Types, t: Id, body: Body, parts: seq<LlvmType>, elts: seq<RecordTypes.LlvmType>,
                         layout: seq<RecordTypes.TypedRange>, at: seq<nat>, k: nat)
    requires tg.Valid() && t in g && g[t].Record? && EmbodiesBy(tg, g, t, body, parts, elts, layout, at)
    requires Separate(tg, Compatible(g[t].fields), parts, g[t].size, k)
    ensures Represented(tg, g, body, Compatible(g[t].fields), parts, k)
  {
    hide RecordTypes.SlotOf;
    hide RecordTypes.Alone;
    hide Shape;
    var fields := Compatible(g[t].fields);
    var decls := Decls(tg, fields, parts);
    SlotsAgree(tg, g, t, body, parts, elts, layout, at);
    SeenSlot(tg, k, parts[k]);
    RecordTypes.FieldAtItsOffset(tg.dl, decls, g[t].size, k, elts, body.pack, layout, at);
    var e :| 0 <= e < |elts| && elts[e] == decls[k].ty &&
             8 * Offset(SlotsOf(RecordTypes.Slotting(tg.dl), elts), body.pack, e) == decls[k].firstBit;
    assert Represents(tg, g, body, e, fields[k]) && body.elts[e] == parts[k];
  }

  /** Aggregates have whole bytes, so for a field of such a type on byte boundaries that
      overlaps no other it is enough that it fits. */
  lemma AggregateRepresented(tg: Target, g: Types, t: Id, body: Body, parts: seq<LlvmType>,
                             elts: seq<RecordTypes.LlvmType>, layout: seq<RecordTypes.TypedRange>, at: seq<nat>, k: nat)
    requires tg.Valid() && t in g && g[t].Record? && EmbodiesBy(tg, g, t, body, parts, elts, layout, at)
    requires OnItsOwn(tg, Compatible(g[t].fields), parts, g[t].size, k)
    requires parts[k].LStruct? || parts[k].LArray? || parts[k].LPair?
    ensures Represented(tg, g, body, Compatible(g[t].fields), parts, k)
  {
    hide RecordTypes.SlotOf;
    hide RecordTypes.Alone;
    hide Shape;
    hide EmbodiesBy;
    hide Represented;
    hide SlotOf;
    FieldRepresented(tg, g, t, body, parts, elts, layout, at, k);
  }
}
