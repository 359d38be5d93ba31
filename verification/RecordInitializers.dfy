/** From the initial values of the fields of a record to the record's initializer:
    later values overwrite earlier ones, everything is forced onto byte boundaries,
    and the pieces are assembled. */
module RecordInitializers {
  import opened Options
  import opened Ranges
  import opened Bits
  import opened DataLayouts
  import opened Constants
  import opened Interpretation
  import opened IntervalLists
  import opened ElementPlacement
  import opened Joining
  import opened FieldContents
  import RecordConstants
  import RecordTypes

  /** The initial value of a field, at the given position and of the given width. */
  datatype Init = Init(first: nat, width: nat, c: Const)

  type Piece = Interval<Positioned>

  function PieceOf(x: Init): Piece {
    Interval(Range(x.first, x.first + x.width), Positioned(x.c, x.first))
  }

  /** The value that decides about bit p: the last one that has it. */
  function OwnerOf(inits: seq<Init>, p: int): Option<Positioned> {
    if inits == [] then None
    else
      var x := inits[|inits| - 1];
      if x.first <= p < x.first + x.width then Some(Positioned(x.c, x.first))
      else OwnerOf(inits[..|inits| - 1], p)
  }

  predicate InField(x: Init, p: int) {
    x.first <= p < x.first + x.width
  }

  /** Value k is the last whose field has the bit. */
  predicate LastOf(inits: seq<Init>, p: int, k: nat) {
    k < |inits| && InField(inits[k], p) && forall j :: k < j < |inits| ==> !InField(inits[j], p)
  }

  /** That value decides, and if there is none, none does. */
  lemma {:induction false} LastDecides(inits: seq<Init>, p: int)
    ensures forall k: nat :: LastOf(inits, p, k) ==> OwnerOf(inits, p) == Some(Positioned(inits[k].c, inits[k].first))
    ensures OwnerOf(inits, p) == None <==> forall k :: 0 <= k < |inits| ==> !InField(inits[k], p)
  {
    if inits != [] {
      var before := inits[..|inits| - 1];
      LastDecides(before, p);
      assert forall k :: 0 <= k < |before| ==> before[k] == inits[k];
      assert forall k: nat :: LastOf(inits, p, k) && k < |before| ==> LastOf(before, p, k);
    }
  }

  /** The bit that the values of the fields call for at position p. */
  function DefinedBy(dl: DataLayout, inits: seq<Init>, p: int): Option<bool>
    requires dl.Valid()
  {
    match OwnerOf(inits, p)
    case None => None
    case Some(x) => Image(dl, x.c)(p - x.starts)
  }

  /** Some value has a bit in the same byte. */
  ghost predicate ByteUsed(inits: seq<Init>, p: nat) {
    exists q: nat :: OwnerOf(inits, q).Some? && RoundDown(q, 8) == RoundDown(p, 8)
  }

  /** An integer has at least as many bits as the field. */
  ghost predicate GoodInit(x: Init) {
    WellTyped(x.c) && (TypeOf(x.c).IntTy? ==> x.width <= TypeOf(x.c).bits)
  }

  // ---------- the interval list ----------

  /** A value as it was given, or an integer that several were joined to. */
  ghost predicate FromValues(inits: seq<Init>, x: Positioned) {
    x.c.CInt? || exists k :: 0 <= k < |inits| && x == Positioned(inits[k].c, inits[k].first)
  }

  ghost function Allowed(inits: seq<Init>): (f: (Positioned, int) -> bool)
    ensures forall x, p :: f(x, p) <==> WellTyped(x.c) && InInteger(x, p) && FromValues(inits, x)
  {
    (x: Positioned, p) => WellTyped(x.c) && InInteger(x, p) && FromValues(inits, x)
  }

  /** Joining keeps bits on little-endian machines; see JoinExact for others. */
  ghost function Keeping(dl: DataLayout): (f: (Positioned, Positioned, int) -> bool)
    requires dl.Valid()
    ensures forall x, y, p :: f(x, y, p) <==> (dl.bigEndian || Keeps(dl, x, y, p))
  {
    (x, y, p) => dl.bigEndian || Keeps(dl, x, y, p)
  }

  /** What FieldContents.JoinWith does. */
  function JoinPieces(dl: DataLayout): (f: (Piece, Piece) -> Positioned)
    requires dl.Valid()
    ensures forall a, b :: f(a, b) == JoinedWith(dl, a.contents, a.range, b.contents, b.range)
  {
    (a: Piece, b: Piece) => JoinedWith(dl, a.contents, a.range, b.contents, b.range)
  }

  ghost predicate OurList(dl: DataLayout, inits: seq<Init>, list: IntervalList<Positioned>)
    requires dl.Valid()
  {
    list.join == JoinPieces(dl) && list.allowed == Allowed(inits) && list.keeps == Keeping(dl)
  }

  lemma JoinsKeep(dl: DataLayout, inits: seq<Init>, list: IntervalList<Positioned>)
    requires dl.Valid() && OurList(dl, inits, list)
    ensures list.JoinKeeps()
  {
    hide JoinedWith;
    hide Keeps;
    hide WellTyped;
    forall t, p ensures Keeps(dl, t, t, p) { KeepsItself(dl, t, p); }
    forall t, u, v, p | Keeps(dl, t, u, p) && Keeps(dl, u, v, p) ensures Keeps(dl, t, v, p) {
      KeepsTwice(dl, t, u, v, p);
    }
    forall a: Piece, b: Piece | list.Joinable(a, b) ensures list.Joined(a, b, list.join(a, b)) {
      PiecesJoined(dl, inits, list, a, b);
    }
  }

  lemma KeepsItself(dl: DataLayout, t: Positioned, p: int)
    requires dl.Valid()
    ensures Keeps(dl, t, t, p)
  {}

  lemma KeepsTwice(dl: DataLayout, t: Positioned, u: Positioned, v: Positioned, p: int)
    requires dl.Valid() && Keeps(dl, t, u, p) && Keeps(dl, u, v, p)
    ensures Keeps(dl, t, v, p)
  {}

  lemma PiecesJoined(dl: DataLayout, inits: seq<Init>, list: IntervalList<Positioned>, a: Piece, b: Piece)
    requires dl.Valid() && OurList(dl, inits, list) && list.Joinable(a, b)
    ensures list.Joined(a, b, list.join(a, b))
  {
    hide JoinedWith;
    hide Keeps;
    hide WellTyped;
    assert a.range.Has(a.range.first) && a.range.Has(a.range.last - 1);
    assert b.range.Has(b.range.first) && b.range.Has(b.range.last - 1);
    var t := list.join(a, b);
    assert t == JoinedWith(dl, a.contents, a.range, b.contents, b.range);
    JoinedFacts(dl, a.contents, a.range, b.contents, b.range);
    assert t.c.CInt? by { JoinedIsInteger(dl, a.contents, a.range, b.contents, b.range); }
    if !dl.bigEndian {
      JoinKeepsBits(dl, a.contents, a.range, b.contents, b.range);
    }
  }

  lemma JoinedIsInteger(dl: DataLayout, x: Positioned, xr: Range, y: Positioned, yr: Range)
    requires dl.Valid()
    ensures JoinedWith(dl, x, xr, y, yr).c.CInt?
  {}

  /** Value k is not overwritten. */
  ghost predicate Untouched(inits: seq<Init>, k: nat)
    requires k < |inits|
  {
    && inits[k].width > 0
    && forall j :: k < j < |inits| ==> !PieceOf(inits[k]).range.Intersects(PieceOf(inits[j]).range)
  }

  /** The list when the first i values have been added. */
  ghost predicate Loaded(dl: DataLayout, inits: seq<Init>, list: IntervalList<Positioned>, i: nat)
    requires dl.Valid() && i <= |inits|
    reads list
  {
    && OurList(dl, inits, list)
    && Sane(list.intervals) && list.AllFill(list.intervals, 0)
    && Owned(list.intervals, inits[..i])
    && KeepsUntouched(list.intervals, inits, i)
  }

  ghost predicate KeepsUntouched(s: seq<Piece>, inits: seq<Init>, i: nat)
    requires i <= |inits|
  {
    forall k :: 0 <= k < i && Untouched(inits, k) ==> PieceOf(inits[k]) in s
  }

  /** Adds the values in order, so that later ones take precedence. */
  method AddInits(dl: DataLayout, inits: seq<Init>) returns (layout: IntervalList<Positioned>)
    requires dl.Valid() && forall x :: x in inits ==> GoodInit(x)
    ensures fresh(layout) && Loaded(dl, inits, layout, |inits|)
    ensures Owned(layout.intervals, inits)
  {
    hide Loaded;
    hide GoodInit;
    layout := new IntervalList<Positioned>(JoinPieces(dl), Allowed(inits), Keeping(dl));
    NothingLoaded(dl, inits, layout);
    for i := 0 to |inits|
      invariant fresh(layout) && Loaded(dl, inits, layout, i)
    {
      AddInit(dl, inits, layout, i);
    }
    AllLoaded(dl, inits, layout);
  }

  lemma NothingLoaded(dl: DataLayout, inits: seq<Init>, list: IntervalList<Positioned>)
    requires dl.Valid() && OurList(dl, inits, list) && list.intervals == []
    ensures Loaded(dl, inits, list, 0)
  {}

  lemma AllLoaded(dl: DataLayout, inits: seq<Init>, list: IntervalList<Positioned>)
    requires dl.Valid() && Loaded(dl, inits, list, |inits|)
    ensures Sane(list.intervals) && Owned(list.intervals, inits)
  {
    assert inits[..|inits|] == inits;
  }

  method AddInit(dl: DataLayout, inits: seq<Init>, list: IntervalList<Positioned>, i: nat)
    requires dl.Valid() && i < |inits| && GoodInit(inits[i]) && Loaded(dl, inits, list, i)
    modifies list
    ensures Loaded(dl, inits, list, i + 1)
  {
    hide Owned;
    hide KeepsUntouched;
    hide GoodInit;
    hide Keeping;
    hide JoinPieces;
    hide Allowed;
    ValueFills(dl, inits, list, i);
    ghost var was := list.intervals;
    list.AddInterval(PieceOf(inits[i]));
    OwnedNext(was, inits, i, list.intervals);
    UntouchedNext(was, inits, i, list.intervals);
  }

  lemma UntouchedNext(s: seq<Piece>, inits: seq<Init>, i: nat, t: seq<Piece>)
    requires i < |inits| && KeepsUntouched(s, inits, i)
    requires !PieceOf(inits[i]).range.Empty() ==> PieceOf(inits[i]) in t
    requires forall y :: y in s && !y.range.Intersects(PieceOf(inits[i]).range) ==> y in t
    ensures KeepsUntouched(t, inits, i + 1)
  {}

  /** Every position belongs to the value that decides about it. */
  ghost predicate Owned(s: seq<Piece>, inits: seq<Init>)
    requires Sane(s)
  {
    forall p :: At(s, p) == OwnerOf(inits, p)
  }

  lemma NothingOwned(inits: seq<Init>)
    ensures Owned([], inits[..0])
  {}

  lemma OwnedNext(s: seq<Piece>, inits: seq<Init>, i: nat, t: seq<Piece>)
    requires Sane(s) && Sane(t) && i < |inits| && Owned(s, inits[..i])
    requires var x := PieceOf(inits[i]);
             forall p :: At(t, p) == if x.range.Has(p) then Some(x.contents) else At(s, p)
    ensures Owned(t, inits[..i + 1])
  {
    assert inits[..i + 1][..i] == inits[..i];
  }

  lemma ValueFills(dl: DataLayout, inits: seq<Init>, list: IntervalList<Positioned>, i: nat)
    requires dl.Valid() && OurList(dl, inits, list) && i < |inits| && GoodInit(inits[i])
    ensures list.Fills(PieceOf(inits[i]))
  {
    hide WellTyped;
  }

  /** The bit belongs to a value and is not in the field of value k. */
  ghost predicate Others(inits: seq<Init>, k: nat, p: int)
    requires k < |inits|
  {
    OwnerOf(inits, p).Some? && !PieceOf(inits[k]).range.Has(p)
  }

  /** No other value has a bit in a byte in which value k has one. */
  ghost predicate Alone(inits: seq<Init>, k: nat)
    requires k < |inits|
  {
    && Untouched(inits, k)
    && forall p: nat, q: nat :: Others(inits, k, p) && PieceOf(inits[k]).range.Has(q) ==>
         RoundDown(p, 8) != RoundDown(q, 8)
  }

  /** The pieces that the initializer is made of.  They are on byte boundaries and cover
      exactly the bytes in which some value has a bit; contents are values or joined
      integers; a value alone in its bytes is a piece of its own; and, on
      little-endian machines, no bit that a value defines is lost. */
  ghost predicate LaysOut(dl: DataLayout, inits: seq<Init>, layout: seq<Piece>)
    requires dl.Valid()
  {
    && Sane(layout)
    && (forall x :: x in layout ==> Aligned(x.range, 8) && WellTyped(x.contents.c) && FromValues(inits, x.contents))
    && (forall p: nat :: Covered(layout, p) <==> ByteUsed(inits, p))
    && (forall p :: OwnerOf(inits, p).Some? ==>
          Covered(layout, p) && (dl.bigEndian || Keeps(dl, OwnerOf(inits, p).value, At(layout, p).value, p)))
    && (forall k :: 0 <= k < |inits| && Alone(inits, k) ==> RoundedOut(PieceOf(inits[k]), 8) in layout)
  }

  method LayOut(dl: DataLayout, inits: seq<Init>) returns (layout: seq<Piece>)
    requires dl.Valid() && forall x :: x in inits ==> GoodInit(x)
    ensures LaysOut(dl, inits, layout)
  {
    hide At;
    hide OwnerOf;
    hide WellTyped;
    hide Keeps;
    hide JoinPieces;
    hide Touched;
    hide Alone;
    hide Untouched;
    hide RoundDown;
    hide RoundedOut;
    hide FromValues;
    hide GoodInit;
    var list := AddInits(dl, inits);
    ghost var raw := list.intervals;
    JoinsKeep(dl, inits, list);
    list.AlignBoundaries(8);
    layout := list.intervals;
    forall p: nat ensures Covered(layout, p) <==> ByteUsed(inits, p) { UsedBytes(inits, raw, p); }
    forall p | OwnerOf(inits, p).Some?
      ensures Covered(layout, p) && (dl.bigEndian || Keeps(dl, OwnerOf(inits, p).value, At(layout, p).value, p))
    {
      assert At(raw, p) == OwnerOf(inits, p);
    }
    forall k | 0 <= k < |inits| && Alone(inits, k) ensures RoundedOut(PieceOf(inits[k]), 8) in layout {
      AloneIsLone(inits, raw, k);
    }
  }

  lemma UsedBytes(inits: seq<Init>, raw: seq<Piece>, p: nat)
    requires Sane(raw) && Owned(raw, inits)
    ensures Touched(raw, 8, p) <==> ByteUsed(inits, p)
  {
    hide RoundDown;
    hide OwnerOf;
    if Touched(raw, 8, p) {
      var q: nat :| Covered(raw, q) && RoundDown(q, 8) == RoundDown(p, 8);
      assert At(raw, q).Some?;
    }
    if q: nat :| OwnerOf(inits, q).Some? && RoundDown(q, 8) == RoundDown(p, 8) {
      assert At(raw, q).Some?;
    }
  }

  lemma AloneIsLone(inits: seq<Init>, raw: seq<Piece>, k: nat)
    requires Sane(raw) && k < |inits| && Alone(inits, k) && Owned(raw, inits)
    requires KeepsUntouched(raw, inits, |inits|)
    ensures PieceOf(inits[k]) in raw && Lone(raw, PieceOf(inits[k]), 8)
  {
    hide RoundDown;
    hide OwnerOf;
    hide Untouched;
    var y := PieceOf(inits[k]);
    var j :| 0 <= j < |raw| && raw[j] == y;
    forall x, p: nat, q: nat | x in raw && x != y && x.range.Has(p) && y.range.Has(q)
      ensures RoundDown(p, 8) != RoundDown(q, 8)
    {
      var i :| 0 <= i < |raw| && raw[i] == x;
      assert raw[i].range.Has(p) && At(raw, p).Some?;
      assert !y.range.Has(p) by {
        if i < j { assert raw[i].range.last <= raw[j].range.first; }
        if j < i { assert raw[j].range.last <= raw[i].range.first; }
      }
    }
  }

  // ---------- the initializer ----------

  /** What extraction makes of a piece. */
  ghost predicate Rendered(dl: DataLayout, x: Piece, f: Field<Const>)
    requires dl.Valid()
  {
    && f.first == x.range.first && WellTyped(f.item)
    && AllocBits(dl, TypeOf(f.item)) <= x.range.Width()
    && Extraction(dl, x.contents.c, x.contents.starts, x.range, f.item)
  }

  method ExtractAll(dl: DataLayout, layout: seq<Piece>) returns (fields: seq<Field<Const>>)
    requires dl.Valid() && dl.intAlign(BYTE_BITS) == 1 && Sane(layout)
    requires forall x :: x in layout ==> Aligned(x.range, 8) && WellTyped(x.contents.c)
    ensures |fields| == |layout| && forall k :: 0 <= k < |layout| ==> Rendered(dl, layout[k], fields[k])
  {
    hide WellTyped;
    hide Rendered;
    fields := [];
    for i := 0 to |layout|
      invariant |fields| == i && forall k :: 0 <= k < i ==> Rendered(dl, layout[k], fields[k])
    {
      assert layout[i] in layout;
      var field := ExtractOne(dl, layout[i]);
      fields := fields + [field];
    }
  }

  method ExtractOne(dl: DataLayout, x: Piece) returns (field: Field<Const>)
    requires dl.Valid() && dl.intAlign(BYTE_BITS) == 1 && 0 <= x.range.first < x.range.last
    requires Aligned(x.range, 8) && WellTyped(x.contents.c)
    ensures Rendered(dl, x, field)
  {
    hide WellTyped;
    hide Extraction;
    hide AllocBytes;
    var contents := new FieldContents(x.contents.starts, x.range.last, x.contents.c);
    contents.ChangeRangeTo(x.range);
    var val := contents.ExtractContents(dl);
    field := Field(x.range.first, val);
  }

  lemma RenderedInOrder(dl: DataLayout, layout: seq<Piece>, fields: seq<Field<Const>>)
    requires dl.Valid() && Sane(layout) && |fields| == |layout|
    requires forall x :: x in layout ==> Aligned(x.range, 8)
    requires forall k :: 0 <= k < |layout| ==> Rendered(dl, layout[k], fields[k])
    ensures InOrder(RecordConstants.Slotting(dl), fields)
  {
    hide Extraction;
    hide WellTyped;
    forall k | 0 <= k < |fields| ensures fields[k].first % 8 == 0 { assert layout[k] in layout; }
    forall i, j | 0 <= i < j < |fields|
      ensures fields[i].first + 8 * RecordConstants.Slotting(dl)(fields[i].item).size <= fields[j].first
    {
      assert layout[i].range.last <= layout[j].range.first;
    }
  }

  lemma RenderedFits(dl: DataLayout, layout: seq<Piece>, fields: seq<Field<Const>>)
    requires RecordTypes.GoodTarget(dl) && |fields| == |layout|
    requires forall k :: 0 <= k < |layout| ==> Rendered(dl, layout[k], fields[k])
    ensures forall k :: 0 <= k < |fields| ==> WellTyped(fields[k].item)
    ensures forall k :: 0 <= k < |fields| ==> PowerOfTwo(RecordConstants.Slotting(dl)(fields[k].item).align)
  {
    hide WellTyped;
    hide Extraction;
    forall k | 0 <= k < |fields|
      ensures WellTyped(fields[k].item) && PowerOfTwo(RecordConstants.Slotting(dl)(fields[k].item).align)
    {
      assert Rendered(dl, layout[k], fields[k]);
      RecordTypes.AlignIsPower(dl, TypeOf(fields[k].item));
    }
  }

  /** The initializer stores what extraction makes of each piece, at its place. */
  ghost predicate Converted(dl: DataLayout, inits: seq<Init>, layout: seq<Piece>, fields: seq<Field<Const>>, c: Const)
    requires dl.Valid()
  {
    && LaysOut(dl, inits, layout)
    && |fields| == |layout| && (forall k :: 0 <= k < |layout| ==> Rendered(dl, layout[k], fields[k]))
    && RecordConstants.Stores(dl, fields, c)
  }

  /** The whole conversion. */
  method ConvertRecordConstructor(dl: DataLayout, inits: seq<Init>, typeSize: nat, maxAlign: nat, zero: bool)
    returns (c: Const, ghost layout: seq<Piece>, ghost fields: seq<Field<Const>>)
    requires RecordTypes.GoodTarget(dl) && forall x :: x in inits ==> GoodInit(x)
    requires typeSize % 8 == 0 && maxAlign >= 8
    ensures c.CStruct? && WellTyped(c)
    ensures AllocBits(dl, TypeOf(c)) >= typeSize && 8 * AbiAlign(dl, TypeOf(c)) <= maxAlign
    ensures Converted(dl, inits, layout, fields, c)
    ensures RecordConstants.OnlyStores(dl, fields, c) && RecordConstants.PadsWith(zero, fields, c)
    ensures !dl.bigEndian && Full(dl, inits) ==>
              forall p :: DefinedBy(dl, inits, p).Some? ==> Image(dl, c)(p) == DefinedBy(dl, inits, p)
    ensures forall k :: 0 <= k < |inits| && Alone(inits, k) && !MisreadAlone(inits[k]) ==> Arrives(dl, inits[k], c)
  {
    hide Rendered;
    hide WellTyped;
    hide DefinedBy;
    hide AllocBytes;
    hide AbiAlign;
    hide GoodInit;
    hide OwnerOf;
    hide Keeps;
    hide Alone;
    hide Arrives;
    hide Full;
    hide MisreadAlone;
    hide RecordConstants.Stores;
    hide RecordConstants.OnlyStores;
    hide RecordConstants.PadsWith;
    var pieces := LayOut(dl, inits);
    var constants := ExtractAll(dl, pieces);
    layout, fields := pieces, constants;
    RenderedInOrder(dl, layout, fields);
    RenderedFits(dl, layout, fields);
    c := RecordConstants.BuildInitializer(dl, constants, typeSize, maxAlign, zero);
    if !dl.bigEndian && Full(dl, inits) {
      AllArrive(dl, inits, layout, fields, c);
    }
    forall k | 0 <= k < |inits| && Alone(inits, k) && !MisreadAlone(inits[k]) ensures Arrives(dl, inits[k], c) {
      AloneArrives(dl, inits, layout, fields, c, k);
    }
  }

  // ---------- what arrives ----------

  /** Every bit that the value of the field defines is at its place. */
  ghost predicate Arrives(dl: DataLayout, x: Init, c: Const)
    requires dl.Valid()
  {
    forall p :: PieceOf(x).range.Has(p) && Image(dl, x.c)(p - x.first).Some? ==>
      Image(dl, c)(p) == Image(dl, x.c)(p - x.first)
  }

  /** A bit of a piece that is not displaced. */
  lemma PieceDelivered(dl: DataLayout, layout: seq<Piece>, fields: seq<Field<Const>>, c: Const, k: nat, p: int)
    requires dl.Valid() && dl.intAlign(BYTE_BITS) == 1 && Sane(layout) && k < |layout| == |fields|
    requires Aligned(layout[k].range, 8) && WellTyped(layout[k].contents.c) && Rendered(dl, layout[k], fields[k])
    requires RecordConstants.Stores(dl, fields, c) && layout[k].range.Has(p)
    requires Undisplaced(dl, TypeOf(layout[k].contents.c), layout[k].contents.starts, layout[k].range)
    ensures var x := layout[k].contents;
            Image(dl, x.c)(p - x.starts).Some? ==> Image(dl, c)(p) == Image(dl, x.c)(p - x.starts)
  {
    hide Image;
    hide WellTyped;
    hide Extraction;
    hide Undisplaced;
    hide AllocBytes;
    var x, q := layout[k], p - layout[k].range.first;
    WidthAligned(x.range);
    ExtractionHolds(dl, x.contents.c, x.contents.starts, x.range, fields[k].item);
    assert q + (x.range.first - x.contents.starts) == p - x.contents.starts;
    if Image(dl, x.contents.c)(p - x.contents.starts).Some? {
      assert Image(dl, fields[k].item)(q) == Image(dl, x.contents.c)(p - x.contents.starts);
      assert fields[k].first + q == p;
    }
  }

  lemma WidthAligned(r: Range)
    requires Aligned(r, 8) && !r.Empty()
    ensures r.Width() % 8 == 0 && r.first % 8 == 0
  {}

  /** The values define every bit of every byte in which they have a bit. */
  ghost predicate Full(dl: DataLayout, inits: seq<Init>)
    requires dl.Valid()
  {
    forall p: nat :: ByteUsed(inits, p) ==> DefinedBy(dl, inits, p).Some?
  }

  /** Then nothing is lost on little-endian machines, whatever is joined. */
  lemma AllArrive(dl: DataLayout, inits: seq<Init>, layout: seq<Piece>, fields: seq<Field<Const>>, c: Const)
    requires dl.Valid() && dl.intAlign(BYTE_BITS) == 1 && !dl.bigEndian && Full(dl, inits)
    requires Converted(dl, inits, layout, fields, c)
    ensures forall p :: DefinedBy(dl, inits, p).Some? ==> Image(dl, c)(p) == DefinedBy(dl, inits, p)
  {
    hide Rendered;
    hide Image;
    hide Full;
    hide LaysOut;
    hide DefinedBy;
    hide Undisplaced;
    hide RecordConstants.Stores;
    forall p | DefinedBy(dl, inits, p).Some? ensures Image(dl, c)(p) == DefinedBy(dl, inits, p) {
      var k := DefiningPiece(dl, inits, layout, p);
      FullPiece(dl, inits, layout, k);
      PieceDelivered(dl, layout, fields, c, k, p);
    }
  }

  lemma DefiningPiece(dl: DataLayout, inits: seq<Init>, layout: seq<Piece>, p: int) returns (k: nat)
    requires dl.Valid() && !dl.bigEndian && LaysOut(dl, inits, layout) && DefinedBy(dl, inits, p).Some?
    ensures Sane(layout) && k < |layout| && layout[k].range.Has(p)
    ensures Aligned(layout[k].range, 8) && WellTyped(layout[k].contents.c)
    ensures Image(dl, layout[k].contents.c)(p - layout[k].contents.starts) == DefinedBy(dl, inits, p)
  {
    hide Image;
    hide OwnerOf;
    hide ByteUsed;
    hide Alone;
    hide FromValues;
    hide WellTyped;
    assert Covered(layout, p);
    k :| k < |layout| && layout[k].range.Has(p);
    assert layout[k] in layout && At(layout, p) == Some(layout[k].contents);
  }

  lemma FullPiece(dl: DataLayout, inits: seq<Init>, layout: seq<Piece>, k: nat)
    requires dl.Valid() && dl.intAlign(BYTE_BITS) == 1 && !dl.bigEndian && Full(dl, inits)
    requires LaysOut(dl, inits, layout) && k < |layout|
    ensures Undisplaced(dl, TypeOf(layout[k].contents.c), layout[k].contents.starts, layout[k].range)
  {
    hide Image;
    hide OwnerOf;
    hide Alone;
    hide FromValues;
    hide ByteUsed;
    hide DataBit;
    hide Undisplaced;
    var x := layout[k];
    assert x in layout;
    WidthAligned(x.range);
    forall p | x.range.Has(p) ensures DataBit(dl, TypeOf(x.contents.c), p - x.contents.starts) {
      assert layout[k].range.Has(p) && Covered(layout, p) && At(layout, p) == Some(x.contents);
      assert DefinedBy(dl, inits, p).Some?;
      ImageIsData(dl, x.contents.c, p - x.contents.starts);
    }
    DataUndisplaced(dl, TypeOf(x.contents.c), x.contents.starts, x.range);
  }

  /** A value alone in its bytes is taken for them although it starts within a byte. */
  predicate MisreadAlone(x: Init) {
    Misread(TypeOf(x.c), x.first, RoundedOut(PieceOf(x), 8).range)
  }

  lemma AloneRange(x: Init)
    requires x.width > 0
    ensures var r := RoundedOut(PieceOf(x), 8).range;
            && Aligned(r, 8) && r.Width() % 8 == 0 && r.first % 8 == 0 && !r.Empty()
            && (x.first % 8 == 0 ==> r.first == x.first)
            && forall p :: PieceOf(x).range.Has(p) ==> r.Has(p)
  {
    hide RoundDown;
    hide RoundLastUp;
    RoundedAligned(x.first, x.first + x.width, 8);
  }

  lemma PieceAlone(dl: DataLayout, inits: seq<Init>, layout: seq<Piece>, k: nat) returns (j: nat)
    requires dl.Valid() && LaysOut(dl, inits, layout) && k < |inits| && Alone(inits, k)
    ensures Sane(layout) && j < |layout| && layout[j] == RoundedOut(PieceOf(inits[k]), 8)
    ensures Aligned(layout[j].range, 8) && WellTyped(layout[j].contents.c)
  {
    hide Alone;
    hide RoundedOut;
    hide WellTyped;
    hide OwnerOf;
    hide FromValues;
    j :| j < |layout| && layout[j] == RoundedOut(PieceOf(inits[k]), 8);
    assert layout[j] in layout;
  }

  /** In both byte orders, a value alone in its bytes arrives unless it is misread... */
  lemma AloneArrives(dl: DataLayout, inits: seq<Init>, layout: seq<Piece>, fields: seq<Field<Const>>, c: Const, k: nat)
    requires dl.Valid() && dl.intAlign(BYTE_BITS) == 1 && Converted(dl, inits, layout, fields, c)
    requires k < |inits| && Alone(inits, k) && !MisreadAlone(inits[k])
    ensures Arrives(dl, inits[k], c)
  {
    hide Rendered;
    hide Image;
    hide LaysOut;
    hide RoundDown;
    hide RoundLastUp;
    hide Misread;
    hide Undisplaced;
    hide RecordConstants.Stores;
    var x := inits[k];
    AloneRange(x);
    var j := PieceAlone(dl, inits, layout, k);
    ReadWell(dl, TypeOf(x.c), x.first, layout[j].range);
    forall p | PieceOf(x).range.Has(p) && Image(dl, x.c)(p - x.first).Some?
      ensures Image(dl, c)(p) == Image(dl, x.c)(p - x.first)
    {
      PieceDelivered(dl, layout, fields, c, j, p);
    }
  }

  function WithValue(inits: seq<Init>, k: nat, c: Const): seq<Init>
    requires k < |inits|
  {
    inits[k := inits[k].(c := c)]
  }

  /** ... and otherwise, if its type has any bit in the field, there is a value of the
      type that does not arrive, however the conversion goes. */
  lemma AloneIsLost(dl: DataLayout, inits: seq<Init>, k: nat, p: int) returns (d: Const)
    requires dl.Valid() && dl.intAlign(BYTE_BITS) == 1 && k < |inits| && Alone(inits, k) && MisreadAlone(inits[k])
    requires WellFormedTy(TypeOf(inits[k].c))
    requires PieceOf(inits[k]).range.Has(p) && DataBit(dl, TypeOf(inits[k].c), p - inits[k].first)
    ensures WellTyped(d) && TypeOf(d) == TypeOf(inits[k].c)
    ensures forall layout, fields, c :: Converted(dl, WithValue(inits, k, d), layout, fields, c) ==>
              Image(dl, d)(p - inits[k].first) == Some(true) && Image(dl, c)(p) == Some(false)
    ensures forall layout, fields, c :: Converted(dl, WithValue(inits, k, d), layout, fields, c) ==>
              !Arrives(dl, inits[k].(c := d), c)
  {
    hide Converted;
    hide Image;
    hide DataBit;
    hide OneBit;
    hide Alone;
    hide MisreadAlone;
    var x := inits[k];
    d := OneBit(dl, TypeOf(x.c), p - x.first);
    OneBitType(dl, TypeOf(x.c), p - x.first);
    OneBitImage(dl, TypeOf(x.c), p - x.first, p - x.first);
    forall layout, fields, c | Converted(dl, WithValue(inits, k, d), layout, fields, c)
      ensures Image(dl, c)(p) == Some(false)
    {
      AloneOther(inits, k, d);
      MisreadStored(dl, WithValue(inits, k, d), layout, fields, c, k, p);
    }
  }

  lemma {:induction false} OwnedAsBefore(inits: seq<Init>, k: nat, d: Const, p: int)
    requires k < |inits|
    ensures OwnerOf(WithValue(inits, k, d), p).Some? == OwnerOf(inits, p).Some?
  {
    var n := |inits| - 1;
    if k < n {
      assert WithValue(inits, k, d)[..n] == WithValue(inits[..n], k, d);
      OwnedAsBefore(inits[..n], k, d, p);
    } else {
      assert WithValue(inits, k, d)[..n] == inits[..n];
    }
  }

  lemma AloneOther(inits: seq<Init>, k: nat, d: Const)
    requires k < |inits| && Alone(inits, k) && MisreadAlone(inits[k]) && TypeOf(d) == TypeOf(inits[k].c)
    ensures Alone(WithValue(inits, k, d), k) && MisreadAlone(WithValue(inits, k, d)[k])
  {
    hide OwnerOf;
    hide RoundDown;
    hide RoundLastUp;
    hide Misread;
    forall p ensures OwnerOf(WithValue(inits, k, d), p).Some? == OwnerOf(inits, p).Some? {
      OwnedAsBefore(inits, k, d, p);
    }
  }

  lemma MisreadStored(dl: DataLayout, inits: seq<Init>, layout: seq<Piece>, fields: seq<Field<Const>>, c: Const,
                      k: nat, p: int)
    requires dl.Valid() && dl.intAlign(BYTE_BITS) == 1 && Converted(dl, inits, layout, fields, c)
    requires k < |inits| && Alone(inits, k) && MisreadAlone(inits[k]) && PieceOf(inits[k]).range.Has(p)
    requires WellFormedTy(TypeOf(inits[k].c)) && DataBit(dl, TypeOf(inits[k].c), p - inits[k].first)
    requires inits[k].c == OneBit(dl, TypeOf(inits[k].c), p - inits[k].first)
    ensures Image(dl, c)(p) == Some(false)
  {
    hide Image;
    hide DataBit;
    hide OneBit;
    hide LaysOut;
    hide Alone;
    hide RoundDown;
    hide RoundLastUp;
    hide Misread;
    hide Extraction;
    hide RecordConstants.Stores;
    var x := inits[k];
    assert x.width > 0;
    AloneRange(x);
    var j := PieceAlone(dl, inits, layout, k);
    assert Rendered(dl, layout[j], fields[j]);
    MisreadLoses(dl, TypeOf(x.c), x.first, layout[j].range, p, fields[j].item);
    assert fields[j].first + (p - layout[j].range.first) == p;
    StoredAt(dl, fields, c, j, p - layout[j].range.first);
  }

  lemma StoredAt(dl: DataLayout, fields: seq<Field<Const>>, c: Const, j: nat, q: int)
    requires dl.Valid() && RecordConstants.Stores(dl, fields, c) && j < |fields| && Image(dl, fields[j].item)(q).Some?
    ensures Image(dl, c)(fields[j].first + q) == Image(dl, fields[j].item)(q)
  {}

  /** Such a value: a byte with one set bit, for a field of five bits at bit 3. */
  method ShiftedByteIsLost(dl: DataLayout) returns (inits: seq<Init>, c: Const)
    requires RecordTypes.GoodTarget(dl)
    ensures DefinedBy(dl, inits, 3) == Some(true) && Image(dl, c)(3) == Some(false)
  {
    hide Converted;
    hide DataBit;
    hide OneBit;
    hide Image;
    hide Full;
    hide Arrives;
    hide Alone;
    hide MisreadAlone;
    hide WellTyped;
    hide OwnerOf;
    hide AllocBytes;
    hide AbiAlign;
    var value := CInt(8, if dl.bigEndian then 128 else 1);
    inits := [Init(3, 5, value)];
    FirstBit(dl, value);
    OnlyValue(dl, inits[0]);
    ghost var layout, fields;
    c, layout, fields := ConvertRecordConstructor(dl, inits, 8, 8, false);
    MisreadStored(dl, inits, layout, fields, c, 0, 3);
  }

  lemma FirstBit(dl: DataLayout, value: Const)
    requires dl.Valid() && value == CInt(8, if dl.bigEndian then 128 else 1)
    ensures WellTyped(value) && DataBit(dl, IntTy(8), 0) && value == OneBit(dl, IntTy(8), 0)
    ensures Image(dl, value)(0) == Some(true)
  {
    assert Pow2(8) == 256 && Pow2(7) == 128 && Pow2(0) == 1;
  }

  lemma OnlyOwner(x: Init, p: int)
    ensures OwnerOf([x], p) == if PieceOf(x).range.Has(p) then Some(Positioned(x.c, x.first)) else None
  {
    assert [x][..0] == [];
  }

  lemma OnlyValue(dl: DataLayout, x: Init)
    requires dl.Valid() && x.first == 3 && x.width == 5 && TypeOf(x.c) == IntTy(8)
    ensures Alone([x], 0) && MisreadAlone(x) && OwnerOf([x], 3) == Some(Positioned(x.c, 3))
  {
    hide OwnerOf;
    hide RoundDown;
    hide RoundLastUp;
    forall p ensures !Others([x], 0, p) { OnlyOwner(x, p); }
    OnlyOwner(x, 3);
  }
}
