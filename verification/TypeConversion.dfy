/** Converting a cyclic type graph, one strongly connected component at a time,
    cutting cycles at pointers. */
module TypeConversion {
  import opened Options
  import opened Bits
  import opened Graphs
  import opened DataLayouts
  import opened TypeGraphs
  import opened RecordBodies
  import RecordTypes

  /** How much there is to do for a type: nothing unless it may recurse. */
  ghost function Work(g: Types, r: Registry, t: Id): nat
    requires WellFormed(g) && t in g
  {
    if MayRecurse(g, r, t) then 1 + Rank(g, t) else 0
  }

  /** From r to s nothing registered is lost, and only types of the component whose
      work is within the bound stop being recursive. */
  ghost predicate Advanced(g: Types, r: Registry, s: Registry, component: seq<Id>, bound: nat)
    requires WellFormed(g)
  {
    && (forall t :: t in r.cache ==> t in s.cache && s.cache[t] == r.cache[t])
    && (forall t :: t in r.bodies ==> t in s.bodies && s.bodies[t] == r.bodies[t])
    && (forall t :: t in g && MayRecurse(g, s, t) ==> MayRecurse(g, r, t))
    && (forall t :: t in g && MayRecurse(g, r, t) && (t !in component || 1 + Rank(g, t) > bound) ==>
          MayRecurse(g, s, t))
  }

  lemma AdvancedSelf(g: Types, r: Registry, component: seq<Id>, bound: nat)
    requires WellFormed(g)
    ensures Advanced(g, r, r, component, bound)
  {}

  /** Registering a type that needs no care. */
  lemma AdvancedOne(g: Types, r: Registry, s: Registry, t: Id, l: LlvmType)
    requires WellFormed(g) && t in g && t !in r.cache && s == r.(cache := r.cache[t := l])
    requires !MayRecurse(g, r, t)
    requires forall u :: u in g && u != t ==> MayRecurse(g, s, u) == MayRecurse(g, r, u)
    ensures Advanced(g, r, s, [], 0)
  {}

  lemma AdvancedTwice(g: Types, r: Registry, s: Registry, t: Registry, component: seq<Id>, first: nat, bound: nat)
    requires WellFormed(g) && first <= bound
    requires Advanced(g, r, s, component, first) && Advanced(g, s, t, component, bound)
    ensures Advanced(g, r, t, component, bound)
  {}

  /** Registering a member of the component. */
  lemma AdvancedMember(g: Types, r: Registry, s: Registry, u: Registry, component: seq<Id>, t: Id)
    requires WellFormed(g) && t in g && t in component && Advanced(g, r, s, component, Rank(g, t))
    requires t !in s.cache && t in u.cache && u == s.(cache := s.cache[t := u.cache[t]]) && !MayRecurse(g, u, t)
    requires forall v :: v in g && v != t ==> MayRecurse(g, u, v) == MayRecurse(g, s, v)
    ensures Advanced(g, r, u, component, 1 + Rank(g, t))
  {}

  lemma NotRegistered(tg: Target, g: Types, r: Registry, t: Id)
    requires Sound(tg, g, r) && t in g && MayRecurse(g, r, t)
    ensures Complicated(g, t) && (!g[t].Record? ==> t !in r.cache)
  {}

  /** No size is promised for types that may recurse, other than arrays. */
  lemma SizedAnyway(tg: Target, g: Types, r: Registry, l: LlvmType, t: Id)
    requires Sound(tg, g, r) && t in g && MayRecurse(g, r, t) && !g[t].Array?
    ensures Sized(tg, g, l, t)
  {}

  /** A type that is not simple, so that it counts as converted once registered. */
  predicate Complicated(g: Types, t: Id)
    requires t in g
  {
    match g[t]
    case Vector(elem, _, _) => elem in g && g[elem].Pointer?
    case Record(complete, _, _, _) => complete
    case k => k.Array? || k.Function? || k.Pointer?
  }

  /** The component in progress: whatever its members contain is in it or needs no
      care, its records have a placeholder, and a pointer or array of a larger
      component has the type it refers to in the component. */
  ghost predicate InProgress(g: Types, r: Registry, component: seq<Id>) {
    && (forall t :: t in component ==> t in g && Complicated(g, t))
    && Confined(g, r, component)
    && (forall t :: t in component && g[t].Record? ==> t in r.cache)
    && Knit(g, component)
  }

  ghost predicate Confined(g: Types, r: Registry, component: seq<Id>) {
    forall t, u :: t in component && t in g && u in Contained(g[t]) && u in g && MayRecurse(g, r, u) ==> u in component
  }

  ghost predicate Knit(g: Types, component: seq<Id>) {
    |component| > 1 ==>
      (forall t :: t in component && t in g && g[t].Pointer? ==> g[t].pointee in component) &&
      (forall t :: t in component && t in g && g[t].Array? ==> g[t].elem in component)
  }

  /** The pointer points to what its pointee was converted to, void becoming a byte. */
  predicate Precise(g: Types, cache: map<Id, LlvmType>, t: Id) {
    && t in g && t in cache && g[t].Pointer? && g[t].pointee in g && g[t].pointee in cache
    && cache[t] == LPointer(if g[g[t].pointee].Void? then BYTE else cache[g[t].pointee])
  }

  /** A pointer that is a component by itself, and does not point to itself. */
  predicate LonePointer(g: Types, component: seq<Id>, t: Id) {
    |component| == 1 && t in g && g[t].Pointer? && g[t].pointee != t
  }

  /** Pointers to anything but pointers are precise; pointers to other pointers point to
      pointers. */
  ghost predicate AllPrecise(g: Types, cache: map<Id, LlvmType>, ts: set<Id>) {
    forall t :: t in ts && t in g && g[t].Pointer? && g[t].pointee in g ==> PointsWell(g, cache, t)
  }

  predicate PointsWell(g: Types, cache: map<Id, LlvmType>, t: Id)
    requires t in g && g[t].Pointer? && g[t].pointee in g
  {
    if !g[g[t].pointee].Pointer? then Precise(g, cache, t)
    else g[t].pointee != t ==> t in cache && cache[t].LPointer? && cache[t].pointee.LPointer?
  }

  /** Going through the component in order, every pointer was pointed to what its pointee
      was converted to: to the result of that, if the pointee came before, and else to
      what it was before. */
  ghost predicate Redirected(g: Types, scc: seq<Id>, n: nat, before: map<Id, LlvmType>, after: map<Id, LlvmType>)
    requires n <= |scc|
  {
    forall i :: 0 <= i < n && scc[i] in g && g[scc[i]].Pointer? ==>
      var pointee := g[scc[i]].pointee;
      && scc[i] in after && pointee in after && pointee in before
      && after[scc[i]] == LPointer(if pointee in scc[..i] then after[pointee] else before[pointee])
  }

  ghost predicate Distinct(scc: seq<Id>) {
    forall m, n :: 0 <= m < n < |scc| ==> scc[m] != scc[n]
  }

  lemma StillInProgress(g: Types, r: Registry, s: Registry, component: seq<Id>, bound: nat)
    requires WellFormed(g) && InProgress(g, r, component) && Advanced(g, r, s, component, bound)
    ensures InProgress(g, s, component)
  {
    forall t, u | t in component && u in Contained(g[t]) && u in g && MayRecurse(g, s, u) ensures u in component {
      assert MayRecurse(g, r, u);
    }
  }

  class Converter {
    const target: Target
    var types: Types
    var cache: map<Id, LlvmType>
    var bodies: map<Id, Body>
    var sccInProgress: Option<seq<Id>>

    function Reg(): Registry
      reads this
    {
      Registry(cache, bodies)
    }

    ghost predicate Valid()
      reads this
    {
      WellFormed(types) && Sound(target, types, Reg())
    }

    constructor (target: Target, types: Types)
      requires target.Valid() && WellFormed(types)
      ensures Valid() && this.target == target && this.types == types
      ensures cache == map[] && bodies == map[] && sccInProgress == None
    {
      this.target := target;
      this.types := types;
      cache := map[];
      bodies := map[];
      sccInProgress := None;
    }

    method RememberTypeConversion(t: Id, l: LlvmType) returns (r: LlvmType)
      requires Valid() && t in types && Shape(types, l, t) && Sized(target, types, l, t)
      requires t !in cache || types[t].Pointer? || cache[t] == l
      modifies `cache
      ensures Valid() && r == l && cache == old(cache)[t := l] && Shape(types, l, t)
      ensures !types[t].Record? && Complicated(types, t) ==> !MayRecurse(types, Reg(), t)
      ensures forall u :: u in types && u != t ==> MayRecurse(types, Reg(), u) == old(MayRecurse(types, Reg(), u))
    {
      hide Sound;
      hide WellFormed;
      hide Shape;
      hide Sized;
      StillSound(target, types, Reg(), t, l);
      cache := cache[t := l];
      r := l;
    }

    lemma CachedShape(t: Id)
      requires Valid() && t in cache
      ensures t in types && Shape(types, cache[t], t) && Sized(target, types, cache[t], t)
    {}

    /** Converts a type that cannot refer back to itself or that was converted.  A
        type of constant size gets the obvious LLVM type if that fits, or bytes. */
    method ConvertTypeNonRecursive(t: Id) returns (l: LlvmType)
      requires Valid() && t in types && !MayRecurse(types, Reg(), t)
      modifies `cache
      ensures Valid() && t in cache && l == cache[t] && Shape(types, l, t) && Sized(target, types, l, t)
      ensures Advanced(types, old(Reg()), Reg(), [], 0)
      ensures forall k :: k in cache && k !in old(cache) ==> k == t || types[k].Simple?
      ensures t in old(cache) ==> l == old(cache)[t]
      ensures t !in old(cache) ==> l == Obvious(target, types, cache, t)
      decreases if types[t].Simple? then 0 else 1
    {
      hide Sound;
      hide WellFormed;
      hide Shape;
      hide Advanced;
      hide SimplyConverted;
      hide Fitted;
      hide Sized;
      if t in cache {
        CachedShape(t);
        AdvancedSelf(types, Reg(), [], 0);
        return cache[t];
      }
      ghost var before := Reg();
      assert target.Valid() by { TargetValid(); }
      match types[t] {
        case Void =>
          FlatShape(target, types, t);
          l := RememberTypeConversion(t, LVoid);
          AdvancedOne(types, before, Reg(), t, l);
        case IncompleteEnum =>
          // A byte as the placeholder for incomplete enums.
          FlatShape(target, types, t);
          l := RememberTypeConversion(t, BYTE);
          AdvancedOne(types, before, Reg(), t, l);
        case Record(_, _, _, _) =>
          // An incomplete record: an opaque struct.
          FlatShape(target, types, t);
          l := RememberTypeConversion(t, LStruct(t));
          AdvancedOne(types, before, Reg(), t, l);
        case Simple(_, extent) =>
          SimpleShape(target, types, t);
          l := RememberTypeConversion(t, Fitted(target, SimpleType(types, t), extent));
          AdvancedOne(types, before, Reg(), t, l);
        case Complex(elem, extent) =>
          ElementSimple(types, t);
          var e := ConvertTypeNonRecursive(elem);
          SimpleIs(target, types, e, elem);
          PairShape(target, types, e, t);
          RememberAfter(t, Fitted(target, LPair(e), extent), before);
          l := cache[t];
        case Vector(elem, count, extent) =>
          ElementSimple(types, t);
          var e := ConvertTypeNonRecursive(elem);
          SimpleIs(target, types, e, elem);
          VectorOfSimple(target, types, e, t);
          RememberAfter(t, Fitted(target, LVector(e, count), extent), before);
          l := cache[t];
      }
    }

    lemma TargetValid()
      requires Valid()
      ensures target.Valid()
    {}

    method RememberAfter(t: Id, l: LlvmType, ghost before: Registry)
      requires Valid() && t in types && t !in cache && Shape(types, l, t) && Sized(target, types, l, t)
      requires !MayRecurse(types, before, t)
      requires Advanced(types, before, Reg(), [], 0)
      modifies `cache
      ensures Valid() && cache == old(cache)[t := l] && Advanced(types, before, Reg(), [], 0)
    {
      hide Sound;
      hide WellFormed;
      hide Shape;
      ghost var now := Reg();
      var _ := RememberTypeConversion(t, l);
      AdvancedOne(types, now, Reg(), t, l);
      AdvancedTwice(types, before, now, Reg(), [], 0, 0);
    }

    /** ConvertType, called while a component is in progress. */
    method ConvertWithin(t: Id) returns (l: LlvmType)
      requires Valid() && t in types && sccInProgress.Some? && InProgress(types, Reg(), sccInProgress.value)
      requires MayRecurse(types, Reg(), t) ==> t in sccInProgress.value
      modifies `cache, `bodies
      ensures Valid() && t in cache && l == cache[t] && Shape(types, l, t) && !MayRecurse(types, Reg(), t)
      ensures Advanced(types, old(Reg()), Reg(), sccInProgress.value, old(Work(types, Reg(), t)))
      ensures old(MayRecurse(types, Reg(), t)) && LonePointer(types, sccInProgress.value, t) ==>
                Precise(types, cache, t)
      decreases Work(types, Reg(), t), 1
    {
      hide Sound;
      hide InProgress;
      hide Shape;
      hide Rank;
      hide WellFormed;
      if !MayRecurse(types, Reg(), t) {
        l := ConvertTypeNonRecursive(t);
      } else {
        l := ConvertTypeRecursive(t);
      }
    }

    method ConvertTypeRecursive(t: Id) returns (l: LlvmType)
      requires Valid() && t in types && sccInProgress.Some? && InProgress(types, Reg(), sccInProgress.value)
      requires MayRecurse(types, Reg(), t) && t in sccInProgress.value
      modifies `cache, `bodies
      ensures Valid() && t in cache && l == cache[t] && Shape(types, l, t) && !MayRecurse(types, Reg(), t)
      ensures Advanced(types, old(Reg()), Reg(), sccInProgress.value, 1 + Rank(types, t))
      ensures LonePointer(types, sccInProgress.value, t) ==> Precise(types, cache, t)
      decreases Work(types, Reg(), t), 0
    {
      hide Sound;
      hide InProgress;
      hide Shape;
      hide Rank;
      hide WellFormed;
      hide Advanced;
      hide Precise;
      ghost var before := Reg();
      match types[t] {
        case Array(_, _, _, _) =>
          var a := ConvertArrayTypeRecursive(t);
          RememberMember(t, a, before);
          l := cache[t];
        case Vector(elem, count, _) =>
          var e := ConvertPart(t, elem);
          VectorShape(types, e, t);
          SizedAnyway(target, types, Reg(), LVector(e, count), t);
          RememberMember(t, LVector(e, count), before);
          l := cache[t];
        case Function(ret, args) =>
          var f := ConvertFunctionType(t);
          SizedAnyway(target, types, Reg(), f, t);
          RememberMember(t, f, before);
          l := cache[t];
        case Pointer(pointee) =>
          var p := ConvertPointerTypeRecursive(t);
          SizedAnyway(target, types, Reg(), p, t);
          RememberMember(t, p, before);
          l := cache[t];
        case Record(_, _, _, _) =>
          l := ConvertRecordTypeRecursive(t);
          CachedShape(t);
      }
    }

    /** Converts an array, packed if it is less aligned than its elements, and padded if
        it is bigger. */
    method ConvertArrayTypeRecursive(t: Id) returns (l: LlvmType)
      requires Valid() && t in types && sccInProgress.Some? && InProgress(types, Reg(), sccInProgress.value)
      requires MayRecurse(types, Reg(), t) && t in sccInProgress.value && types[t].Array?
      modifies `cache, `bodies
      ensures Valid() && Shape(types, l, t) && Sized(target, types, l, t)
      ensures Advanced(types, old(Reg()), Reg(), sccInProgress.value, Rank(types, t))
      ensures MayRecurse(types, Reg(), t)
      decreases Rank(types, t), 3
    {
      hide Sound;
      hide Shape;
      hide Rank;
      hide WellFormed;
      hide InProgress;
      hide Advanced;
      hide Sized;
      var e := ConvertPart(t, types[t].elem);
      TargetValid();
      ArrayShape(target, types, e, t);
      // A variable length array has no elements.
      l := LArray(e, Count(types[t].length));
      if types[t].underaligned {
        l := LPacked(l);
      }
      if types[t].size.Some? {
        var padBits := PadBits(target, l, types[t].size.value);
        if padBits != 0 {
          l := LPadded(l, padBits / 8);
        }
      }
    }

    /** Registers what a member of the component was converted to. */
    method RememberMember(t: Id, l: LlvmType, ghost before: Registry)
      requires Valid() && t in types && sccInProgress.Some? && t in sccInProgress.value
      requires MayRecurse(types, Reg(), t) && !types[t].Record? && Shape(types, l, t) && Sized(target, types, l, t)
      requires Advanced(types, before, Reg(), sccInProgress.value, Rank(types, t))
      modifies `cache
      ensures Valid() && cache == old(cache)[t := l] && !MayRecurse(types, Reg(), t)
      ensures Advanced(types, before, Reg(), sccInProgress.value, 1 + Rank(types, t))
    {
      hide Sound;
      hide Shape;
      hide Rank;
      hide WellFormed;
      hide Advanced;
      ghost var now := Reg();
      NotRegistered(target, types, Reg(), t);
      var _ := RememberTypeConversion(t, l);
      AdvancedMember(types, before, now, Reg(), sccInProgress.value, t);
    }

    method ConvertFunctionType(t: Id) returns (l: LlvmType)
      requires Valid() && t in types && sccInProgress.Some? && InProgress(types, Reg(), sccInProgress.value)
      requires MayRecurse(types, Reg(), t) && t in sccInProgress.value && types[t].Function?
      modifies `cache, `bodies
      ensures Valid() && Shape(types, l, t)
      ensures Advanced(types, old(Reg()), Reg(), sccInProgress.value, Rank(types, t))
      ensures MayRecurse(types, Reg(), t) && InProgress(types, Reg(), sccInProgress.value)
      ensures l.LFunction? && |l.args| == if AnyIncomplete(types, types[t].args) then 0 else |types[t].args|
      decreases Rank(types, t), 3
    {
      hide Sound;
      hide Shape;
      hide Rank;
      hide WellFormed;
      hide InProgress;
      var args := types[t].args;
      ghost var before := Reg();
      var ret := ConvertPart(t, types[t].ret);
      var ls: seq<LlvmType> := [];
      var i := 0;
      while i < |args|
        invariant 0 <= i <= |args| && |ls| == i && (forall j :: 0 <= j < i ==> Shape(types, ls[j], args[j]))
        invariant forall j :: 0 <= j < i ==> !Incomplete(types, args[j])
        invariant Valid() && Advanced(types, before, Reg(), sccInProgress.value, Rank(types, t))
        invariant MayRecurse(types, Reg(), t) && InProgress(types, Reg(), sccInProgress.value)
        decreases |args| - i
      {
        ghost var now := Reg();
        var l := ConvertPart(t, args[i]);
        AdvancedTwice(types, before, now, Reg(), sccInProgress.value, Rank(types, t), Rank(types, t));
        OpaqueIncomplete(target, types, Reg(), l, args[i]);
        if l.LStruct? && l.record !in bodies {
          // An opaque struct passed by value: how many arguments that is is not known.
          ls := [];
          break;
        }
        ls := ls + [l];
        i := i + 1;
      }
      FunctionShape(types, ret, ls, t);
      l := LFunction(ret, ls);
    }

    /** Where loops are cut. */
    method ConvertPointerTypeRecursive(t: Id) returns (l: LlvmType)
      requires Valid() && t in types && sccInProgress.Some? && InProgress(types, Reg(), sccInProgress.value)
      requires MayRecurse(types, Reg(), t) && t in sccInProgress.value && types[t].Pointer?
      modifies `cache, `bodies
      ensures Valid() && Shape(types, l, t)
      ensures Advanced(types, old(Reg()), Reg(), sccInProgress.value, Rank(types, t))
      ensures MayRecurse(types, Reg(), t)
      ensures LonePointer(types, sccInProgress.value, t) ==> Precise(types, cache[t := l], t)
      ensures types[t].pointee in sccInProgress.value ==>
                l.LPointer? && exists depth: nat :: Placeholder(types, l.pointee, types[t].pointee, depth)
      decreases Rank(types, t), 3
    {
      hide Sound;
      hide Shape;
      hide Rank;
      var scc := sccInProgress.value;
      var pointee := types[t].pointee;
      assert pointee in Contained(types[t]);
      var bothInSCC := |scc| != 1 || pointee == t;
      assert bothInSCC == (pointee in scc) by { KnitPointer(types, scc, t); }
      var p: LlvmType;
      if !bothInSCC {
        p := ConvertWithin(pointee);
        VoidShape(types, p, pointee);
        if p == LVoid {
          p := BYTE;
        }
      } else {
        p := PlaceholderFor(pointee);
      }
      PointerShape(types, p, t);
      l := LPointer(p);
    }

    /** The struct of the record that the elements of nested arrays ultimately are;
        it has been registered if the record is in the component. */
    method PlaceholderFor(pointee: Id) returns (p: LlvmType)
      requires Valid() && sccInProgress.Some? && InProgress(types, Reg(), sccInProgress.value)
      requires pointee in sccInProgress.value
      requires |sccInProgress.value| == 1 ==> types[pointee].Pointer?
      ensures exists depth: nat :: Placeholder(types, p, pointee, depth)
    {
      hide Sound;
      hide Shape;
      hide Rank;
      hide WellFormed;
      var u := pointee;
      ghost var n: nat := 0;
      assert Drilled(types, pointee, 0) == pointee;
      while types[u].Array?
        invariant u in sccInProgress.value && u in types && u == Drilled(types, pointee, n)
        invariant |sccInProgress.value| == 1 ==> types[u].Pointer?
        decreases Rank(types, u)
      {
        DirectRank(types, u, types[u].elem);
        DrillOnce(types, pointee, n);
        u := types[u].elem;
        n := n + 1;
      }
      if types[u].Record? {
        CachedShape(u);
        p := cache[u];
        RecordShape(types, p, u);
      } else {
        p := LEmpty;
      }
      assert Placeholder(types, p, pointee, n);
    }

    method ConvertRecordTypeRecursive(t: Id) returns (l: LlvmType)
      requires Valid() && t in types && sccInProgress.Some? && InProgress(types, Reg(), sccInProgress.value)
      requires MayRecurse(types, Reg(), t) && t in sccInProgress.value && types[t].Record?
      modifies `cache, `bodies
      ensures Advanced(types, old(Reg()), Reg(), sccInProgress.value, 1 + Rank(types, t))
      ensures Valid() && t in cache && l == cache[t] && !MayRecurse(types, Reg(), t)
      decreases Rank(types, t), 4
    {
      hide Sound;
      hide Shape;
      hide Rank;
      hide WellFormed;
      var parts := ConvertFields(t);
      // The struct registered for the type is still opaque.
      assert t in cache && t !in bodies;
      var body := BodyOf(t, parts);
      SetBody(t, body);
      l := cache[t];
    }

    /** Lays the fields out as a struct. */
    method BodyOf(t: Id, parts: seq<LlvmType>) returns (body: Body)
      requires Valid() && t in types && types[t].Record? && Shapes(types, parts, Compatible(types[t].fields))
      ensures Embodies(target, types, t, body)
    {
      hide Sound;
      hide Shape;
      hide Compatible;
      hide RecordTypes.Struct;
      RecordFacts(types, t);
      TargetValid();
      var record := types[t];
      var decls := Decls(target, Compatible(record.fields), parts);
      var elts, pack, layout, at := RecordTypes.ConvertRecord(target.dl, decls, record.size, record.align);
      NamesKnown(target, Compatible(record.fields), parts, record.size, record.align, elts, pack, layout, at);
      body := Body(seq(|elts|, i requires 0 <= i < |elts| => Named(parts, elts[i])), pack);
      assert EmbodiesBy(target, types, t, body, parts, elts, layout, at);
    }

    method SetBody(t: Id, body: Body)
      requires Valid() && t in types && types[t].Record? && types[t].complete && t in cache && t !in bodies
      requires Embodies(target, types, t, body)
      modifies `bodies
      ensures Valid() && bodies == old(bodies)[t := body] && !MayRecurse(types, Reg(), t)
      ensures forall u :: u in types && u != t ==> MayRecurse(types, Reg(), u) == old(MayRecurse(types, Reg(), u))
    {
      hide Embodies;
      hide Sound;
      hide WellFormed;
      SoundWithBody(target, types, Reg(), t, body);
      bodies := bodies[t := body];
    }

    /** Converts the fields that are laid out, visiting the last first. */
    method ConvertFields(t: Id) returns (parts: seq<LlvmType>)
      requires Valid() && t in types && sccInProgress.Some? && InProgress(types, Reg(), sccInProgress.value)
      requires MayRecurse(types, Reg(), t) && t in sccInProgress.value && types[t].Record?
      modifies `cache, `bodies
      ensures Valid() && Shapes(types, parts, Compatible(types[t].fields))
      ensures Advanced(types, old(Reg()), Reg(), sccInProgress.value, Rank(types, t))
      ensures MayRecurse(types, Reg(), t) && InProgress(types, Reg(), sccInProgress.value)
      decreases Rank(types, t), 3
    {
      hide Sound;
      hide Shape;
      hide Rank;
      hide WellFormed;
      hide InProgress;
      hide Advanced;
      hide Shapes;
      hide MayRecurse;
      ghost var before := Reg();
      var fields := Compatible(types[t].fields);
      parts := [];
      var i := |fields|;
      assert Shapes(types, parts, fields[i..]) by { NoShapes(types); }
      AdvancedSelf(types, before, sccInProgress.value, Rank(types, t));
      while i > 0
        invariant 0 <= i <= |fields| && Shapes(types, parts, fields[i..])
        invariant Valid() && Advanced(types, before, Reg(), sccInProgress.value, Rank(types, t))
        invariant MayRecurse(types, Reg(), t) && InProgress(types, Reg(), sccInProgress.value)
        decreases i
      {
        i := i - 1;
        var field := fields[i];
        assert field in fields && field.ty in Direct(types[t]);
        ghost var now := Reg();
        var l := ConvertPart(t, field.ty);
        AdvancedTwice(types, before, now, Reg(), sccInProgress.value, Rank(types, t), Rank(types, t));
        MoreShapes(types, parts, fields, i, l);
        parts := [l] + parts;
      }
      assert fields[0..] == fields;
    }

    /** Converts something that t contains directly. */
    method ConvertPart(ghost t: Id, u: Id) returns (l: LlvmType)
      requires Valid() && t in types && sccInProgress.Some? && InProgress(types, Reg(), sccInProgress.value)
      requires MayRecurse(types, Reg(), t) && t in sccInProgress.value && u in Direct(types[t])
      modifies `cache, `bodies
      ensures Valid() && u in types && u in cache && l == cache[u] && Shape(types, l, u) && !MayRecurse(types, Reg(), u)
      ensures Advanced(types, old(Reg()), Reg(), sccInProgress.value, Rank(types, t))
      ensures MayRecurse(types, Reg(), t) && InProgress(types, Reg(), sccInProgress.value)
      decreases Rank(types, t), 2
    {
      hide Sound;
      hide Shape;
      hide Rank;
      hide WellFormed;
      DirectRank(types, t, u);
      assert u in Contained(types[t]);
      ghost var before := Reg();
      l := ConvertWithin(u);
      StillInProgress(types, before, Reg(), sccInProgress.value, Rank(types, t));
    }

    /** Registers an opaque struct for every record of the component without one. */
    method PlacePlaceholders(scc: seq<Id>)
      requires Valid() && forall t :: t in scc ==> t in types && MayRecurse(types, Reg(), t)
      modifies `cache
      ensures Valid() && forall t :: t in types ==> MayRecurse(types, Reg(), t) == old(MayRecurse(types, Reg(), t))
      ensures forall t :: t in old(cache) ==> t in cache && cache[t] == old(cache)[t]
      ensures forall t :: t in scc && types[t].Record? ==> t in cache
    {
      hide Rank;
      hide WellFormed;
      hide Sound;
      for i := 0 to |scc|
        invariant Valid() && forall t :: t in types ==> MayRecurse(types, Reg(), t) == old(MayRecurse(types, Reg(), t))
        invariant forall t :: t in old(cache) ==> t in cache && cache[t] == old(cache)[t]
        invariant forall j :: 0 <= j < i && types[scc[j]].Record? ==> scc[j] in cache
      {
        var t := scc[i];
        assert MayRecurse(types, Reg(), t);
        if !types[t].Record? {
          assert t !in cache;
          continue;
        }
        if t in cache {
          assert t !in bodies;
          continue;
        }
        AddPlaceholder(t);
      }
    }

    lemma PlaceholderRight(t: Id)
      requires Valid() && t in types && types[t].Record?
      ensures target.Valid() && Shape(types, LStruct(t), t) && Sized(target, types, LStruct(t), t)
      ensures t !in cache ==> t !in bodies
    {}

    method AddPlaceholder(t: Id)
      requires Valid() && t in types && types[t].Record? && t !in cache && MayRecurse(types, Reg(), t)
      modifies `cache
      ensures Valid() && cache == old(cache)[t := LStruct(t)]
      ensures forall u :: u in types ==> MayRecurse(types, Reg(), u) == old(MayRecurse(types, Reg(), u))
    {
      hide Sound;
      hide WellFormed;
      hide Shape;
      PlaceholderRight(t);
      StillSound(target, types, Reg(), t, LStruct(t));
      cache := cache[t := LStruct(t)];
    }

    /** Converts every member of a component. */
    method ConvertMembers(scc: seq<Id>)
      requires Valid() && sccInProgress == None && InProgress(types, Reg(), scc)
      modifies this
      ensures Valid() && sccInProgress == None && types == old(types)
      ensures Advanced(types, old(Reg()), Reg(), scc, |types| + 1)
      ensures forall t :: t in scc ==> !MayRecurse(types, Reg(), t)
      ensures forall t :: LonePointer(types, scc, t) && t in scc && old(MayRecurse(types, Reg(), t)) ==>
                Precise(types, cache, t)
    {
      hide WellFormed;
      hide Sound;
      hide InProgress;
      hide Advanced;
      hide Precise;
      ghost var before := Reg();
      forall t | t in scc ensures t in types { Member(types, before, scc, t); }
      AdvancedSelf(types, before, scc, |types| + 1);
      sccInProgress := Some(scc);
      for i := 0 to |scc|
        invariant Valid() && sccInProgress == Some(scc) && types == old(types) && InProgress(types, Reg(), scc)
        invariant forall t :: t in scc ==> t in types
        invariant Advanced(types, before, Reg(), scc, |types| + 1)
        invariant forall j :: 0 <= j < i ==> !MayRecurse(types, Reg(), scc[j])
        invariant i == 0 ==> Reg() == before
        invariant i == 1 && LonePointer(types, scc, scc[0]) && MayRecurse(types, before, scc[0]) ==>
                    Precise(types, cache, scc[0])
      {
        ConvertMember(scc[i], before);
      }
      sccInProgress := None;
    }

    method ConvertMember(t: Id, ghost before: Registry)
      requires Valid() && sccInProgress.Some? && InProgress(types, Reg(), sccInProgress.value)
      requires t in sccInProgress.value && t in types
      requires Advanced(types, before, Reg(), sccInProgress.value, |types| + 1)
      modifies `cache, `bodies
      ensures Valid() && InProgress(types, Reg(), sccInProgress.value)
      ensures Advanced(types, before, Reg(), sccInProgress.value, |types| + 1)
      ensures !MayRecurse(types, Reg(), t)
      ensures forall u :: u in types && MayRecurse(types, Reg(), u) ==> old(MayRecurse(types, Reg(), u))
      ensures old(MayRecurse(types, Reg(), t)) && LonePointer(types, sccInProgress.value, t) ==>
                Precise(types, cache, t)
    {
      hide Rank;
      hide Work;
      hide WellFormed;
      hide Sound;
      hide InProgress;
      hide Precise;
      ghost var now := Reg();
      WorkBound(types, now, t);
      var _ := ConvertWithin(t);
      StillInProgress(types, now, Reg(), sccInProgress.value, Work(types, now, t));
      AdvancedTwice(types, before, now, Reg(), sccInProgress.value, |types| + 1, |types| + 1);
    }

    /** Points the pointers of a component to what their pointees were converted to. */
    method ReplacePointers(scc: seq<Id>)
      requires Valid() && Knit(types, scc) && |scc| > 1 && Distinct(scc)
      requires forall t :: t in scc ==> t in types && Complicated(types, t) && !MayRecurse(types, Reg(), t)
      modifies `cache
      ensures Valid() && forall t :: t in types ==> MayRecurse(types, Reg(), t) == old(MayRecurse(types, Reg(), t))
      ensures cache.Keys == old(cache).Keys
      ensures forall t :: t in cache && (t !in scc || !types[t].Pointer?) ==> cache[t] == old(cache)[t]
      ensures Redirected(types, scc, |scc|, old(cache), cache)
      ensures AllPrecise(types, cache, set t | t in scc)
    {
      hide Rank;
      hide WellFormed;
      hide Sound;
      hide MayRecurse;
      hide Redirected;
      hide PointsWell;
      hide Knit;
      hide Complicated;
      ghost var before := cache;
      PointersCached();
      assert Redirected(types, scc, 0, before, cache) by { NothingRedirected(types, scc, before); }
      for i := 0 to |scc|
        invariant Valid() && forall t :: t in types ==> MayRecurse(types, Reg(), t) == old(MayRecurse(types, Reg(), t))
        invariant cache.Keys == before.Keys
        invariant forall t :: t in cache && (t !in scc[..i] || !types[t].Pointer?) ==> cache[t] == before[t]
        invariant Redirected(types, scc, i, before, cache)
      {
        RedirectPointer(scc, i, before);
      }
      assert scc[..|scc|] == scc;
      forall t | t in scc && types[t].Pointer? && types[t].pointee in types ensures PointsWell(types, cache, t) {
        KnitPointee(types, scc, t);
        RedirectedWell(scc, t, before);
      }
    }

    lemma PointersCached()
      requires Valid()
      ensures forall u :: u in cache ==> u in types && (types[u].Pointer? ==> cache[u].LPointer?)
    {
      hide Sound;
      hide WellFormed;
      forall u | u in cache ensures u in types && (types[u].Pointer? ==> cache[u].LPointer?) { CachedShape(u); }
    }

    method RedirectPointer(scc: seq<Id>, i: nat, ghost before: map<Id, LlvmType>)
      requires Valid() && Knit(types, scc) && |scc| > 1 && Distinct(scc) && i < |scc|
      requires forall t :: t in scc ==> t in types && Complicated(types, t) && !MayRecurse(types, Reg(), t)
      requires cache.Keys == before.Keys && Redirected(types, scc, i, before, cache)
      requires forall t :: t in cache && (t !in scc[..i] || !types[t].Pointer?) ==> cache[t] == before[t]
      modifies `cache
      ensures Valid() && forall t :: t in types ==> MayRecurse(types, Reg(), t) == old(MayRecurse(types, Reg(), t))
      ensures cache.Keys == before.Keys && Redirected(types, scc, i + 1, before, cache)
      ensures forall t :: t in cache && (t !in scc[..i + 1] || !types[t].Pointer?) ==> cache[t] == before[t]
    {
      hide Shape;
      hide Rank;
      hide WellFormed;
      hide Sound;
      hide Sized;
      hide Redirected;
      hide Knit;
      hide Complicated;
      hide MayRecurse;
      var t := scc[i];
      assert scc[..i + 1] == scc[..i] + [t];
      if types[t].Pointer? {
        var pointee := types[t].pointee;
        KnitPointee(types, scc, t);
        Registered(pointee);
        Registered(t);
        IsComplicated(types, t);
        TargetValid();
        CachedShape(pointee);
        PointerShape(types, cache[pointee], t);
        ghost var now := cache;
        PointerSized(target, types, LPointer(cache[pointee]), t);
        var _ := RememberTypeConversion(t, LPointer(cache[pointee]));
        RedirectedNext(types, scc, i, before, now, cache);
      } else {
        RedirectedPast(types, scc, i, before, cache);
      }
    }

    /** After that every pointer points well. */
    lemma RedirectedWell(scc: seq<Id>, t: Id, before: map<Id, LlvmType>)
      requires Valid() && Redirected(types, scc, |scc|, before, cache) && t in scc && t in types && types[t].Pointer?
      requires types[t].pointee in types && !types[types[t].pointee].Void?
      requires forall u :: u in cache && (u !in scc || !types[u].Pointer?) ==> u in before && cache[u] == before[u]
      requires forall u :: u in before ==> u in types && (types[u].Pointer? ==> before[u].LPointer?)
      ensures PointsWell(types, cache, t)
    {
      hide Sound;
      hide WellFormed;
      PointersCached();
      var i :| 0 <= i < |scc| && scc[i] == t;
    }

    /** A pointer that was converted by itself points well. */
    lemma LoneWell(t: Id)
      requires Valid() && Precise(types, cache, t)
      ensures PointsWell(types, cache, t)
    {
      hide Sound;
      hide WellFormed;
      PointersCached();
    }

    method ConvertComponent(scc: seq<Id>)
      requires Valid() && sccInProgress == None && forall t :: t in scc ==> t in types && MayRecurse(types, Reg(), t)
      requires Confined(types, Reg(), scc) && Knit(types, scc) && Distinct(scc)
      modifies this
      ensures Valid() && sccInProgress == None && types == old(types)
      ensures forall t :: t in types ==> MayRecurse(types, Reg(), t) == (old(MayRecurse(types, Reg(), t)) && t !in scc)
      ensures forall t :: t in old(cache) ==> t in cache && (t !in scc ==> cache[t] == old(cache)[t])
      ensures AllPrecise(types, cache, set t | t in scc)
    {
      hide Rank;
      hide WellFormed;
      hide Sound;
      PlacePlaceholders(scc);
      ConvertMembers(scc);
      if |scc| > 1 {
        ReplacePointers(scc);
      } else {
        forall t | t in scc && types[t].Pointer? && types[t].pointee in types ensures PointsWell(types, cache, t) {
          if types[t].pointee != t { LoneWell(t); }
        }
      }
    }

    /** Converts a type.  The components are those that a search from the type finds,
        bottom up. */
    method ConvertType(t: Id, components: seq<seq<Id>>) returns (l: LlvmType)
      requires Valid() && t in types && sccInProgress == None
      requires MayRecurse(types, Reg(), t) ==>
                 BottomUp(RecursiveGraph(types, Reg()), Reached(types, Reg(), t), components)
      modifies this
      ensures Valid() && sccInProgress == None && types == old(types)
      ensures t in cache && l == cache[t] && Shape(types, l, t) && Sized(target, types, l, t)
      ensures forall u :: u in types ==>
                MayRecurse(types, Reg(), u) ==
                (old(MayRecurse(types, Reg(), u)) && u !in old(ToConvert(types, Reg(), t)))
      ensures forall u :: u in old(cache) ==>
                u in cache && (u !in old(ToConvert(types, Reg(), t)) ==> cache[u] == old(cache)[u])
      ensures AllPrecise(types, cache, old(ToConvert(types, Reg(), t)))
      ensures AllDoneFor(types, Reg(), t) <==> old(AllToConvert(types, Reg(), t))
      ensures old(Settled(types, Reg())) ==>
                Settled(types, Reg())
                && forall u :: Reach(ContainedGraph(types), t, u) ==> u in types && !MayRecurse(types, Reg(), u)
    {
      hide Rank;
      hide WellFormed;
      hide Sound;
      hide RecursiveGraph;
      hide BottomUp;
      hide Precise;
      ghost var g, start := types, Reg();
      if !MayRecurse(types, Reg(), t) {
        l := ConvertTypeNonRecursive(t);
        AllReachable(g, start, Reg(), t);
        ExactlyReached(g, start, Reg(), t);
        return;
      }
      ghost var done: set<Id> := {};
      var i := 0;
      while i < |components|
        invariant 0 <= i <= |components| && Valid() && sccInProgress == None && types == g
        invariant done == Before(components, i)
        invariant forall u :: u in types ==> MayRecurse(types, Reg(), u) == (MayRecurse(g, start, u) && u !in done)
        invariant forall u :: u in start.cache ==> u in cache && (u !in done ==> cache[u] == start.cache[u])
        invariant AllPrecise(types, cache, done)
        decreases |components| - i
      {
        ghost var now := Reg();
        ComponentReady(g, start, t, components, i, now);
        ConvertComponent(components[i]);
        done := Before(components, i + 1);
        StillAllPrecise(g, start, t, components, i, now.cache, cache);
        i := i + 1;
      }
      AllDone(g, start, t, components);
      AllReachable(g, start, Reg(), t);
      ExactlyReached(g, start, Reg(), t);
      Registered(t);
      CachedShape(t);
      l := cache[t];
    }

    /** A record type is completed after the fact. */
    method CompleteRecord(t: Id, record: Kind)
      requires Valid() && t in types && types[t].Record? && !types[t].complete
      requires record.Record? && record.complete && WellFormed(types[t := record])
      modifies `types
      ensures Valid() && types == old(types)[t := record]
      ensures MayRecurse(types, Reg(), t)
    {
      assert t !in bodies;
      SoundStays(target, types, Reg(), t, record);
      types := types[t := record];
    }

    /** An integer type whose LLVM integer has the right size and alignment is that. */
    lemma IntegerConverted(t: Id)
      requires Valid() && t in cache && t in types && types[t].Simple? && types[t].integer
      ensures target.Valid()
      ensures var e := types[t].extent;
              var whole := 8 * AllocBytes(target.dl, IntTy(e.size)) == e.size;
              var loose := 8 * AbiAlign(target.dl, IntTy(e.size)) <= e.align;
              && (whole && loose ==> cache[t] == LData(IntTy(e.size)))
              && (!whole || !loose ==> cache[t] == LData(UnitTy(e.size / 8)))
    {
      CachedShape(t);
    }

    /** A complex number is the pair of what its parts were converted to, if that fits. */
    lemma ComplexConverted(t: Id)
      requires Valid() && t in cache && t in types && types[t].Complex? && types[t].elem in cache
      ensures target.Valid() && PairConverted(target, cache[t], cache[types[t].elem], types[t].extent)
    {
      hide PairConverted;
      ElementSimple(types, t);
      CachedShape(t);
      CachedShape(types[t].elem);
    }

    /** A vector of simple types is the vector of what they were converted to, if that
        fits. */
    lemma VectorConvertedRight(t: Id)
      requires Valid() && t in cache && t in types && types[t].Vector? && types[t].elem in cache
      requires types[t].elem in types && types[types[t].elem].Simple?
      ensures target.Valid() &&
              VectorConverted(target, cache[t], cache[types[t].elem], types[t].count, types[t].extent)
    {
      hide VectorConverted;
      CachedShape(t);
      CachedShape(types[t].elem);
    }

    lemma Registered(t: Id)
      requires Valid() && t in types && Complicated(types, t) && !MayRecurse(types, Reg(), t)
      ensures t in cache
    {}
  }

  /** The types that a search from a type visits. */
  ghost function Reached(g: Types, r: Registry, t: Id): set<Id> {
    set u | u in g && Reach(RecursiveGraph(g, r), t, u)
  }

  ghost function ToConvert(g: Types, r: Registry, t: Id): set<Id>
    requires t in g
  {
    if MayRecurse(g, r, t) then Reached(g, r, t) else {}
  }

  /** The members of the first n components. */
  function Before(components: seq<seq<Id>>, n: nat): set<Id>
    requires n <= |components|
  {
    set i, u | 0 <= i < n && u in components[i] :: u
  }

  /** The elements of complex numbers, and of vectors that need no care, are simple. */
  lemma ElementSimple(g: Types, t: Id)
    requires WellFormed(g) && t in g && (g[t].Complex? || g[t].Vector?)
    ensures GoodKind(g[t]) && g[t].elem in g && (g[t].Complex? ==> g[g[t].elem].Simple?)
    ensures g[t].Vector? ==> g[g[t].elem].Simple? || g[g[t].elem].Pointer?
  {
    assert g[t].elem in Contained(g[t]);
  }

  /** An integer of the type's size; of other simple types only the measure matters. */
  function SimpleType(g: Types, t: Id): LlvmType
    requires t in g && g[t].Simple?
  {
    if g[t].integer then LData(IntTy(g[t].extent.size)) else LSimple(t)
  }

  /** What a type that cannot recurse is converted to, given its element's type. */
  function Obvious(tg: Target, g: Types, cache: map<Id, LlvmType>, t: Id): LlvmType
    requires tg.Valid() && t in g
  {
    match g[t]
    case Void => LVoid
    case IncompleteEnum => BYTE
    case Simple(_, extent) => Fitted(tg, SimpleType(g, t), extent)
    case Complex(elem, extent) => Fitted(tg, LPair(if elem in cache then cache[elem] else LVoid), extent)
    case Vector(elem, count, extent) => Fitted(tg, LVector(if elem in cache then cache[elem] else LVoid, count), extent)
    case _ => LStruct(t)
  }

  lemma FlatShape(tg: Target, g: Types, t: Id)
    requires tg.Valid() && t in g
    ensures g[t].Void? ==> Shape(g, LVoid, t) && Sized(tg, g, LVoid, t)
    ensures g[t].IncompleteEnum? ==> Shape(g, BYTE, t) && Sized(tg, g, BYTE, t)
    ensures g[t].Record? ==> Shape(g, LStruct(t), t) && Sized(tg, g, LStruct(t), t)
  {}

  lemma BytesFit(tg: Target, g: Types, t: Id, e: Extent)
    requires tg.Valid() && t in g && WellFormed(g)
    requires (g[t].Simple? || g[t].Complex? || g[t].Vector?) && e == g[t].extent
    ensures Fits(tg, LData(UnitTy(e.size / 8)), e)
  {
    assert GoodKind(g[t]);
    UnitTyLayout(tg.dl, e.size / 8);
  }

  lemma SimpleShape(tg: Target, g: Types, t: Id)
    requires tg.Valid() && t in g && WellFormed(g) && g[t].Simple?
    ensures var l := Fitted(tg, SimpleType(g, t), g[t].extent);
            Shape(g, l, t) && Sized(tg, g, l, t)
  {
    BytesFit(tg, g, t, g[t].extent);
  }

  lemma PairShape(tg: Target, g: Types, x: LlvmType, t: Id)
    requires tg.Valid() && t in g && WellFormed(g) && g[t].Complex?
    requires g[t].elem in g && g[g[t].elem].Simple? && Shape(g, x, g[t].elem) && SimplyConverted(tg, g, x, g[t].elem)
    ensures var l := Fitted(tg, LPair(x), g[t].extent);
            Shape(g, l, t) && Sized(tg, g, l, t)
  {
    hide SlotOf;
    BytesFit(tg, g, t, g[t].extent);
    PairSlot(tg, x);
    forall y | SimplyConverted(tg, g, y, g[t].elem) ensures y == x {}
  }

  lemma VectorOfSimple(tg: Target, g: Types, x: LlvmType, t: Id)
    requires tg.Valid() && t in g && WellFormed(g) && g[t].Vector?
    requires g[t].elem in g && g[g[t].elem].Simple? && Shape(g, x, g[t].elem) && SimplyConverted(tg, g, x, g[t].elem)
    ensures var l := Fitted(tg, LVector(x, g[t].count), g[t].extent);
            Shape(g, l, t) && Sized(tg, g, l, t)
  {
    BytesFit(tg, g, t, g[t].extent);
    forall y | SimplyConverted(tg, g, y, g[t].elem) ensures y == x {}
  }

  lemma SimpleIs(tg: Target, g: Types, l: LlvmType, t: Id)
    requires tg.Valid() && t in g && g[t].Simple? && Sized(tg, g, l, t)
    ensures SimplyConverted(tg, g, l, t)
  {}

  lemma RecordFacts(g: Types, t: Id)
    requires WellFormed(g) && t in g && g[t].Record?
    ensures GoodKind(g[t])
  {}

  lemma ArrayShape(tg: Target, g: Types, e: LlvmType, t: Id)
    requires tg.Valid() && t in g && g[t].Array? && Shape(g, e, g[t].elem)
    ensures var l := ArrayOf(tg, e, g[t].length, g[t].size, g[t].underaligned);
            Shape(g, l, t) && Sized(tg, g, l, t)
  {
    hide SlotOf;
    var a := LArray(e, Count(g[t].length));
    assert Core(a) == a && Core(LPacked(a)) == a;
    assert forall n :: Core(LPadded(a, n)) == a && Core(LPadded(LPacked(a), n)) == a;
  }

  lemma VectorShape(g: Types, l: LlvmType, t: Id)
    requires t in g && g[t].Vector? && Shape(g, l, g[t].elem)
    ensures Shape(g, LVector(l, g[t].count), t)
  {}

  /** The record has no size, so that it is converted to an opaque struct. */
  predicate Incomplete(g: Types, t: Id) {
    t in g && g[t].Record? && !g[t].complete
  }

  predicate AnyIncomplete(g: Types, ts: seq<Id>) {
    exists i :: 0 <= i < |ts| && Incomplete(g, ts[i])
  }

  lemma OpaqueIncomplete(tg: Target, g: Types, r: Registry, l: LlvmType, t: Id)
    requires Sound(tg, g, r) && Shape(g, l, t) && !MayRecurse(g, r, t)
    ensures l.LStruct? && l.record !in r.bodies <==> Incomplete(g, t)
  {}

  lemma FunctionShape(g: Types, ret: LlvmType, args: seq<LlvmType>, t: Id)
    requires t in g && g[t].Function? && Shape(g, ret, g[t].ret)
    requires args == [] || |args| == |g[t].args|
    requires forall i :: 0 <= i < |args| ==> Shape(g, args[i], g[t].args[i])
    ensures Shape(g, LFunction(ret, args), t)
  {}

  lemma PointerShape(g: Types, l: LlvmType, t: Id)
    requires t in g && g[t].Pointer?
    requires StandIn(g, l, g[t].pointee) || Shape(g, l, g[t].pointee)
    ensures Shape(g, LPointer(l), t)
  {}

  lemma VoidShape(g: Types, l: LlvmType, t: Id)
    requires Shape(g, l, t)
    ensures t in g && (l == LVoid <==> g[t].Void?)
  {}

  lemma RecordShape(g: Types, l: LlvmType, t: Id)
    requires t in g && g[t].Record? && Shape(g, l, t)
    ensures l == LStruct(t)
  {}

  lemma {:induction false} DrillOnce(g: Types, t: Id, n: nat)
    requires var d := Drilled(g, t, n); d in g && g[d].Array?
    ensures Drilled(g, t, n + 1) == g[Drilled(g, t, n)].elem
    decreases n
  {
    if n > 0 { DrillOnce(g, g[t].elem, n - 1); }
  }

  lemma KnitPointer(g: Types, component: seq<Id>, t: Id)
    requires t in g && g[t].Pointer? && t in component && Knit(g, component)
    ensures g[t].pointee in component <==> |component| != 1 || g[t].pointee == t
  {
    if |component| == 1 {
      assert component[0] == t;
    }
  }

  lemma Member(g: Types, r: Registry, component: seq<Id>, t: Id)
    requires InProgress(g, r, component) && t in component
    ensures t in g
  {}

  lemma WorkBound(g: Types, r: Registry, t: Id)
    requires WellFormed(g) && t in g
    ensures Work(g, r, t) <= |g| + 1
  {
    DirectClosed(g);
    SubsetSize(Down(DirectGraph(g), g.Keys, t), g.Keys);
    assert |g.Keys| == |g|;
  }

  lemma AllDone(g: Types, r: Registry, t: Id, components: seq<seq<Id>>)
    requires t in g && BottomUp(RecursiveGraph(g, r), Reached(g, r, t), components)
    ensures Before(components, |components|) == Reached(g, r, t) && t in Reached(g, r, t)
  {
    ReachSelf(RecursiveGraph(g, r), t);
    forall u | u in Reached(g, r, t) ensures u in Before(components, |components|) {
      var i :| At(components, i, u);
    }
    forall u | u in Before(components, |components|) ensures u in Reached(g, r, t) {
      var i :| 0 <= i < |components| && u in components[i];
      assert At(components, i, u);
    }
  }

  lemma KnitPointee(g: Types, scc: seq<Id>, t: Id)
    requires Knit(g, scc) && |scc| > 1 && t in scc && t in g && g[t].Pointer?
    requires forall u :: u in scc ==> u in g && Complicated(g, u)
    ensures g[t].pointee in scc && g[t].pointee in g && !g[g[t].pointee].Void?
  {}

  lemma IsComplicated(g: Types, t: Id)
    requires t in g && g[t].Pointer?
    ensures Complicated(g, t)
  {}

  lemma PointerSized(tg: Target, g: Types, l: LlvmType, t: Id)
    requires tg.Valid() && t in g && g[t].Pointer?
    ensures Sized(tg, g, l, t)
  {}

  lemma NothingRedirected(g: Types, scc: seq<Id>, before: map<Id, LlvmType>)
    ensures Redirected(g, scc, 0, before, before)
  {}

  lemma RedirectedPast(g: Types, scc: seq<Id>, i: nat, before: map<Id, LlvmType>, after: map<Id, LlvmType>)
    requires i < |scc| && Redirected(g, scc, i, before, after) && (scc[i] in g ==> !g[scc[i]].Pointer?)
    ensures Redirected(g, scc, i + 1, before, after)
  {}

  lemma RedirectedNext(g: Types, scc: seq<Id>, i: nat, before: map<Id, LlvmType>, now: map<Id, LlvmType>,
                       after: map<Id, LlvmType>)
    requires i < |scc| && Distinct(scc) && Redirected(g, scc, i, before, now) && scc[i] in g && g[scc[i]].Pointer?
    requires g[scc[i]].pointee in now && now.Keys == before.Keys
    requires after == now[scc[i] := LPointer(now[g[scc[i]].pointee])] && after.Keys == before.Keys
    requires forall t :: t in now && !(t in scc[..i] && t in g && g[t].Pointer?) ==> now[t] == before[t]
    ensures Redirected(g, scc, i + 1, before, after)
  {
    var t := scc[i];
    var pointee := g[t].pointee;
    assert t !in scc[..i];
    forall j | 0 <= j < i ensures scc[..j] <= scc[..i] && t !in scc[..j] {}
  }

  lemma StillPrecise(g: Types, before: map<Id, LlvmType>, after: map<Id, LlvmType>, component: seq<Id>, u: Id)
    requires Precise(g, before, u) && u !in component && g[u].pointee !in component
    requires forall k :: k in before ==> k in after && (k !in component ==> after[k] == before[k])
    ensures Precise(g, after, u)
  {}

  lemma StillAllPrecise(g: Types, r: Registry, t: Id, components: seq<seq<Id>>, i: nat,
                        before: map<Id, LlvmType>, after: map<Id, LlvmType>)
    requires t in g && MayRecurse(g, r, t) && BottomUp(RecursiveGraph(g, r), Reached(g, r, t), components)
    requires i < |components| && AllPrecise(g, before, Before(components, i))
    requires forall k :: k in before ==> k in after && (k !in components[i] ==> after[k] == before[k])
    requires AllPrecise(g, after, set u | u in components[i])
    ensures AllPrecise(g, after, Before(components, i + 1))
  {
    forall u | u in Before(components, i) && u in g && g[u].Pointer? && g[u].pointee in g
      ensures PointsWell(g, after, u)
    {
      ContainedBefore(g, r, t, components, i, u, g[u].pointee);
      if !g[g[u].pointee].Pointer? { StillPrecise(g, before, after, components[i], u); }
    }
  }

  /** Every type that the search visits may recurse. */
  lemma ReachedRecursive(g: Types, r: Registry, t: Id, u: Id)
    requires t in g && MayRecurse(g, r, t) && u in Reached(g, r, t)
    ensures MayRecurse(g, r, u)
  {
    var s := set v | v in g && MayRecurse(g, r, v);
    ClosedReach(RecursiveGraph(g, r), s, t, u);
  }

  lemma RecursiveEdge(g: Types, r: Registry, t: Id, a: Id, b: Id)
    requires t in g && a in Reached(g, r, t) && b in Contained(g[a]) && b in g && MayRecurse(g, r, b)
    ensures b in Reached(g, r, t) && Reach(RecursiveGraph(g, r), a, b)
  {
    ReachEdge(RecursiveGraph(g, r), a, b);
    ReachTransitive(RecursiveGraph(g, r), t, a, b);
  }

  /** What is in a component is in none before it. */
  lemma NotBefore(g: Types, r: Registry, t: Id, components: seq<seq<Id>>, i: nat, u: Id)
    requires BottomUp(RecursiveGraph(g, r), Reached(g, r, t), components) && i < |components| && u in components[i]
    ensures u !in Before(components, i)
  {
    if u in Before(components, i) {
      var j :| 0 <= j < i && u in components[j];
      ReachSelf(RecursiveGraph(g, r), u);
      assert At(components, j, u) && At(components, i, u);
    }
  }

  lemma ContainedBefore(g: Types, r: Registry, t: Id, components: seq<seq<Id>>, i: nat, u: Id, w: Id)
    requires t in g && MayRecurse(g, r, t) && BottomUp(RecursiveGraph(g, r), Reached(g, r, t), components)
    requires i < |components| && u in Before(components, i) && u in g && w in Contained(g[u])
    ensures u !in components[i] && w !in components[i]
  {
    var j :| 0 <= j < i && u in components[j];
    assert At(components, j, u);
    if u in components[i] { NotBefore(g, r, t, components, i, u); }
    if w in components[i] {
      assert At(components, i, w);
      ReachedRecursive(g, r, t, w);
      RecursiveEdge(g, r, t, u, w);
    }
  }

  /** When its turn comes, a component may be put in progress. */
  lemma ComponentReady(g: Types, r: Registry, t: Id, components: seq<seq<Id>>, i: nat, now: Registry)
    requires t in g && MayRecurse(g, r, t) && BottomUp(RecursiveGraph(g, r), Reached(g, r, t), components)
    requires i < |components|
    requires forall u :: u in g ==> MayRecurse(g, now, u) == (MayRecurse(g, r, u) && u !in Before(components, i))
    ensures forall u :: u in components[i] ==> u in g && MayRecurse(g, now, u)
    ensures Confined(g, now, components[i]) && Knit(g, components[i]) && Distinct(components[i])
  {
    forall u | u in components[i] ensures u in g && MayRecurse(g, now, u) {
      assert At(components, i, u);
      ReachedRecursive(g, r, t, u);
      NotBefore(g, r, t, components, i, u);
    }
    forall a, b | a in components[i] && a in g && b in Contained(g[a]) && b in g && MayRecurse(g, now, b)
      ensures b in components[i]
    {
      assert At(components, i, a);
      RecursiveEdge(g, r, t, a, b);
      var j :| At(components, j, b);
      assert b in components[j];
    }
    if |components[i]| > 1 {
      forall a | a in components[i] && (g[a].Pointer? || g[a].Array?)
        ensures (if g[a].Pointer? then g[a].pointee else g[a].elem) in components[i]
      {
        OnlyPart(g, r, t, components, i, a, if g[a].Pointer? then g[a].pointee else g[a].elem);
      }
    }
  }

  /** A type that contains a single type is in a larger component only with it. */
  lemma OnlyPart(g: Types, r: Registry, t: Id, components: seq<seq<Id>>, i: nat, a: Id, part: Id)
    requires t in g && BottomUp(RecursiveGraph(g, r), Reached(g, r, t), components) && i < |components|
    requires a in components[i] && a in g && Contained(g[a]) == {part} && |components[i]| > 1
    ensures part in components[i]
  {
    var graph := RecursiveGraph(g, r);
    var other := if components[i][0] == a then components[i][1] else components[i][0];
    assert At(components, i, a) && At(components, i, other);
    var c := FirstStep(graph, a, other);
    assert c == part;
    RecursiveEdge(g, r, t, a, c);
    var j :| At(components, j, c);
    assert j == i;
  }

  /** The comment in the program: a pointer and its pointee are both in the
      component iff it has several types or the pointer points to itself. */
  lemma BothInComponent(g: Types, r: Registry, t: Id, components: seq<seq<Id>>, i: nat, a: Id)
    requires t in g && BottomUp(RecursiveGraph(g, r), Reached(g, r, t), components) && i < |components|
    requires a in components[i] && a in g && g[a].Pointer?
    ensures g[a].pointee in components[i] <==> |components[i]| != 1 || g[a].pointee == a
  {
    if |components[i]| > 1 {
      OnlyPart(g, r, t, components, i, a, g[a].pointee);
    }
  }

  lemma OrderExists(g: Types, r: Registry, t: Id) returns (components: seq<seq<Id>>)
    ensures BottomUp(RecursiveGraph(g, r), Reached(g, r, t), components)
  {
    var graph := RecursiveGraph(g, r);
    forall a, b | a in Reached(g, r, t) && b in Succ(graph, a) ensures b in Reached(g, r, t) {
      ReachEdge(graph, a, b);
      ReachTransitive(graph, t, a, b);
    }
    components := BottomUpExists(graph, Reached(g, r, t));
  }

  // ---------- every reachable type ----------

  function ContainedGraph(g: Types): Graph {
    map t | t in g :: Contained(g[t])
  }

  /** No type that needs no care contains one that does. */
  ghost predicate Settled(g: Types, r: Registry) {
    forall a, b :: a in g && b in Contained(g[a]) && b in g && MayRecurse(g, r, b) ==> MayRecurse(g, r, a)
  }

  lemma NothingConverted(g: Types)
    requires WellFormed(g)
    ensures Settled(g, Registry(map[], map[]))
  {}

  lemma ContainedKnown(g: Types, t: Id)
    requires WellFormed(g) && t in g
    ensures Contained(g[t]) <= g.Keys
  {}

  lemma {:induction false} SettledPath(g: Types, r: Registry, a: Id, b: Id, steps: nat)
    requires WellFormed(g) && Settled(g, r) && a in g && ReachIn(ContainedGraph(g), a, b, steps)
    ensures b in g
    ensures MayRecurse(g, r, b) ==> MayRecurse(g, r, a) && b in Reached(g, r, a)
    decreases steps
  {
    hide WellFormed;
    hide Settled;
    hide MayRecurse;
    var graph := RecursiveGraph(g, r);
    if steps == 0 {
      ReachSelf(graph, a);
    } else {
      var c :| c in Succ(ContainedGraph(g), a) && ReachIn(ContainedGraph(g), c, b, steps - 1);
      ContainedKnown(g, a);
      SettledPath(g, r, c, b, steps - 1);
      SettledEdge(g, r, a, c);
      if MayRecurse(g, r, b) {
        ReachTransitive(graph, a, c, b);
      }
    }
  }

  lemma SettledEdge(g: Types, r: Registry, a: Id, c: Id)
    requires WellFormed(g) && Settled(g, r) && a in g && c in Succ(ContainedGraph(g), a)
    ensures MayRecurse(g, r, c) ==> MayRecurse(g, r, a) && c in Reached(g, r, a)
  {
    hide WellFormed;
    ContainedKnown(g, a);
    if MayRecurse(g, r, c) { ReachEdge(RecursiveGraph(g, r), a, c); }
  }

  /** If the registry is settled then converting a type leaves it settled and leaves
      nothing to be done for any type that can be reached. */
  lemma AllReachable(g: Types, r: Registry, s: Registry, t: Id)
    requires WellFormed(g) && t in g
    requires forall u :: u in g ==> MayRecurse(g, s, u) == (MayRecurse(g, r, u) && u !in ToConvert(g, r, t))
    ensures Settled(g, r) ==>
              Settled(g, s) && forall u :: Reach(ContainedGraph(g), t, u) ==> u in g && !MayRecurse(g, s, u)
  {
    hide WellFormed;
    if Settled(g, r) {
      forall u | Reach(ContainedGraph(g), t, u) ensures u in g && !MayRecurse(g, s, u) {
        var n: nat :| ReachIn(ContainedGraph(g), t, u, n);
        SettledPath(g, r, t, u, n);
      }
      forall a, b | a in g && b in Contained(g[a]) && b in g && MayRecurse(g, s, b) ensures MayRecurse(g, s, a) {
        if a in ToConvert(g, r, t) { RecursiveEdge(g, r, t, a, b); }
      }
    }
  }

  /** Nothing remains to be done for any type that can be reached. */
  ghost predicate AllDoneFor(g: Types, r: Registry, t: Id) {
    forall u :: u in g && Reach(ContainedGraph(g), t, u) ==> !MayRecurse(g, r, u)
  }

  /** All reachable types that may recurse are reached by way of such types. */
  ghost predicate AllToConvert(g: Types, r: Registry, t: Id)
    requires t in g
  {
    forall u :: u in g && Reach(ContainedGraph(g), t, u) && MayRecurse(g, r, u) ==> u in ToConvert(g, r, t)
  }

  lemma ExactlyReached(g: Types, r: Registry, s: Registry, t: Id)
    requires WellFormed(g) && t in g
    requires forall u :: u in g ==> MayRecurse(g, s, u) == (MayRecurse(g, r, u) && u !in ToConvert(g, r, t))
    ensures AllDoneFor(g, s, t) <==> AllToConvert(g, r, t)
  {
    hide WellFormed;
    if AllDoneFor(g, s, t) {
      forall u | u in g && Reach(ContainedGraph(g), t, u) && MayRecurse(g, r, u) ensures u in ToConvert(g, r, t) {
        assert !MayRecurse(g, s, u);
      }
    }
  }

  /** Completing a record keeps the registry settled iff whatever contains the record
      is still to be converted. */
  lemma CompletionSettled(tg: Target, g: Types, r: Registry, t: Id, record: Kind)
    requires WellFormed(g) && WellFormed(g[t := record]) && Sound(tg, g, r) && Settled(g, r)
    requires t in g && g[t].Record? && !g[t].complete && record.Record? && record.complete
    ensures var h := g[t := record];
            Settled(h, r) <==> forall a :: a in h && t in Contained(h[a]) ==> MayRecurse(h, r, a)
  {
    hide WellFormed;
    var h := g[t := record];
    assert t !in r.bodies && MayRecurse(h, r, t);
    assert forall a :: a in g && a != t ==> MayRecurse(h, r, a) == MayRecurse(g, r, a);
    if Settled(h, r) {
      forall a | a in h && t in Contained(h[a]) ensures MayRecurse(h, r, a) {}
    }
    if forall a :: a in h && t in Contained(h[a]) ==> MayRecurse(h, r, a) {
      forall a, b | a in h && b in Contained(h[a]) && b in h && MayRecurse(h, r, b) ensures MayRecurse(h, r, a) {
        if b != t && a != t { assert b in Contained(g[a]) && MayRecurse(g, r, b); }
      }
    }
  }

  /** A pointer converted while its record was incomplete is not converted again when
      the record is complete, so that the record, although reachable, is not either. */
  method CompletedLater(target: Target) returns (c: Converter)
    requires target.Valid()
    ensures c.Valid() && 0 in c.types && 1 in c.types && 0 in c.cache && Reach(ContainedGraph(c.types), 0, 1)
    ensures MayRecurse(c.types, c.Reg(), 1) && !Settled(c.types, c.Reg())
  {
    hide Sound;
    hide WellFormed;
    hide BottomUp;
    hide Settled;
    hide AllDoneFor;
    hide AllToConvert;
    hide AllPrecise;
    hide Contained;
    hide GoodKind;
    var early := map[0 := Pointer(1), 1 := Record(false, [], None, 64)];
    var complete := Record(true, [FieldDecl(0, true, 0, Some(64))], Some(64), 64);
    RecordsOfOneWord(early[1], complete);
    PointerAndRecord(early, early[1]);
    PointerAndRecord(early[1 := complete], complete);
    c := new Converter(target, early);
    PointerAlone(early, c.Reg());
    var _ := c.ConvertType(0, [[0]]);
    c.CompleteRecord(1, complete);
    // Once more does not help.
    var _ := c.ConvertType(0, []);
    RecordBehindPointer(c.types, c.Reg());
  }

  lemma RecordBehindPointer(g: Types, r: Registry)
    requires 0 in g && 1 in g && g[0] == Pointer(1) && 0 in r.cache && MayRecurse(g, r, 1)
    ensures Reach(ContainedGraph(g), 0, 1) && !Settled(g, r)
  {
    ReachEdge(ContainedGraph(g), 0, 1);
    assert 1 in Contained(g[0]) && !MayRecurse(g, r, 0);
  }

  lemma RecordsOfOneWord(incomplete: Kind, complete: Kind)
    requires incomplete == Record(false, [], None, 64)
    requires complete == Record(true, [FieldDecl(0, true, 0, Some(64))], Some(64), 64)
    ensures GoodKind(incomplete) && GoodKind(complete) && Contained(incomplete) == {} && Contained(complete) == {0}
  {
    assert Pow2(6) == 64;
  }

  lemma PointerAndRecord(g: Types, record: Kind)
    requires g == map[0 := Pointer(1), 1 := record] && record.Record? && GoodKind(record) && Contained(record) <= {0}
    ensures WellFormed(g)
  {
    var d := DirectGraph(g);
    forall a, b | b in Succ(d, a) ensures !Reach(d, b, a) {
      assert a == 1 && b == 0 && Closed(d, {0});
      if Reach(d, b, a) { ClosedReach(d, {0}, b, a); }
    }
  }

  lemma PointerAlone(g: Types, r: Registry)
    requires g.Keys == {0, 1} && g[0] == Pointer(1) && !MayRecurse(g, r, 1) && 0 !in r.cache
    requires 0 !in Contained(g[1])
    ensures BottomUp(RecursiveGraph(g, r), Reached(g, r, 0), [[0]])
  {
    var graph := RecursiveGraph(g, r);
    assert Closed(graph, {0});
    ReachSelf(graph, 0);
    forall u | Reach(graph, 0, u) ensures u == 0 { ClosedReach(graph, {0}, 0, u); }
    assert At([[0]], 0, 0);
  }

  lemma StillSound(tg: Target, g: Types, r: Registry, t: Id, l: LlvmType)
    requires Sound(tg, g, r) && t in g && Shape(g, l, t) && Sized(tg, g, l, t)
    ensures Sound(tg, g, r.(cache := r.cache[t := l]))
  {
    hide Embodies;
    hide Shape;
    hide Sized;
  }

  lemma SoundWithBody(tg: Target, g: Types, r: Registry, t: Id, body: Body)
    requires Sound(tg, g, r) && t in r.cache && t in g && g[t].Record? && g[t].complete && Embodies(tg, g, t, body)
    ensures Sound(tg, g, r.(bodies := r.bodies[t := body]))
  {
    hide Embodies;
    hide Shape;
    hide Sized;
  }

  lemma SoundStays(tg: Target, g: Types, r: Registry, t: Id, record: Kind)
    requires Sound(tg, g, r) && t in g && g[t].Record? && t !in r.bodies && record.Record?
    ensures Sound(tg, g[t := record], r)
  {
    hide Embodies;
    hide Shape;
    var h := g[t := record];
    forall u | u in r.cache ensures Shape(h, r.cache[u], u) { ShapeStays(g, h, r.cache[u], u); }
    forall u | u in r.bodies ensures Embodies(tg, h, u, r.bodies[u]) { BodyStays(tg, g, h, u, r.bodies[u]); }
  }

  lemma BodyStays(tg: Target, g: Types, h: Types, t: Id, body: Body)
    requires forall u :: u in g ==> u in h && (h[u] == g[u] || (g[u].Record? && h[u].Record?))
    requires t in g && h[t] == g[t] && g[t].Record? && Embodies(tg, g, t, body)
    ensures Embodies(tg, h, t, body)
  {
    hide Shape;
    hide RecordTypes.Struct;
    var parts, elts, layout, at :| EmbodiesBy(tg, g, t, body, parts, elts, layout, at);
    var fields := Compatible(g[t].fields);
    forall i | 0 <= i < |fields| ensures Shape(h, parts[i], fields[i].ty) {
      ShapeStays(g, h, parts[i], fields[i].ty);
    }
    assert EmbodiesBy(tg, h, t, body, parts, elts, layout, at);
  }

  lemma {:induction false} DrilledStays(g: Types, h: Types, t: Id, fuel: nat)
    requires forall u :: u in g ==> u in h && (h[u] == g[u] || (g[u].Record? && h[u].Record?))
    requires Drilled(g, t, fuel) in g
    ensures Drilled(h, t, fuel) == Drilled(g, t, fuel)
    decreases fuel
  {
    if fuel > 0 && t in g && g[t].Array? {
      DrilledStays(g, h, g[t].elem, fuel - 1);
    }
  }

  lemma {:induction false} ShapeStays(g: Types, h: Types, l: LlvmType, t: Id)
    requires forall u :: u in g ==> u in h && (h[u] == g[u] || (g[u].Record? && h[u].Record?))
    requires Shape(g, l, t)
    ensures Shape(h, l, t)
    decreases l
  {
    match g[t]
    case Void =>
    case IncompleteEnum =>
    case Simple(_, _) =>
    case Complex(elem, _) => if !l.LData? { ShapeStays(g, h, l.elem, elem); }
    case Vector(elem, _, _) => if !l.LData? { ShapeStays(g, h, l.elem, elem); }
    case Array(elem, _, _, _) => ShapeStays(g, h, Core(l).elem, elem);
    case Function(ret, args) =>
      ShapeStays(g, h, l.ret, ret);
      forall i | 0 <= i < |l.args| && i < |args| ensures Shape(h, l.args[i], args[i]) {
        ShapeStays(g, h, l.args[i], args[i]);
      }
    case Pointer(pointee) =>
      if Shape(g, l.pointee, pointee) {
        ShapeStays(g, h, l.pointee, pointee);
      } else if n: nat :| Placeholder(g, l.pointee, pointee, n) {
        DrilledStays(g, h, pointee, n);
        assert Placeholder(h, l.pointee, pointee, n);
      }
    case Record(_, _, _, _) =>
  }
}
