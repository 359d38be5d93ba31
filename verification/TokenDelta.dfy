/** Delta debugging: shrinking a list of changes to one that still passes a test and
    from which nothing more can be removed. */
module TokenDelta {
  import opened Options
  import opened Seqs

  datatype Result<T> = Ok(value: T) | InitialTestFails

  // ---------- lists without repetitions ----------

  function Elems<T(==,!new)>(s: seq<T>): set<T> {
    set x | x in s
  }

  /** The elements of s that belong to a set, in their order. */
  function Pick<T(==,!new)>(s: seq<T>, keep: set<T>): (r: seq<T>)
    ensures |r| <= |s| && forall x :: x in r <==> x in s && x in keep
  {
    if s == [] then [] else (if s[0] in keep then [s[0]] else []) + Pick(s[1..], keep)
  }

  /** The list x is part of u, in the same order. */
  ghost predicate Sub<T(!new)>(x: seq<T>, u: seq<T>) {
    x == Pick(u, Elems(x))
  }

  lemma {:induction false} PickSplit<T(!new)>(a: seq<T>, b: seq<T>, keep: set<T>)
    ensures Pick(a + b, keep) == Pick(a, keep) + Pick(b, keep)
  {
    if a == [] {
      assert a + b == b;
    } else {
      assert (a + b)[1..] == a[1..] + b;
      PickSplit(a[1..], b, keep);
    }
  }

  lemma {:induction false} PickAll<T(!new)>(a: seq<T>, keep: set<T>)
    requires forall x :: x in a ==> x in keep
    ensures Pick(a, keep) == a
  {
    if a != [] { PickAll(a[1..], keep); }
  }

  lemma {:induction false} PickNone<T(!new)>(a: seq<T>, keep: set<T>)
    requires forall x :: x in a ==> x !in keep
    ensures Pick(a, keep) == []
  {
    if a != [] { PickNone(a[1..], keep); }
  }

  lemma {:induction false} PickTwice<T(!new)>(u: seq<T>, s: set<T>, t: set<T>)
    ensures Pick(Pick(u, s), t) == Pick(u, s * t)
  {
    if u != [] {
      PickTwice(u[1..], s, t);
      var rest := Pick(u[1..], s);
      assert [] + rest == rest && ([u[0]] + rest)[1..] == rest;
    }
  }

  lemma SubTransitive<T(!new)>(x: seq<T>, y: seq<T>, u: seq<T>)
    requires Sub(x, y) && Sub(y, u)
    ensures Sub(x, u)
  {
    PickTwice(u, Elems(y), Elems(x));
    assert Elems(x) <= Elems(y);
    assert Elems(y) * Elems(x) == Elems(x);
  }

  lemma {:induction false} PickUnique<T(!new)>(u: seq<T>, keep: set<T>)
    requires Unique(u)
    ensures Unique(Pick(u, keep))
  {
    if u != [] {
      PickUnique(u[1..], keep);
      var rest := Pick(u[1..], keep);
      assert u[0] !in u[1..] && u[0] !in rest;
      assert Unique([u[0]] + rest);
      assert [] + rest == rest;
    }
  }

  lemma {:induction false} Disjoint<T(!new)>(a: seq<T>, b: seq<T>)
    requires Unique(a + b)
    ensures Unique(a) && Unique(b) && forall x :: x in a ==> x !in b
  {
    var c := a + b;
    forall i, j | 0 <= i < |a| && 0 <= j < |b| ensures a[i] != b[j] {
      assert c[i] == a[i] && c[|a| + j] == b[j];
    }
    assert forall i :: 0 <= i < |a| ==> a[i] == c[i];
    assert forall i :: 0 <= i < |b| ==> b[i] == c[|a| + i];
  }

  lemma {:induction false} PickParts<T(!new)>(a: seq<T>, m: seq<T>, b: seq<T>, keep: set<T>)
    ensures Pick(a + m + b, keep) == Pick(a, keep) + Pick(m, keep) + Pick(b, keep)
  {
    PickSplit(a + m, b, keep);
    PickSplit(a, m, keep);
  }

  lemma {:induction false} PickEnds<T(!new)>(a: seq<T>, m: seq<T>, b: seq<T>)
    requires (forall x :: x in m ==> x !in a && x !in b)
    ensures Sub(a + b, a + m + b)
  {
    hide Pick;
    PickParts(a, m, b, Elems(a + b));
    PickAll(a, Elems(a + b));
    PickNone(m, Elems(a + b));
    PickAll(b, Elems(a + b));
    assert a + [] == a;
  }

  lemma {:induction false} PickMiddle<T(!new)>(a: seq<T>, m: seq<T>, b: seq<T>)
    requires (forall x :: x in m ==> x !in a && x !in b)
    ensures Sub(m, a + m + b)
  {
    hide Pick;
    PickParts(a, m, b, Elems(m));
    PickNone(a, Elems(m));
    PickAll(m, Elems(m));
    PickNone(b, Elems(m));
    assert [] + m + [] == m;
  }

  /** A list without its middle part is part of the list. */
  lemma {:induction false} WithoutMiddle<T(!new)>(a: seq<T>, m: seq<T>, b: seq<T>)
    requires Unique(a + m + b)
    ensures Sub(a + b, a + m + b) && Sub(m, a + m + b)
  {
    Disjoint(a + m, b);
    Disjoint(a, m);
    PickEnds(a, m, b);
    PickMiddle(a, m, b);
  }

  lemma SubSelf<T(!new)>(a: seq<T>)
    ensures Sub(a, a)
  {
    PickAll(a, Elems(a));
  }

  // ---------- pieces ----------

  function Flatten<T(!new)>(sets: seq<seq<T>>): (s: seq<T>)
    ensures |sets| == 1 ==> s == sets[0]
  {
    if sets == [] then [] else sets[0] + Flatten(sets[1..])
  }

  lemma {:induction false} FlattenSplit<T(!new)>(a: seq<seq<T>>, b: seq<seq<T>>)
    ensures Flatten(a + b) == Flatten(a) + Flatten(b)
  {
    if a == [] {
      assert a + b == b;
    } else {
      assert (a + b)[1..] == a[1..] + b;
      FlattenSplit(a[1..], b);
    }
  }

  lemma {:induction false} FlattenAt<T(!new)>(sets: seq<seq<T>>, i: nat)
    requires i < |sets|
    ensures Flatten(sets) == Flatten(sets[..i]) + sets[i] + Flatten(sets[i + 1..])
    ensures Flatten(sets[..i] + sets[i + 1..]) == Flatten(sets[..i]) + Flatten(sets[i + 1..])
  {
    assert sets == sets[..i] + ([sets[i]] + sets[i + 1..]);
    FlattenSplit(sets[..i], [sets[i]] + sets[i + 1..]);
    assert ([sets[i]] + sets[i + 1..])[1..] == sets[i + 1..];
    FlattenSplit(sets[..i], sets[i + 1..]);
  }

  lemma {:induction false} FlattenSize<T(!new)>(sets: seq<seq<T>>)
    requires forall i :: 0 <= i < |sets| ==> sets[i] != []
    ensures |sets| <= |Flatten(sets)|
  {
    if sets != [] { FlattenSize(sets[1..]); }
  }

  /** The pieces of the changes: at least two, none empty, unless there is too little
      to divide. */
  ghost predicate Partition<T(!new)>(c: seq<T>, sets: seq<seq<T>>) {
    && Flatten(sets) == c && |sets| >= 1
    && (|sets| == 1 ==> |c| <= 1)
    && (|sets| > 1 ==> forall i :: 0 <= i < |sets| ==> sets[i] != [])
  }

  // ---------- results ----------

  /** Removing any single element makes the test fail. */
  ghost predicate OneMinimal<T(!new)>(test: seq<T> -> bool, c: seq<T>) {
    forall k :: 0 <= k < |c| ==> !test(RemoveAt(c, k))
  }

  lemma {:induction false} PickedOneLess<T(!new)>(c: seq<T>, keep: set<T>)
    requires |Pick(c, keep)| >= |c| - 1
    ensures |Pick(c, keep)| == |c| ==> Pick(c, keep) == c
    ensures |Pick(c, keep)| == |c| - 1 ==> exists k :: 0 <= k < |c| && Pick(c, keep) == RemoveAt(c, k)
  {
    hide Pick;
    PickStep(c, keep);
    if c != [] {
      var rest := c[1..];
      PickedOneLess(rest, keep);
      if c[0] in keep {
        forall k | 0 <= k < |rest| ensures [c[0]] + RemoveAt(rest, k) == RemoveAt(c, k + 1) {
          RemoveLater(c, k);
        }
      }
    }
  }

  lemma PickStep<T(!new)>(c: seq<T>, keep: set<T>)
    ensures c == [] ==> Pick(c, keep) == []
    ensures c != [] ==> c == [c[0]] + c[1..] && c[1..] == RemoveAt(c, 0)
    ensures c != [] ==> Pick(c, keep) == if c[0] in keep then [c[0]] + Pick(c[1..], keep) else Pick(c[1..], keep)
    ensures |Pick(c, keep)| <= |c|
  {}

  lemma RemoveLater<T>(c: seq<T>, k: nat)
    requires k + 1 < |c|
    ensures [c[0]] + RemoveAt(c[1..], k) == RemoveAt(c, k + 1)
  {}

  /** In other words: no sublist with one element less passes. */
  lemma MinimalMeans<T(!new)>(test: seq<T> -> bool, c: seq<T>)
    requires Unique(c)
    ensures OneMinimal(test, c) <==> forall x :: Sub(x, c) && |x| == |c| - 1 ==> !test(x)
  {
    forall x | OneMinimal(test, c) && Sub(x, c) && |x| == |c| - 1 ensures !test(x) {
      PickedOneLess(c, Elems(x));
    }
    forall k | 0 <= k < |c| ensures Sub(RemoveAt(c, k), c) && |RemoveAt(c, k)| == |c| - 1 {
      assert c == c[..k] + [c[k]] + c[k + 1..];
      WithoutMiddle(c[..k], [c[k]], c[k + 1..]);
    }
  }

  /** Every piece fails, and so does everything but one piece. */
  ghost predicate Exhausted<T(!new)>(test: seq<T> -> bool, sets: seq<seq<T>>) {
    && (forall i :: 0 <= i < |sets| ==> !test(sets[i]))
    && (|sets| > 2 ==> forall i :: 0 <= i < |sets| ==> !test(Flatten(RemoveAt(sets, i))))
  }

  lemma {:induction false} Singletons<T(!new)>(sets: seq<seq<T>>)
    requires forall i :: 0 <= i < |sets| ==> |sets[i]| == 1
    ensures |Flatten(sets)| == |sets| && forall i :: 0 <= i < |sets| ==> sets[i] == [Flatten(sets)[i]]
  {
    if sets != [] {
      Singletons(sets[1..]);
      forall i | 0 <= i < |sets| ensures sets[i] == [Flatten(sets)[i]] {
        if i > 0 { assert sets[i] == sets[1..][i - 1]; }
      }
    }
  }

  lemma MinimalWhenExhausted<T(!new)>(test: seq<T> -> bool, c: seq<T>, sets: seq<seq<T>>)
    requires Flatten(sets) == c && |sets| >= 2 && Exhausted(test, sets)
    requires forall i :: 0 <= i < |sets| ==> |sets[i]| == 1
    ensures OneMinimal(test, c)
  {
    Singletons(sets);
    forall k | 0 <= k < |c| ensures !test(RemoveAt(c, k)) {
      FlattenAt(sets, k);
      Singletons(sets[..k]);
      Singletons(sets[k + 1..]);
      assert Flatten(sets[..k]) == c[..k];
      assert Flatten(sets[k + 1..]) == c[k + 1..];
      if |sets| == 2 {
        assert RemoveAt(c, k) == sets[1 - k];
      } else {
        assert Flatten(RemoveAt(sets, k)) == RemoveAt(c, k);
      }
    }
  }

  class DeltaAlgorithm<T(==,!new)> {
    /** The outcome of the test, which is taken to be deterministic. */
    const test: seq<T> -> bool
    /** The sets of changes known to fail. */
    var cache: set<set<T>>
    /** All changes, in order. */
    ghost const universe: seq<T>

    /** Only failures are cached.  Whatever is tested keeps the order of all changes,
        so that its elements identify it. */
    ghost predicate Valid()
      reads this
    {
      Unique(universe) && forall x :: Sub(x, universe) && Elems(x) in cache ==> !test(x)
    }

    constructor (test: seq<T> -> bool, ghost universe: seq<T>)
      requires Unique(universe)
      ensures Valid() && this.test == test && this.universe == universe
    {
      this.test := test;
      cache := {};
      this.universe := universe;
    }

    method GetTestResult(changes: seq<T>) returns (passes: bool)
      requires Valid() && Sub(changes, universe)
      modifies this
      ensures Valid() && passes == test(changes)
    {
      var changeset := Elems(changes);
      if changeset in cache {
        return false;
      }
      if !test(changes) {
        cache := cache + {changeset};
        return false;
      }
      return true;
    }

    /** Fails if the initial test does, unless forced. */
    method Run(changes: seq<T>, force: bool) returns (r: Result<seq<T>>)
      requires Valid() && Sub(changes, universe)
      modifies this
      ensures Valid()
      ensures r.InitialTestFails? <==> !force && !test(changes)
      ensures r.Ok? ==> Sub(r.value, changes) && OneMinimal(test, r.value)
      ensures r.Ok? ==> test(r.value) || (force && !test(changes) && r.value == changes)
    {
      if !force {
        var passes := GetTestResult(changes);
        if !passes {
          return InitialTestFails;
        }
      }
      EmptySub(universe);
      EmptySub(changes);
      var passes := GetTestResult([]);
      if passes {
        return Ok([]);
      }
      PickUnique(universe, Elems(changes));
      var pieces := Split(changes);
      var c := Delta(changes, pieces);
      return Ok(c);
    }

    method Split(s: seq<T>) returns (pieces: seq<seq<T>>)
      ensures Partition(s, pieces) && |pieces| == if |s| >= 2 then 2 else 1
      ensures |s| >= 2 ==> |pieces[0]| == |s| / 2
    {
      var mid := |s| / 2;
      if mid == 0 {
        pieces := [s];
      } else {
        pieces := [s[..mid], s[mid..]];
        assert pieces[1..] == [s[mid..]];
      }
    }

    method Delta(c: seq<T>, sets: seq<seq<T>>) returns (r: seq<T>)
      requires Valid() && Sub(c, universe) && Unique(c) && Partition(c, sets) && !test([])
      modifies this
      ensures Valid() && Sub(r, c) && OneMinimal(test, r) && (test(r) || r == c)
      decreases |c|, |c| - |sets|, 1
    {
      SubSelf(c);
      // If there is nothing left we can remove, we are done.
      if |sets| <= 1 {
        assert forall k :: 0 <= k < |c| ==> RemoveAt(c, k) == [];
        return c;
      }
      var res := Search(c, sets);
      if res.Some? {
        return res.value;
      }
      var refined := Refine(sets);
      if |refined| == |sets| {
        MinimalWhenExhausted(test, c, sets);
        return c;
      }
      FlattenSize(refined);
      r := Delta(c, refined);
    }

    /** Splits every piece. */
    method Refine(sets: seq<seq<T>>) returns (refined: seq<seq<T>>)
      requires |sets| >= 2 && forall i :: 0 <= i < |sets| ==> sets[i] != []
      ensures Partition(Flatten(sets), refined) && |refined| >= |sets|
      ensures |refined| == |sets| ==> forall i :: 0 <= i < |sets| ==> |sets[i]| == 1
    {
      refined := [];
      assert sets[..0] == [];
      for i := 0 to |sets|
        invariant Flatten(refined) == Flatten(sets[..i]) && |refined| >= i
        invariant forall j :: 0 <= j < |refined| ==> refined[j] != []
        invariant |refined| == i ==> forall j :: 0 <= j < i ==> |sets[j]| == 1
      {
        var pieces := Split(sets[i]);
        FlattenSplit(refined, pieces);
        assert sets[..i + 1] == sets[..i] + [sets[i]];
        FlattenSplit(sets[..i], [sets[i]]);
        refined := refined + pieces;
      }
      assert sets[..|sets|] == sets;
    }

    /** Looks for a part of the changes that passes, and goes on from there. */
    method Search(c: seq<T>, sets: seq<seq<T>>) returns (res: Option<seq<T>>)
      requires Valid() && Sub(c, universe) && Unique(c) && Partition(c, sets) && |sets| >= 2 && !test([])
      modifies this
      ensures Valid()
      ensures res.Some? ==> Sub(res.value, c) && OneMinimal(test, res.value) && test(res.value)
      ensures res.None? ==> Exhausted(test, sets)
      decreases |c|, |c| - |sets|, 0
    {
      hide OneMinimal;
      hide Sub;
      hide Unique;
      hide Valid;
      for i := 0 to |sets|
        invariant Valid()
        invariant forall j :: 0 <= j < i ==> !test(sets[j])
        invariant |sets| > 2 ==> forall j :: 0 <= j < i ==> !test(Flatten(RemoveAt(sets, j)))
      {
        var s := sets[i];
        Pieces(c, sets, i);
        // If the test passes on this piece alone, recurse.
        var passes := GetTestResult(s);
        if passes {
          var pieces := Split(s);
          var r := GoOn(c, s, pieces);
          return Some(r);
        }
        // Otherwise, if there are more than two, see if it passes without this piece.
        if |sets| > 2 {
          var complement := Flatten(sets[..i] + sets[i + 1..]);
          passes := GetTestResult(complement);
          if passes {
            var r := GoOn(c, complement, sets[..i] + sets[i + 1..]);
            return Some(r);
          }
        }
      }
      return None;
    }

    /** Goes on from a smaller part of the changes that passes. */
    method GoOn(ghost c: seq<T>, part: seq<T>, pieces: seq<seq<T>>) returns (r: seq<T>)
      requires Valid() && Sub(part, universe) && Unique(part) && Partition(part, pieces) && !test([])
      requires Sub(part, c) && test(part)
      modifies this
      ensures Valid() && Sub(r, c) && OneMinimal(test, r) && test(r)
      decreases |part|, |part| - |pieces|, 2
    {
      hide OneMinimal;
      r := Delta(part, pieces);
      SubTransitive(r, part, c);
    }

    /** A piece and its complement are smaller parts of the changes. */
    lemma Pieces(c: seq<T>, sets: seq<seq<T>>, i: nat)
      requires Valid() && Sub(c, universe) && Unique(c) && Partition(c, sets) && |sets| >= 2 && i < |sets|
      ensures Sub(sets[i], c) && Sub(sets[i], universe) && Unique(sets[i]) && 0 < |sets[i]| < |c|
      ensures var rest := RemoveAt(sets, i);
              && Sub(Flatten(rest), c) && Sub(Flatten(rest), universe) && Unique(Flatten(rest))
              && |Flatten(rest)| < |c| && (|sets| > 2 ==> Partition(Flatten(rest), rest))
    {
      var rest := RemoveAt(sets, i);
      FlattenAt(sets, i);
      WithoutMiddle(Flatten(sets[..i]), sets[i], Flatten(sets[i + 1..]));
      SubTransitive(sets[i], c, universe);
      SubTransitive(Flatten(rest), c, universe);
      PickUnique(c, Elems(sets[i]));
      PickUnique(c, Elems(Flatten(rest)));
      FlattenSize(rest);
    }
  }

  lemma EmptySub<T(!new)>(u: seq<T>)
    ensures Sub([], u)
  {
    var none: seq<T> := [];
    PickNone(u, Elems(none));
  }
}
