/** Sorted lists of disjoint, non-empty intervals of bits, each carrying some
    contents. */
module IntervalLists {
  import opened Options
  import opened Arith
  import opened Ranges

  datatype Interval<T> = Interval(range: Range, contents: T)

  ghost predicate Sane<T>(s: seq<Interval<T>>) {
    && (forall i :: 0 <= i < |s| ==> 0 <= s[i].range.first < s[i].range.last)
    && (forall i, j :: 0 <= i < j < |s| ==> s[i].range.last <= s[j].range.first)
  }

  ghost predicate Covered<T>(s: seq<Interval<T>>, p: int) {
    exists i :: 0 <= i < |s| && s[i].range.Has(p)
  }

  /** The contents of the interval that position p belongs to. */
  ghost function At<T>(s: seq<Interval<T>>, p: int): (r: Option<T>)
    requires Sane(s)
    ensures r.Some? <==> Covered(s, p)
    ensures forall i :: 0 <= i < |s| && s[i].range.Has(p) ==> r == Some(s[i].contents)
  {
    if i :| 0 <= i < |s| && s[i].range.Has(p) then
      Some(s[i].contents)
    else None
  }

  function RoundDown(p: nat, unit: nat): (r: nat)
    requires unit >= 1
    ensures r <= p < r + unit && r % unit == 0
  {
    DivBounds(p, unit);
    DivUnique(p - p % unit, unit, p / unit, 0);
    p - p % unit
  }

  /** First multiple at or after p. */
  function RoundLastUp(p: nat, unit: nat): (r: nat)
    requires unit >= 1
    ensures p <= r < p + unit && r % unit == 0
  {
    var last := p + unit - 1;
    assert RoundDown(last, unit) == last - last % unit;
    last - last % unit
  }

  /** Rounding changes exactly the ranges that are not aligned. */
  lemma RoundedAligned(first: nat, last: nat, unit: nat)
    requires unit >= 1
    ensures first % unit == 0 <==> RoundDown(first, unit) == first
    ensures last % unit == 0 <==> RoundLastUp(last, unit) == last
  {
    if first % unit == 0 { CloseMultiples(RoundDown(first, unit), first, unit); }
    if last % unit == 0 { CloseMultiples(RoundLastUp(last, unit), last, unit); }
  }

  lemma RoundDownIs(p: nat, unit: nat, r: nat)
    requires unit >= 1 && r % unit == 0 && r <= p < r + unit
    ensures RoundDown(p, unit) == r
  {
    CloseMultiples(RoundDown(p, unit), r, unit);
  }

  ghost predicate Aligned(r: Range, unit: nat)
    requires unit >= 1
  {
    r.first % unit == 0 && r.last % unit == 0
  }

  /** Some position in the same aligned unit as p is covered. */
  ghost predicate Touched<T>(s: seq<Interval<T>>, unit: nat, p: nat)
    requires unit >= 1
  {
    exists q: nat :: Covered(s, q) && RoundDown(q, unit) == RoundDown(p, unit)
  }

  /** No other interval has a position in a unit in which y has one. */
  ghost predicate Lone<T(!new)>(s: seq<Interval<T>>, y: Interval<T>, unit: nat)
    requires unit >= 1
  {
    forall x, p: nat, q: nat :: x in s && x != y && x.range.Has(p) && y.range.Has(q) ==>
      RoundDown(p, unit) != RoundDown(q, unit)
  }

  /** The interval extended to the boundaries of its units. */
  function RoundedOut<T>(y: Interval<T>, unit: nat): Interval<T>
    requires unit >= 1 && 0 <= y.range.first && 0 <= y.range.last
  {
    Interval(Range(RoundDown(y.range.first, unit), RoundLastUp(y.range.last, unit)), y.contents)
  }

  /** Element k of s with the elements [i, next) replaced by mid: where it is from. */
  lemma SplicedFrom<T>(s: seq<T>, i: nat, next: nat, mid: seq<T>, k: nat)
    requires i <= next <= |s| && k < i + |mid| + |s| - next
    ensures var t := s[..i] + mid + s[next..];
            && |t| == i + |mid| + |s| - next
            && t[k] == if k < i then s[k] else if k < i + |mid| then mid[k - i] else s[k - (i + |mid|) + next]
  {}

  /** ... and where an element of s outside [i, next) goes. */
  lemma SplicedTo<T>(s: seq<T>, i: nat, next: nat, mid: seq<T>, k: nat)
    requires i <= next <= |s| && k < |s| && (k < i || k >= next)
    ensures var t := s[..i] + mid + s[next..];
            var k' := if k < i then k else k - next + i + |mid|;
            && |t| == i + |mid| + |s| - next
            && k' < |t| && t[k'] == s[k]
  {}

  /** A multiple above the start of a unit is at or above its end. */
  lemma NextMultiple(a: nat, b: nat, unit: nat)
    requires unit >= 1 && a % unit == 0 && b % unit == 0 && a < b
    ensures a + unit <= b
  {
    if b < a + unit { CloseMultiples(a, b, unit); }
  }

  class IntervalList<T(!new)> {
    var intervals: seq<Interval<T>>

    /** Contents of the hull when one interval is joined with a later one. */
    const join: (Interval<T>, Interval<T>) -> T
    /** Which contents there can be at a position. */
    ghost const allowed: (T, int) -> bool
    /** The second contents still say what the first say about a position. */
    ghost const keeps: (T, T, int) -> bool

    constructor (join: (Interval<T>, Interval<T>) -> T, ghost allowed: (T, int) -> bool,
                 ghost keeps: (T, T, int) -> bool)
      ensures intervals == [] && this.join == join && this.allowed == allowed && this.keeps == keeps
    {
      intervals := [];
      this.join := join;
      this.allowed := allowed;
      this.keeps := keeps;
    }

    ghost predicate Fills(x: Interval<T>) {
      forall p :: x.range.Has(p) ==> allowed(x.contents, p)
    }

    ghost predicate AllFill(s: seq<Interval<T>>, i: nat) {
      forall k :: i <= k < |s| ==> Fills(s[k])
    }

    /** The contents are allowed somewhere in the interval. */
    ghost predicate Possible(x: Interval<T>) {
      exists p :: x.range.Has(p) && allowed(x.contents, p)
    }

    ghost predicate AllPossible(s: seq<Interval<T>>) {
      forall x :: x in s ==> Possible(x)
    }

    /** Joining keeps what either part says about its own positions. */
    ghost predicate JoinKeeps() {
      && (forall t, p :: keeps(t, t, p))
      && (forall t, u, v, p :: keeps(t, u, p) && keeps(u, v, p) ==> keeps(t, v, p))
      && (forall a: Interval<T>, b: Interval<T> {:trigger join(a, b)} :: Joinable(a, b) ==> Joined(a, b, join(a, b)))
    }

    ghost predicate Joinable(a: Interval<T>, b: Interval<T>) {
      && Fills(a) && Fills(b)
      && 0 <= a.range.first < a.range.last <= b.range.first < b.range.last
    }

    ghost predicate Joined(a: Interval<T>, b: Interval<T>, t: T) {
      && Fills(Interval(a.range.Join(b.range), t))
      && (forall p :: a.range.Has(p) ==> keeps(a.contents, t, p))
      && (forall p :: b.range.Has(p) ==> keeps(b.contents, t, p))
    }

    /** Index of the first interval that starts at or after the position. */
    method LowerBound(first: int) returns (lo: nat)
      requires Sane(intervals)
      ensures lo <= |intervals|
      ensures forall i :: 0 <= i < lo ==> intervals[i].range.first < first
      ensures forall i :: lo <= i < |intervals| ==> intervals[i].range.first >= first
    {
      var hi := |intervals|;
      lo := 0;
      while lo < hi
        invariant 0 <= lo <= hi <= |intervals|
        invariant forall i :: 0 <= i < lo ==> intervals[i].range.first < first
        invariant forall i :: hi <= i < |intervals| ==> intervals[i].range.first >= first
      {
        var mid := (lo + hi) / 2;
        if intervals[mid].range.first < first { lo := mid + 1; } else { hi := mid; }
      }
    }

    /** Index of the first interval that ends after the position. */
    method UpperBound(last: int) returns (hi: nat)
      requires Sane(intervals)
      ensures hi <= |intervals|
      ensures forall i :: 0 <= i < hi ==> intervals[i].range.last <= last
      ensures forall i :: hi <= i < |intervals| ==> intervals[i].range.last > last
    {
      var lo := 0;
      hi := |intervals|;
      while lo < hi
        invariant 0 <= lo <= hi <= |intervals|
        invariant forall i :: 0 <= i < lo ==> intervals[i].range.last <= last
        invariant forall i :: hi <= i < |intervals| ==> intervals[i].range.last > last
      {
        var mid := (lo + hi) / 2;
        if intervals[mid].range.last <= last { lo := mid + 1; } else { hi := mid; }
      }
    }

    /** Adds an interval, pruning from the existing ones exactly what it overlaps. */
    method AddInterval(x: Interval<T>)
      requires Sane(intervals) && (x.range.Empty() || 0 <= x.range.first)
      modifies this
      ensures Sane(intervals)
      ensures forall p :: At(intervals, p) == if x.range.Has(p) then Some(x.contents) else At(old(intervals), p)
      ensures !x.range.Empty() ==> x in intervals
      ensures forall y :: y in old(intervals) && !y.range.Intersects(x.range) ==> y in intervals
      ensures old(AllFill(intervals, 0)) && Fills(x) ==> AllFill(intervals, 0)
    {
      if x.range.Empty() {
        return;
      }
      ghost var was := intervals;
      if |intervals| == 0 {
        InsertAt(0, x);
        FilledByOwners(was, x, intervals);
        return;
      }
      var lo := LowerBound(x.range.first);
      var hi := UpperBound(x.range.last);
      if lo < hi {
        // Intervals in [lo, hi) are those completely covered by the new one.
        intervals := intervals[..lo] + intervals[hi..];
        ErasedAt(was, lo, hi, x.range, intervals);
        ErasedKeeps(was, lo, hi, x.range, intervals);
        hi := lo;
      } else if hi < lo {
        SplitInterval(lo, hi, x);
        FilledByOwners(was, x, intervals);
        return;
      }
      InsertAt(lo, x);
      FilledByOwners(was, x, intervals);
    }

    lemma FilledByOwners(s: seq<Interval<T>>, x: Interval<T>, t: seq<Interval<T>>)
      requires Sane(s) && Sane(t)
      requires forall p :: At(t, p) == if x.range.Has(p) then Some(x.contents) else At(s, p)
      ensures AllFill(s, 0) && Fills(x) ==> AllFill(t, 0)
    {
      if AllFill(s, 0) && Fills(x) {
        forall k, p | 0 <= k < |t| && t[k].range.Has(p) ensures allowed(t[k].contents, p) {
          assert At(t, p) == Some(t[k].contents);
          assert Covered(s, p) ==> exists j :: 0 <= j < |s| && s[j].range.Has(p) && At(s, p) == Some(s[j].contents);
        }
      }
    }

    /** The new interval lies within interval hi with room at both ends. */
    method SplitInterval(lo: nat, hi: nat, x: Interval<T>)
      requires Sane(intervals) && hi < lo <= |intervals| && 0 <= x.range.first < x.range.last
      requires forall i :: 0 <= i < lo ==> intervals[i].range.first < x.range.first
      requires forall i :: hi <= i < |intervals| ==> x.range.last < intervals[i].range.last
      modifies this
      ensures Sane(intervals)
      ensures forall p :: At(intervals, p) == if x.range.Has(p) then Some(x.contents) else At(old(intervals), p)
      ensures x in intervals
      ensures forall y :: y in old(intervals) && !y.range.Intersects(x.range) ==> y in intervals
    {
      ghost var was := intervals;
      BoundsMeet(was, x.range, lo, hi);
      var outer := intervals[hi].range;
      var lower := Interval(Range(outer.first, x.range.first), intervals[hi].contents);
      var upper := Interval(Range(x.range.last, outer.last), intervals[hi].contents);
      intervals := intervals[hi := lower];
      intervals := intervals[..lo] + [upper] + intervals[lo..];
      intervals := intervals[..lo] + [x] + intervals[lo..];
      Spliced(was, hi, lower, x, upper);
      SplitAt(was, hi, x, intervals);
      SplitKeeps(was, hi, lower, x, upper, intervals);
    }

    /** Inserts an interval after pruning its neighbours. */
    method InsertAt(lo: nat, x: Interval<T>)
      requires Sane(intervals) && lo <= |intervals| && 0 <= x.range.first < x.range.last
      requires forall i :: 0 <= i < lo ==>
                 intervals[i].range.first < x.range.first && intervals[i].range.last <= x.range.last
      requires forall i :: lo <= i < |intervals| ==>
                 x.range.first <= intervals[i].range.first && x.range.last < intervals[i].range.last
      modifies this
      ensures Sane(intervals)
      ensures forall p :: At(intervals, p) == if x.range.Has(p) then Some(x.contents) else At(old(intervals), p)
      ensures x in intervals
      ensures forall y :: y in old(intervals) && !y.range.Intersects(x.range) ==> y in intervals
    {
      ghost var was := intervals;
      if lo != 0 {
        var prev := intervals[lo - 1].range;
        if x.range.first < prev.last {
          intervals := intervals[lo - 1 := intervals[lo - 1].(range := Range(prev.first, x.range.first))];
        }
      }
      if lo != |intervals| {
        var next := intervals[lo].range;
        if next.first < x.range.last {
          intervals := intervals[lo := intervals[lo].(range := Range(x.range.last, next.last))];
        }
      }
      ghost var pruned := intervals;
      NeighboursPruned(was, lo, x.range, pruned);
      intervals := intervals[..lo] + [x] + intervals[lo..];
      InsertedAt(was, lo, x, pruned, intervals);
      InsertedKeeps(was, lo, x, pruned, intervals);
    }

    /** Nothing said about a covered position is lost. */
    ghost predicate Preserved(s: seq<Interval<T>>, t: seq<Interval<T>>)
      requires Sane(s) && Sane(t)
    {
      forall p :: Covered(s, p) ==> Covered(t, p) && keeps(At(s, p).value, At(t, p).value, p)
    }

    /** Rounds all intervals outwards to multiples of the unit, joining those that
        then meet in one unit.  What is covered afterwards is exactly the units that
        were touched; nothing said about a covered position is lost; intervals that
        were aligned already stay as they are. */
    method AlignBoundaries(unit: nat)
      requires Sane(intervals) && unit >= 1 && JoinKeeps() && AllFill(intervals, 0)
      modifies this
      ensures Sane(intervals) && AllPossible(intervals) && forall x :: x in intervals ==> Aligned(x.range, unit)
      ensures forall p: nat :: Covered(intervals, p) <==> Touched(old(intervals), unit, p)
      ensures Preserved(old(intervals), intervals)
      ensures forall x :: x in old(intervals) && Aligned(x.range, unit) ==> x in intervals
      ensures forall y :: y in old(intervals) && Lone(old(intervals), y, unit) ==> RoundedOut(y, unit) in intervals
    {
      hide AlignedUpTo;
      hide RoundDown;
      hide RoundLastUp;
      hide Touched;
      hide Lone;
      ghost var was := intervals;
      NothingAligned(was, unit);
      var i := 0;
      while i < |intervals|
        invariant 0 <= i <= |intervals| && Sane(intervals) && AlignedUpTo(was, intervals, unit, i)
        decreases |intervals| - i
      {
        var origRange := intervals[i].range;
        var alignedRange := Range(RoundDown(origRange.first, unit), RoundLastUp(origRange.last, unit));
        RoundedAligned(origRange.first, origRange.last, unit);
        if !origRange.Same(alignedRange) {
          RoundInterval(was, i, unit, alignedRange);
        } else {
          AlreadyAligned(was, intervals, unit, i);
        }
        i := i + 1;
      }
      AllAligned(was, intervals, unit);
    }

    lemma NothingAligned(was: seq<Interval<T>>, unit: nat)
      requires Sane(was) && unit >= 1 && JoinKeeps() && AllFill(was, 0)
      ensures AlignedUpTo(was, was, unit, 0)
    {
      hide RoundDown;
      hide RoundLastUp;
      hide At;
      hide Touched;
      hide Lone;
      CoveredIsTouched(was, unit);
      FilledPossible(was);
      assert Rest(was, was, 0) by { assert |was| > 0 ==> was[0] in was && was[0].range.last == was[0].range.last; }
    }

    lemma AlreadyAligned(was: seq<Interval<T>>, s: seq<Interval<T>>, unit: nat, i: nat)
      requires unit >= 1 && Sane(was) && i < |s| && AlignedUpTo(was, s, unit, i) && Aligned(s[i].range, unit)
      ensures AlignedUpTo(was, s, unit, i + 1)
    {
      hide LoneKept;
      hide Touched;
      hide Preserved;
      hide Aligned;
      assert i + 1 < |s| ==> s[i + 1] in was && s[i + 1].range.last == s[i + 1].range.last;
    }

    lemma AllAligned(was: seq<Interval<T>>, s: seq<Interval<T>>, unit: nat)
      requires unit >= 1 && Sane(was) && AlignedUpTo(was, s, unit, |s|)
      ensures Sane(s) && AllPossible(s) && forall x :: x in s ==> Aligned(x.range, unit)
      ensures forall p: nat :: Covered(s, p) <==> Touched(was, unit, p)
      ensures Preserved(was, s)
      ensures forall x :: x in was && Aligned(x.range, unit) ==> x in s
      ensures forall y :: y in was && Lone(was, y, unit) ==> RoundedOut(y, unit) in s
    {
      hide RoundDown;
      hide RoundLastUp;
      hide At;
      hide Touched;
      hide Lone;
      hide Aligned;
      hide RoundedOut;
      forall p: nat | Touched(was, unit, p) ensures Covered(s, p) {
        TouchedIsCovered(was, s, unit, p);
      }
      forall y | y in was && Lone(was, y, unit) ensures RoundedOut(y, unit) in s {
        if y in s { AlignedIsRoundedOut(y, unit); }
      }
    }

    lemma FilledPossible(s: seq<Interval<T>>)
      requires Sane(s) && AllFill(s, 0)
      ensures AllPossible(s)
    {
      forall x | x in s ensures Possible(x) { assert x.range.Has(x.range.first); }
    }

    /** Rounds interval i, merging in what follows and chopping off what sticks out. */
    method RoundInterval(ghost was: seq<Interval<T>>, i: nat, unit: nat, alignedRange: Range)
      requires unit >= 1 && Sane(was) && JoinKeeps() && i < |intervals| && AlignedUpTo(was, intervals, unit, i)
      requires !Aligned(intervals[i].range, unit) && Aligned(alignedRange, unit) && 0 <= alignedRange.first
      requires alignedRange.first <= intervals[i].range.first < alignedRange.first + unit
      requires intervals[i].range.last <= alignedRange.last < intervals[i].range.last + unit
      modifies this
      ensures i < |intervals| <= |old(intervals)| && AlignedUpTo(was, intervals, unit, i + 1)
    {
      ghost var s := intervals;
      var merged, next := MergeFollowing(i, alignedRange.last);
      var aligned := Interval(alignedRange, merged.contents);
      if merged.range.last > alignedRange.last {
        // Chop the interval in two at the boundary.
        var upper := Interval(Range(alignedRange.last, merged.range.last), merged.contents);
        intervals := intervals[..i] + [aligned, upper] + intervals[next..];
      } else {
        intervals := intervals[..i] + [aligned] + intervals[next..];
      }
      AlignStep(was, s, i, next, unit, aligned, merged.range.last, intervals);
    }

    /** Joins interval i with all following ones that start before roundedLast. */
    method MergeFollowing(i: nat, roundedLast: int) returns (merged: Interval<T>, next: nat)
      requires Sane(intervals) && i < |intervals| && JoinKeeps() && AllFill(intervals, i)
      ensures i < next <= |intervals|
      ensures merged.range == Range(intervals[i].range.first, intervals[next - 1].range.last)
      ensures forall k :: i < k < next ==> intervals[k].range.first < roundedLast
      ensures next < |intervals| ==> intervals[next].range.first >= roundedLast
      ensures next == i + 1 ==> merged == intervals[i]
      ensures forall k, p :: i <= k < next && intervals[k].range.Has(p) ==>
                keeps(intervals[k].contents, merged.contents, p)
      ensures Fills(merged)
    {
      merged := intervals[i];
      next := i + 1;
      while next < |intervals| && intervals[next].range.first < roundedLast
        invariant i < next <= |intervals|
        invariant merged.range == Range(intervals[i].range.first, intervals[next - 1].range.last)
        invariant forall k :: i < k < next ==> intervals[k].range.first < roundedLast
        invariant next == i + 1 ==> merged == intervals[i]
        invariant forall k, p :: i <= k < next && intervals[k].range.Has(p) ==>
                    keeps(intervals[k].contents, merged.contents, p)
        invariant Fills(merged)
      {
        var x := intervals[next];
        assert intervals[next - 1].range.last <= x.range.first;
        forall k, p | i <= k < next && intervals[k].range.Has(p) ensures merged.range.Has(p) {
          if k < next - 1 { assert intervals[k].range.last <= intervals[next - 1].range.first; }
          if i < k { assert intervals[i].range.last <= intervals[k].range.first; }
        }
        assert merged.range.Join(x.range) == Range(intervals[i].range.first, x.range.last);
        var t := join(merged, x);
        assert Joinable(merged, x) && Joined(merged, x, t);
        forall k, p | i <= k < next && intervals[k].range.Has(p) ensures keeps(intervals[k].contents, t, p) {
          assert keeps(merged.contents, t, p);
        }
        merged := Interval(merged.range.Join(x.range), t);
        next := next + 1;
      }
    }

    /** Where the alignment of was stands when the first i intervals are done. */
    ghost predicate AlignedUpTo(was: seq<Interval<T>>, s: seq<Interval<T>>, unit: nat, i: nat)
      requires unit >= 1 && Sane(was) && i <= |s|
    {
      && Sane(s)
      && (forall k :: 0 <= k < i ==> Aligned(s[k].range, unit))
      && (forall p: nat :: Covered(s, p) ==> Touched(was, unit, p))
      && Preserved(was, s) && AllFill(s, i) && AllPossible(s)
      && (forall x :: x in was && Aligned(x.range, unit) ==> x in s)
      && LoneKept(was, s, unit)
      && Rest(was, s, i)
    }

    ghost predicate LoneKept(was: seq<Interval<T>>, s: seq<Interval<T>>, unit: nat)
      requires unit >= 1 && Sane(was)
    {
      forall y :: y in was && Lone(was, y, unit) ==> y in s || RoundedOut(y, unit) in s
    }

    /** The intervals after interval i are as they were, and that one ends where it, or
        the part of which it remains, ended. */
    ghost predicate Rest(was: seq<Interval<T>>, s: seq<Interval<T>>, i: nat) {
      && (forall k :: i < k < |s| ==> s[k] in was)
      && (i < |s| ==> exists z :: z in was && z.range.last == s[i].range.last)
    }

    lemma AlignStep(was: seq<Interval<T>>, s: seq<Interval<T>>, i: nat, next: nat, unit: nat, aligned: Interval<T>,
                    last: int, t: seq<Interval<T>>)
      requires unit >= 1 && Sane(was) && i < |s| && AlignedUpTo(was, s, unit, i) && JoinKeeps()
      requires Stepped(s, i, next, unit, aligned, last, t) && !Aligned(s[i].range, unit)
      ensures i + 1 <= |t| <= |s| && AlignedUpTo(was, t, unit, i + 1)
    {
      hide Stepped;
      hide Aligned;
      hide Touched;
      SteppedSane(s, i, next, unit, aligned, last, t);
      SteppedTouches(s, i, next, unit, aligned, last, t);
      SteppedPreserves(s, i, next, unit, aligned, last, t);
      SteppedFills(s, i, next, unit, aligned, last, t);
      PreservedTwice(was, s, t);
      TouchedTransitive(was, s, unit);
      assert Aligned(aligned.range, unit) by { SteppedAligned(s, i, next, unit, aligned, last, t); }
      forall x | x in was && Aligned(x.range, unit) ensures x in t {
        SteppedKeeps(s, i, next, unit, aligned, last, t, x);
      }
      forall y | y in was && Lone(was, y, unit) ensures y in t || RoundedOut(y, unit) in t {
        SteppedLone(was, s, i, next, unit, aligned, last, t, y);
      }
      SteppedRest(was, s, i, next, unit, aligned, last, t);
    }

    lemma SteppedRest(was: seq<Interval<T>>, s: seq<Interval<T>>, i: nat, next: nat, unit: nat, aligned: Interval<T>,
                      last: int, t: seq<Interval<T>>)
      requires unit >= 1 && Stepped(s, i, next, unit, aligned, last, t) && Rest(was, s, i)
      ensures Rest(was, t, i + 1)
    {
      hide Aligned;
      var mid := Middle(aligned, last);
      forall k: nat | i < k < |t|
        ensures k > i + 1 ==> t[k] in was
        ensures k == i + 1 ==> exists z :: z in was && z.range.last == t[k].range.last
      {
        SplicedFrom(s, i, next, mid, k);
      }
    }

    lemma SteppedLone(was: seq<Interval<T>>, s: seq<Interval<T>>, i: nat, next: nat, unit: nat, aligned: Interval<T>,
                      last: int, t: seq<Interval<T>>, y: Interval<T>)
      requires unit >= 1 && Sane(was) && Stepped(s, i, next, unit, aligned, last, t) && Rest(was, s, i)
      requires !Aligned(s[i].range, unit) && y in was && Lone(was, y, unit)
      requires y in s || RoundedOut(y, unit) in s
      ensures y in t || RoundedOut(y, unit) in t
    {
      hide RoundDown;
      hide RoundLastUp;
      hide Lone;
      hide Stepped;
      var out := RoundedOut(y, unit);
      if out in s {
        SteppedKeeps(s, i, next, unit, aligned, last, t, out);
      } else {
        var k: nat :| k < |s| && s[k] == y;
        LoneUnmerged(was, s, i, next, unit, aligned, last, t, y, k);
        if k == i {
          SteppedAlone(s, i, next, unit, aligned, last, t);
        } else {
          SteppedOutside(s, i, next, unit, aligned, last, t, k);
        }
      }
    }

    lemma SteppedOutside(s: seq<Interval<T>>, i: nat, next: nat, unit: nat, aligned: Interval<T>, last: int,
                         t: seq<Interval<T>>, k: nat)
      requires unit >= 1 && Stepped(s, i, next, unit, aligned, last, t) && k < |s| && (k < i || k >= next)
      ensures s[k] in t
    {
      hide Aligned;
      SplicedTo(s, i, next, Middle(aligned, last), k);
    }

    /** A lone interval is not merged with others. */
    lemma LoneUnmerged(was: seq<Interval<T>>, s: seq<Interval<T>>, i: nat, next: nat, unit: nat, aligned: Interval<T>,
                       last: int, t: seq<Interval<T>>, y: Interval<T>, k: nat)
      requires unit >= 1 && Sane(was) && Stepped(s, i, next, unit, aligned, last, t) && Rest(was, s, i)
      requires y in was && Lone(was, y, unit) && k < |s| && s[k] == y
      ensures i < next <= |s| && (k < i || (k == i && next == i + 1) || k >= next)
    {
      hide RoundDown;
      hide Lone;
      hide Aligned;
      if i <= k < next && next > i + 1 {
        assert s[i + 1] in was;
        assert s[i].range.last <= s[i + 1].range.first;
        if k == i {
          SameUnit(was, unit, aligned.range, y, y.range.last - 1, s[i + 1], s[i + 1].range.first);
        } else {
          var z :| z in was && z.range.last == s[i].range.last;
          assert s[i].range.last <= y.range.first;
          SameUnit(was, unit, aligned.range, y, y.range.first, z, z.range.last - 1);
        }
      }
    }

    /** Two intervals with positions in the last unit of a range are not lone. */
    lemma SameUnit(was: seq<Interval<T>>, unit: nat, r: Range, y: Interval<T>, q: int, x: Interval<T>, p: int)
      requires unit >= 1 && Aligned(r, unit) && 0 < r.last && r.last - unit <= p < r.last && r.last - unit <= q < r.last
      requires x in was && x != y && x.range.Has(p) && y.range.Has(q)
      ensures !Lone(was, y, unit)
    {
      PreviousMultiple(r.last, unit);
      RoundDownIs(p, unit, r.last - unit);
      RoundDownIs(q, unit, r.last - unit);
    }

    lemma SteppedAlone(s: seq<Interval<T>>, i: nat, next: nat, unit: nat, aligned: Interval<T>, last: int,
                       t: seq<Interval<T>>)
      requires unit >= 1 && Stepped(s, i, next, unit, aligned, last, t) && next == i + 1
      ensures 0 <= s[i].range.first && 0 <= s[i].range.last && RoundedOut(s[i], unit) in t
    {
      hide RoundDown;
      hide RoundLastUp;
      SplicedFrom(s, i, next, Middle(aligned, last), i);
      RoundDownIs(s[i].range.first, unit, aligned.range.first);
      RoundLastUpIs(s[i].range.last, unit, aligned.range.last);
      assert t[i] == RoundedOut(s[i], unit);
    }

    lemma PreservedTwice(r: seq<Interval<T>>, s: seq<Interval<T>>, t: seq<Interval<T>>)
      requires Sane(r) && Sane(s) && Sane(t) && JoinKeeps() && Preserved(r, s) && Preserved(s, t)
      ensures Preserved(r, t)
    {}

    lemma SteppedFills(s: seq<Interval<T>>, i: nat, next: nat, unit: nat, aligned: Interval<T>, last: int,
                       t: seq<Interval<T>>)
      requires unit >= 1 && Stepped(s, i, next, unit, aligned, last, t) && AllFill(s, i) && AllPossible(s)
      ensures AllFill(t, i + 1) && AllPossible(t)
    {
      hide Aligned;
      var mid := Middle(aligned, last);
      if i < next - 1 { assert s[i].range.last <= s[next - 1].range.first; }
      var whole := Interval(Range(s[i].range.first, last), aligned.contents);
      assert whole.range.Has(s[i].range.first) && allowed(aligned.contents, s[i].range.first);
      assert aligned.range.Has(s[i].range.first);
      if last > aligned.range.last {
        assert whole.range.Has(aligned.range.last) && allowed(aligned.contents, aligned.range.last);
        assert mid[1].range.Has(aligned.range.last);
      }
      forall k: nat | k < |t| ensures (k > i ==> Fills(t[k])) && Possible(t[k]) {
        SplicedFrom(s, i, next, mid, k);
      }
    }

    lemma SteppedAligned(s: seq<Interval<T>>, i: nat, next: nat, unit: nat, aligned: Interval<T>, last: int,
                         t: seq<Interval<T>>)
      requires unit >= 1 && Stepped(s, i, next, unit, aligned, last, t)
      ensures Aligned(aligned.range, unit)
    {}

    /** One round of AlignBoundaries: intervals [i, next) of s become an aligned
        interval and possibly the part of the last one that sticks out. */
    ghost predicate Stepped(s: seq<Interval<T>>, i: nat, next: nat, unit: nat, aligned: Interval<T>, last: int,
                            t: seq<Interval<T>>)
      requires unit >= 1
    {
      && i < next <= |s| && Sane(s)
      && Aligned(aligned.range, unit)
      && 0 <= aligned.range.first <= s[i].range.first < aligned.range.first + unit
      && s[i].range.last <= aligned.range.last < s[i].range.last + unit
      && last == s[next - 1].range.last
      && (forall k :: 0 <= k < i ==> Aligned(s[k].range, unit))
      && (forall k :: i < k < next ==> s[k].range.first < aligned.range.last)
      && (next == i + 1 ==> aligned.contents == s[i].contents)
      && (next < |s| ==> s[next].range.first >= aligned.range.last)
      && (forall k, p :: i <= k < next && s[k].range.Has(p) ==> keeps(s[k].contents, aligned.contents, p))
      && Fills(Interval(Range(s[i].range.first, last), aligned.contents))
      && t == s[..i] + Middle(aligned, last) + s[next..]
    }

    function Middle(aligned: Interval<T>, last: int): seq<Interval<T>> {
      if last > aligned.range.last
      then [aligned, Interval(Range(aligned.range.last, last), aligned.contents)]
      else [aligned]
    }

    lemma SteppedBefore(s: seq<Interval<T>>, i: nat, next: nat, unit: nat, aligned: Interval<T>, last: int,
                        t: seq<Interval<T>>, k: nat)
      requires unit >= 1 && Stepped(s, i, next, unit, aligned, last, t) && k < i
      ensures s[k].range.last <= aligned.range.first
    {
      assert s[k].range.last <= s[i].range.first;
      if aligned.range.first < s[k].range.last {
        NextMultiple(aligned.range.first, s[k].range.last, unit);
      }
    }

    lemma SteppedAfter(s: seq<Interval<T>>, i: nat, next: nat, unit: nat, aligned: Interval<T>, last: int,
                       t: seq<Interval<T>>, k: nat)
      requires unit >= 1 && Stepped(s, i, next, unit, aligned, last, t) && next <= k < |s|
      ensures aligned.range.last <= s[k].range.first && last <= s[k].range.first
    {
      assert s[next - 1].range.last <= s[k].range.first;
      if next < k { assert s[next].range.last <= s[k].range.first; }
    }

    lemma SteppedSane(s: seq<Interval<T>>, i: nat, next: nat, unit: nat, aligned: Interval<T>, last: int,
                      t: seq<Interval<T>>)
      requires unit >= 1 && Stepped(s, i, next, unit, aligned, last, t)
      ensures Sane(t) && i < |t| <= |s| && t[i] == aligned
      ensures forall k :: 0 <= k < i ==> t[k] == s[k]
    {
      hide Aligned;
      var r := aligned.range;
      var n := |Middle(aligned, last)|;
      SplicedFrom(s, i, next, Middle(aligned, last), i);
      if last > r.last { assert next - 1 > i; }
      forall k: nat | k < |t| ensures 0 <= t[k].range.first < t[k].range.last {
        SplicedFrom(s, i, next, Middle(aligned, last), k);
      }
      forall k: nat | k < i ensures t[k] == s[k] {
        SplicedFrom(s, i, next, Middle(aligned, last), k);
      }
      forall k: nat, l: nat | k < l < |t| ensures t[k].range.last <= t[l].range.first {
        SteppedOrdered(s, i, next, unit, aligned, last, t, k, l);
      }
    }

    lemma SteppedOrdered(s: seq<Interval<T>>, i: nat, next: nat, unit: nat, aligned: Interval<T>, last: int,
                         t: seq<Interval<T>>, k: nat, l: nat)
      requires unit >= 1 && Stepped(s, i, next, unit, aligned, last, t) && k < l < |t|
      ensures t[k].range.last <= t[l].range.first
    {
      hide Aligned;
      var mid := Middle(aligned, last);
      SplicedFrom(s, i, next, mid, k);
      SplicedFrom(s, i, next, mid, l);
      if k < i {
        SteppedBefore(s, i, next, unit, aligned, last, t, k);
      }
      if i + |mid| <= l {
        SteppedAfter(s, i, next, unit, aligned, last, t, l - (i + |mid|) + next);
      }
      if k < i && l >= i + |mid| {
        assert s[k].range.last <= s[l - (i + |mid|) + next].range.first;
      }
    }

    /** Rounding outwards stays within units that the interval touches. */
    lemma RoundedTouches(s: seq<Interval<T>>, i: nat, unit: nat, r: Range, p: nat)
      requires unit >= 1 && i < |s| && Sane(s) && r.Has(p) && Aligned(r, unit)
      requires r.first <= s[i].range.first < r.first + unit
      requires s[i].range.last <= r.last < s[i].range.last + unit
      ensures Touched(s, unit, p)
    {
      var first, last: nat := s[i].range.first, s[i].range.last - 1;
      assert s[i].range.Has(first) && s[i].range.Has(last);
      PreviousMultiple(r.last, unit);
      if p < first {
        RoundDownIs(p, unit, r.first);
        RoundDownIs(first, unit, r.first);
        assert Covered(s, first) && RoundDown(first, unit) == RoundDown(p, unit);
      } else if p > last {
        RoundDownIs(p, unit, r.last - unit);
        RoundDownIs(last, unit, r.last - unit);
        assert Covered(s, last) && RoundDown(last, unit) == RoundDown(p, unit);
      } else {
        assert s[i].range.Has(p);
        assert Covered(s, p) && RoundDown(p, unit) == RoundDown(p, unit);
      }
    }

    lemma SteppedTouches(s: seq<Interval<T>>, i: nat, next: nat, unit: nat, aligned: Interval<T>, last: int,
                         t: seq<Interval<T>>)
      requires unit >= 1 && Stepped(s, i, next, unit, aligned, last, t)
      ensures forall p: nat :: Covered(t, p) ==> Touched(s, unit, p)
    {
      hide Aligned;
      hide RoundDown;
      var n := |Middle(aligned, last)|;
      forall p: nat | Covered(t, p) ensures Touched(s, unit, p) {
        var k: nat :| k < |t| && t[k].range.Has(p);
        SplicedFrom(s, i, next, Middle(aligned, last), k);
        if k == i {
          RoundedTouches(s, i, unit, aligned.range, p);
        } else {
          var k' := if k < i then k else if k >= i + n then k - (i + n) + next else next - 1;
          assert s[k'].range.Has(p);
          assert Covered(s, p) && RoundDown(p, unit) == RoundDown(p, unit);
        }
      }
    }

    lemma SteppedPreserves(s: seq<Interval<T>>, i: nat, next: nat, unit: nat, aligned: Interval<T>, last: int,
                           t: seq<Interval<T>>)
      requires unit >= 1 && Stepped(s, i, next, unit, aligned, last, t) && Sane(t) && JoinKeeps()
      ensures Preserved(s, t)
    {
      hide Aligned;
      forall p | Covered(s, p) ensures Covered(t, p) && keeps(At(s, p).value, At(t, p).value, p) {
        var k: nat :| k < |s| && s[k].range.Has(p);
        var k' := SteppedOwner(s, i, next, unit, aligned, last, t, k, p);
        assert At(t, p) == Some(t[k'].contents) && At(s, p) == Some(s[k].contents);
      }
    }

    /** The interval that owns position p after the step. */
    lemma SteppedOwner(s: seq<Interval<T>>, i: nat, next: nat, unit: nat, aligned: Interval<T>, last: int,
                       t: seq<Interval<T>>, k: nat, p: int) returns (k': nat)
      requires unit >= 1 && Stepped(s, i, next, unit, aligned, last, t)
      requires k < |s| && s[k].range.Has(p) && JoinKeeps()
      ensures k' < |t| && t[k'].range.Has(p) && keeps(s[k].contents, t[k'].contents, p)
    {
      hide Aligned;
      var mid := Middle(aligned, last);
      if k < i || k >= next {
        SplicedTo(s, i, next, mid, k);
        k' := if k < i then k else k - next + i + |mid|;
      } else {
        if k < next - 1 { assert s[k].range.last <= s[next - 1].range.first; }
        if i < k { assert s[i].range.last <= s[k].range.first; }
        k' := if p < aligned.range.last then i else i + 1;
        SplicedFrom(s, i, next, mid, k');
      }
    }

    lemma SteppedKeeps(s: seq<Interval<T>>, i: nat, next: nat, unit: nat, aligned: Interval<T>, last: int,
                       t: seq<Interval<T>>, x: Interval<T>)
      requires unit >= 1 && Stepped(s, i, next, unit, aligned, last, t)
      requires !Aligned(s[i].range, unit) && x in s && Aligned(x.range, unit)
      ensures x in t
    {
      var last' := aligned.range.last;
      var k: nat :| k < |s| && s[k] == x;
      if k < i || k >= next {
        SplicedTo(s, i, next, Middle(aligned, last), k);
      } else {
        // An aligned interval cannot start within the last unit.
        assert i < k && s[i].range.last <= s[k].range.first < last';
        PreviousMultiple(last', unit);
        NextMultiple(last' - unit, s[k].range.first, unit);
      }
    }
  }

  lemma RoundLastUpIs(p: nat, unit: nat, r: nat)
    requires unit >= 1 && r % unit == 0 && p <= r < p + unit
    ensures RoundLastUp(p, unit) == r
  {
    CloseMultiples(RoundLastUp(p, unit), r, unit);
  }

  lemma AlignedIsRoundedOut<T>(y: Interval<T>, unit: nat)
    requires unit >= 1 && 0 <= y.range.first && 0 <= y.range.last && Aligned(y.range, unit)
    ensures RoundedOut(y, unit) == y
  {
    RoundedAligned(y.range.first, y.range.last, unit);
  }

  lemma TouchedTransitive<T>(was: seq<Interval<T>>, s: seq<Interval<T>>, unit: nat)
    requires unit >= 1 && Sane(s) && forall p: nat :: Covered(s, p) ==> Touched(was, unit, p)
    ensures forall p: nat :: Touched(s, unit, p) ==> Touched(was, unit, p)
  {}

  lemma CoveredIsTouched<T>(s: seq<Interval<T>>, unit: nat)
    requires unit >= 1
    ensures forall p: nat :: Covered(s, p) ==> Touched(s, unit, p)
  {}

  /** Aligned intervals cover whole units. */
  lemma TouchedIsCovered<T>(was: seq<Interval<T>>, s: seq<Interval<T>>, unit: nat, p: nat)
    requires unit >= 1 && Sane(s) && Touched(was, unit, p)
    requires forall x :: x in s ==> Aligned(x.range, unit)
    requires forall q: nat :: Covered(was, q) ==> Covered(s, q)
    ensures Covered(s, p)
  {
    var q: nat :| Covered(was, q) && RoundDown(q, unit) == RoundDown(p, unit);
    var k :| 0 <= k < |s| && s[k].range.Has(q);
    var r := s[k].range;
    assert s[k] in s;
    var start := RoundDown(q, unit);
    if start < r.first { NextMultiple(start, r.first, unit); }
    NextMultiple(start, r.last, unit);
    assert s[k].range.Has(p);
  }

  lemma ErasedAt<T>(s: seq<Interval<T>>, lo: nat, hi: nat, x: Range, t: seq<Interval<T>>)
    requires lo <= hi <= |s| && t == s[..lo] + s[hi..] && Sane(s)
    requires forall i :: lo <= i < hi ==> x.first <= s[i].range.first && s[i].range.last <= x.last
    ensures Sane(t)
    ensures forall p :: !x.Has(p) ==> At(t, p) == At(s, p)
  {
    assert forall k :: lo <= k < |t| ==> t[k] == s[k - lo + hi];
    forall p | !x.Has(p) ensures At(t, p) == At(s, p) {
      ErasedOwner(s, lo, hi, x, t, p);
    }
  }

  lemma ErasedOwner<T>(s: seq<Interval<T>>, lo: nat, hi: nat, x: Range, t: seq<Interval<T>>, p: int)
    requires lo <= hi <= |s| && t == s[..lo] + s[hi..] && Sane(s) && Sane(t) && !x.Has(p)
    requires forall i :: lo <= i < hi ==> x.first <= s[i].range.first && s[i].range.last <= x.last
    ensures At(t, p) == At(s, p)
  {
    hide Sane;
    if k :| 0 <= k < |s| && s[k].range.Has(p) {
      if k < lo { assert t[k] == s[k]; } else { assert t[k - hi + lo] == s[k]; }
    }
    if k :| 0 <= k < |t| && t[k].range.Has(p) {
      if k < lo { assert s[k].range.Has(p); } else { assert s[k - lo + hi].range.Has(p); }
    }
  }

  lemma ErasedKeeps<T>(s: seq<Interval<T>>, lo: nat, hi: nat, x: Range, t: seq<Interval<T>>)
    requires lo <= hi <= |s| && t == s[..lo] + s[hi..] && Sane(s)
    requires forall i :: lo <= i < hi ==> x.first <= s[i].range.first && s[i].range.last <= x.last
    ensures forall y :: y in s && !y.range.Intersects(x) ==> y in t
  {
    forall y | y in s && !y.range.Intersects(x) ensures y in t {
      var k :| 0 <= k < |s| && s[k] == y;
      if lo <= k < hi {
        assert y.range.Has(y.range.first) && x.Has(y.range.first);
      } else {
        assert t[if k < lo then k else k - hi + lo] == y;
      }
    }
  }

  lemma InsertedKeeps<T>(s: seq<Interval<T>>, lo: nat, x: Interval<T>, pruned: seq<Interval<T>>, t: seq<Interval<T>>)
    requires lo <= |s| == |pruned| && Sane(s) && 0 <= x.range.first < x.range.last
    requires forall i :: 0 <= i < |s| ==> pruned[i] == Pruned(s[i], x.range)
    requires t == pruned[..lo] + [x] + pruned[lo..]
    ensures x in t
    ensures forall y :: y in s && !y.range.Intersects(x.range) ==> y in t
  {
    assert t[lo] == x;
    forall y | y in s && !y.range.Intersects(x.range) ensures y in t {
      var k :| 0 <= k < |s| && s[k] == y;
      assert pruned[k] == y;
      assert t[if k < lo then k else k + 1] == pruned[k];
    }
  }

  lemma SplitKeeps<T>(s: seq<Interval<T>>, i: nat, lower: Interval<T>, x: Interval<T>, upper: Interval<T>,
                      t: seq<Interval<T>>)
    requires i < |s| && !x.range.Empty() && Sane(s)
    requires s[i].range.first < x.range.first && x.range.last < s[i].range.last
    requires t == s[..i] + [lower, x, upper] + s[i + 1..]
    ensures x in t
    ensures forall y :: y in s && !y.range.Intersects(x.range) ==> y in t
  {
    assert t[i + 1] == x;
    assert forall k :: 0 <= k < i ==> t[k] == s[k];
    assert forall k :: i < k < |s| ==> t[k + 2] == s[k];
    assert s[i].range.Has(x.range.first) && x.range.Has(x.range.first);
    forall y | y in s && !y.range.Intersects(x.range) ensures y in t {
      var k :| 0 <= k < |s| && s[k] == y;
      assert k != i;
      assert t[if k < i then k else k + 2] == y;
    }
  }

  /** An interval without its part inside x. */
  function Pruned<T>(y: Interval<T>, x: Range): Interval<T> {
    if y.range.first < x.first && x.first < y.range.last then y.(range := Range(y.range.first, x.first))
    else if x.first <= y.range.first < x.last then y.(range := Range(x.last, y.range.last))
    else y
  }

  /** Only the neighbours of the place where x goes can overlap it. */
  lemma NeighboursPruned<T>(s: seq<Interval<T>>, lo: nat, x: Range, t: seq<Interval<T>>)
    requires Sane(s) && lo <= |s| == |t| && x.first < x.last
    requires forall i :: 0 <= i < lo ==> s[i].range.first < x.first && s[i].range.last <= x.last
    requires forall i :: lo <= i < |s| ==> x.first <= s[i].range.first && x.last < s[i].range.last
    requires forall i :: 0 <= i < |s| && i != lo - 1 && i != lo ==> t[i] == s[i]
    requires lo > 0 ==> t[lo - 1] == Pruned(s[lo - 1], x)
    requires lo < |s| ==> t[lo] == Pruned(s[lo], x)
    ensures forall i :: 0 <= i < |s| ==> t[i] == Pruned(s[i], x)
  {
    forall i | 0 <= i < |s| ensures t[i] == Pruned(s[i], x) {
      if i < lo - 1 { assert s[i].range.last <= s[lo - 1].range.first; }
      if lo < i { assert s[lo].range.last <= s[i].range.first; }
    }
  }

  lemma BoundsMeet<T>(s: seq<Interval<T>>, r: Range, lo: nat, hi: nat)
    requires Sane(s) && hi < lo <= |s| && r.first < r.last
    requires forall i :: 0 <= i < lo ==> s[i].range.first < r.first
    requires forall i :: hi <= i < |s| ==> r.last < s[i].range.last
    ensures lo == hi + 1
  {
    assert s[lo - 1].range.first < r.first && r.last < s[hi].range.last;
  }

  lemma InsertedAt<T>(s: seq<Interval<T>>, lo: nat, x: Interval<T>, pruned: seq<Interval<T>>, t: seq<Interval<T>>)
    requires Sane(s) && lo <= |s| == |pruned| && 0 <= x.range.first < x.range.last
    requires forall i :: 0 <= i < lo ==> s[i].range.first < x.range.first && s[i].range.last <= x.range.last
    requires forall i :: lo <= i < |s| ==> x.range.first <= s[i].range.first && x.range.last < s[i].range.last
    requires forall i :: 0 <= i < |s| ==> pruned[i] == Pruned(s[i], x.range)
    requires t == pruned[..lo] + [x] + pruned[lo..]
    ensures Sane(t)
    ensures forall p :: At(t, p) == if x.range.Has(p) then Some(x.contents) else At(s, p)
  {
    forall k | lo < k < |t| ensures t[k] == Pruned(s[k - 1], x.range) {
      assert t[k] == pruned[k - 1];
    }
    InsertedSane(s, lo, x, t);
    forall p ensures At(t, p) == if x.range.Has(p) then Some(x.contents) else At(s, p) {
      InsertedOwner(s, lo, x, t, p);
    }
  }

  lemma InsertedSane<T>(s: seq<Interval<T>>, lo: nat, x: Interval<T>, t: seq<Interval<T>>)
    requires Sane(s) && lo <= |s| && |t| == |s| + 1 && t[lo] == x && 0 <= x.range.first < x.range.last
    requires forall i :: 0 <= i < lo ==> s[i].range.first < x.range.first && s[i].range.last <= x.range.last
    requires forall i :: lo <= i < |s| ==> x.range.first <= s[i].range.first && x.range.last < s[i].range.last
    requires forall i :: 0 <= i < lo ==> t[i] == Pruned(s[i], x.range)
    requires forall i :: lo < i < |t| ==> t[i] == Pruned(s[i - 1], x.range)
    ensures Sane(t)
  {
    forall k, l | 0 <= k < l < |t| ensures t[k].range.last <= t[l].range.first {
      var k', l' := if k < lo then k else k - 1, if l < lo then l else l - 1;
      if k' < l' { assert k != lo && l != lo ==> s[k'].range.last <= s[l'].range.first; }
    }
  }

  lemma InsertedOwner<T>(s: seq<Interval<T>>, lo: nat, x: Interval<T>, t: seq<Interval<T>>, p: int)
    requires Sane(s) && Sane(t) && lo <= |s| && |t| == |s| + 1 && t[lo] == x
    requires forall i :: 0 <= i < lo ==> s[i].range.first < x.range.first && s[i].range.last <= x.range.last
    requires forall i :: lo <= i < |s| ==> x.range.first <= s[i].range.first && x.range.last < s[i].range.last
    requires forall i :: 0 <= i < lo ==> t[i] == Pruned(s[i], x.range)
    requires forall i :: lo < i < |t| ==> t[i] == Pruned(s[i - 1], x.range)
    ensures At(t, p) == if x.range.Has(p) then Some(x.contents) else At(s, p)
  {
    hide Sane;
    if x.range.Has(p) {
      assert t[lo].range.Has(p);
    } else if k :| 0 <= k < |s| && s[k].range.Has(p) {
      assert t[if k < lo then k else k + 1].range.Has(p);
    } else {
      forall k | 0 <= k < |t| && k != lo ensures !t[k].range.Has(p) {
        assert !s[if k < lo then k else k - 1].range.Has(p);
      }
    }
  }

  lemma SplitAt<T>(s: seq<Interval<T>>, i: nat, x: Interval<T>, t: seq<Interval<T>>)
    requires Sane(s) && i < |s| && !x.range.Empty()
    requires s[i].range.first < x.range.first && x.range.last < s[i].range.last
    requires t == s[..i] + [Interval(Range(s[i].range.first, x.range.first), s[i].contents), x,
                            Interval(Range(x.range.last, s[i].range.last), s[i].contents)] + s[i + 1..]
    ensures Sane(t)
    ensures forall p :: At(t, p) == if x.range.Has(p) then Some(x.contents) else At(s, p)
  {
    assert forall k :: i + 3 <= k < |t| ==> t[k] == s[k - 2];
    SplitSane(s, i, x, t);
    forall p ensures At(t, p) == if x.range.Has(p) then Some(x.contents) else At(s, p) {
      SplitOwner(s, i, x, t, p);
    }
  }

  lemma SplitSane<T>(s: seq<Interval<T>>, i: nat, x: Interval<T>, t: seq<Interval<T>>)
    requires Sane(s) && i < |s| && |t| == |s| + 2
    requires s[i].range.first < x.range.first < x.range.last < s[i].range.last
    requires t[i] == Interval(Range(s[i].range.first, x.range.first), s[i].contents) && t[i + 1] == x
    requires t[i + 2] == Interval(Range(x.range.last, s[i].range.last), s[i].contents)
    requires forall k :: 0 <= k < i ==> t[k] == s[k]
    requires forall k :: i + 3 <= k < |t| ==> t[k] == s[k - 2]
    ensures Sane(t)
  {
    forall k, l | 0 <= k < l < |t| ensures t[k].range.last <= t[l].range.first {
      var k' := if k < i then k else if k < i + 3 then i else k - 2;
      var l' := if l < i then l else if l < i + 3 then i else l - 2;
      if k' < l' { assert s[k'].range.last <= s[l'].range.first; }
    }
  }

  lemma SplitOwner<T>(s: seq<Interval<T>>, i: nat, x: Interval<T>, t: seq<Interval<T>>, p: int)
    requires Sane(s) && Sane(t) && i < |s| && |t| == |s| + 2
    requires s[i].range.first < x.range.first < x.range.last < s[i].range.last
    requires t[i] == Interval(Range(s[i].range.first, x.range.first), s[i].contents) && t[i + 1] == x
    requires t[i + 2] == Interval(Range(x.range.last, s[i].range.last), s[i].contents)
    requires forall k :: 0 <= k < i ==> t[k] == s[k]
    requires forall k :: i + 3 <= k < |t| ==> t[k] == s[k - 2]
    ensures At(t, p) == if x.range.Has(p) then Some(x.contents) else At(s, p)
  {
    hide Sane;
    if x.range.Has(p) {
      assert t[i + 1].range.Has(p);
    } else if k :| 0 <= k < |s| && s[k].range.Has(p) {
      var k' := if k < i then k else if k > i then k + 2 else if p < x.range.first then i else i + 2;
      assert t[k'].range.Has(p);
    } else {
      forall k | 0 <= k < |t| ensures !t[k].range.Has(p) {
        assert !s[if k < i then k else if k >= i + 3 then k - 2 else i].range.Has(p);
      }
    }
  }

  lemma Spliced<T>(s: seq<T>, i: nat, a: T, x: T, b: T)
    requires i < |s|
    ensures var t := s[i := a];
            var u := t[..i + 1] + [b] + t[i + 1..];
            u[..i + 1] + [x] + u[i + 1..] == s[..i] + [a, x, b] + s[i + 1..]
  {
    var t := s[i := a];
    assert t[..i + 1] == s[..i] + [a] && t[i + 1..] == s[i + 1..];
    var u := t[..i + 1] + [b] + t[i + 1..];
    assert u[..i + 1] == t[..i + 1] && u[i + 1..] == [b] + t[i + 1..];
  }
}
