/** Placement of struct elements in memory: alignment padding before each
    element unless the struct is packed, tail padding up to the struct's own
    alignment.  Sizes, offsets and alignments are in bytes. */
module StructLayouts {
  import opened Arith

  /** Allocation size and ABI alignment of one element. */
  datatype Slot = Slot(size: nat, align: nat)

  ghost predicate WellFormed(slots: seq<Slot>) {
    forall i :: 0 <= i < |slots| ==> slots[i].align >= 1
  }

  function RoundUp(x: nat, a: nat): (r: nat)
    requires a >= 1
    ensures x <= r < x + a && r % a == 0
  {
    RoundUpFacts(x, a);
    (x + a - 1) / a * a
  }

  lemma RoundUpFacts(x: nat, a: nat)
    requires a >= 1
    ensures x <= (x + a - 1) / a * a < x + a
    ensures ((x + a - 1) / a * a) % a == 0
  {
    var q := (x + a - 1) / a;
    assert x + a - 1 == q * a + (x + a - 1) % a;
    MultipleMod(q, a);
  }

  /** Rounding to a multiple is decided by where the multiples are. */
  lemma RoundUpIs(x: nat, a: nat, y: nat)
    requires a >= 1 && y % a == 0 && x <= y < x + a
    ensures RoundUp(x, a) == y
  {
    CloseMultiples(RoundUp(x, a), y, a);
  }

  function ElementAlign(slots: seq<Slot>, packed: bool, i: nat): (r: nat)
    requires WellFormed(slots) && i < |slots|
    ensures r >= 1
  {
    if packed then 1 else slots[i].align
  }

  /** First byte after the first k elements. */
  function End(slots: seq<Slot>, packed: bool, k: nat): nat
    requires WellFormed(slots) && k <= |slots|
    decreases k, 0
  {
    if k == 0 then 0 else Offset(slots, packed, k - 1) + slots[k - 1].size
  }

  function Offset(slots: seq<Slot>, packed: bool, i: nat): (r: nat)
    requires WellFormed(slots) && i < |slots|
    decreases i, 1
  {
    RoundUp(End(slots, packed, i), ElementAlign(slots, packed, i))
  }

  function AlignmentOfFirst(slots: seq<Slot>, packed: bool, k: nat): (r: nat)
    requires WellFormed(slots) && k <= |slots|
    ensures r >= 1
    ensures forall i :: 0 <= i < k ==> ElementAlign(slots, packed, i) <= r
    ensures r == 1 || exists i :: 0 <= i < k && ElementAlign(slots, packed, i) == r
  {
    if k == 0 then 1
    else
      var before := AlignmentOfFirst(slots, packed, k - 1);
      var a := ElementAlign(slots, packed, k - 1);
      if a > before then a else before
  }

  function Alignment(slots: seq<Slot>, packed: bool): (r: nat)
    requires WellFormed(slots)
    ensures r >= 1
  {
    AlignmentOfFirst(slots, packed, |slots|)
  }

  function Size(slots: seq<Slot>, packed: bool): nat
    requires WellFormed(slots)
  {
    RoundUp(End(slots, packed, |slots|), Alignment(slots, packed))
  }

  /** Elements are laid out in order without overlap, inside the struct. */
  lemma {:induction false} OffsetsOrdered(slots: seq<Slot>, packed: bool, i: nat, j: nat)
    requires WellFormed(slots) && i < j <= |slots|
    ensures Offset(slots, packed, i) + slots[i].size <= End(slots, packed, j)
    ensures j < |slots| ==> Offset(slots, packed, i) + slots[i].size <= Offset(slots, packed, j)
    ensures Offset(slots, packed, i) + slots[i].size <= Size(slots, packed)
  {
    EndMonotone(slots, packed, i + 1, j);
    EndMonotone(slots, packed, j, |slots|);
  }

  lemma {:induction false} EndMonotone(slots: seq<Slot>, packed: bool, i: nat, j: nat)
    requires WellFormed(slots) && i <= j <= |slots|
    ensures End(slots, packed, i) <= End(slots, packed, j)
  {
    if i < j { EndMonotone(slots, packed, i, j - 1); }
  }

  /** The layout of the first elements does not depend on the later ones. */
  lemma {:induction false} EndPrefix(slots: seq<Slot>, more: seq<Slot>, packed: bool, k: nat)
    requires WellFormed(slots) && WellFormed(more) && WellFormed(slots + more) && k <= |slots|
    ensures End(slots + more, packed, k) == End(slots, packed, k)
    ensures k < |slots| ==> Offset(slots + more, packed, k) == Offset(slots, packed, k)
  {
    if k > 0 { EndPrefix(slots, more, packed, k - 1); }
  }

  /** The element found for a byte is the last one that starts at or before it;
      with zero-sized elements several can share an offset. */
  method ElementContainingOffset(slots: seq<Slot>, packed: bool, byte: nat) returns (i: nat)
    requires WellFormed(slots) && |slots| > 0 && byte < Size(slots, packed)
    ensures i < |slots|
    ensures Offset(slots, packed, i) <= byte
    ensures forall j :: i < j < |slots| ==> byte < Offset(slots, packed, j)
  {
    assert Offset(slots, packed, 0) == 0 by {
      RoundUpIs(0, ElementAlign(slots, packed, 0), 0);
    }
    // upper_bound over the member offsets, then one step back.
    var lo, hi := 1, |slots|;
    while lo < hi
      invariant 1 <= lo <= hi <= |slots|
      invariant Offset(slots, packed, lo - 1) <= byte
      invariant hi < |slots| ==> byte < Offset(slots, packed, hi)
    {
      var mid := (lo + hi) / 2;
      if Offset(slots, packed, mid) <= byte {
        lo := mid + 1;
      } else {
        hi := mid;
      }
    }
    i := lo - 1;
    forall j | i < j < |slots| ensures byte < Offset(slots, packed, j) {
      if hi < j { OffsetsOrdered(slots, packed, hi, j); }
    }
  }
}
