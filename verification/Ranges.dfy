/** Half-open intervals of bit positions, [first, last).  All empty ranges are
    the same range as far as Same is concerned. */
module Ranges {

  datatype Range = Range(first: int, last: int) {

    predicate Empty() {
      last <= first
    }

    function Width(): nat {
      if Empty() then 0 else last - first
    }

    predicate Has(p: int) {
      first <= p < last
    }

    predicate Same(other: Range) {
      (Empty() && other.Empty()) || (first == other.first && last == other.last)
    }

    predicate Contains(r: Range)
      ensures Contains(r) <==> forall p :: r.Has(p) ==> Has(p)
    {
      assert !r.Empty() ==> r.Has(r.first) && r.Has(r.last - 1);
      r.Empty() || (!Empty() && first <= r.first && last >= r.last)
    }

    predicate Intersects(r: Range)
      ensures Intersects(r) <==> exists p :: Has(p) && r.Has(p)
    {
      var p := if first > r.first then first else r.first;
      assert !Empty() && !r.Empty() && r.first < last && r.last > first ==> Has(p) && r.Has(p);
      !Empty() && !r.Empty() && r.first < last && r.last > first
    }

    function Displace(offset: int): (r: Range)
      ensures forall p :: r.Has(p) <==> Has(p - offset)
    {
      if Empty() then Range(0, 0) else Range(first + offset, last + offset)
    }

    /** The smallest range containing both. */
    function Join(other: Range): (r: Range)
      ensures r.Contains(this) && r.Contains(other)
      ensures forall q: Range :: q.Contains(this) && q.Contains(other) ==> q.Contains(r)
    {
      if Empty() then other
      else if other.Empty() then this
      else Range(if first < other.first then first else other.first,
                 if last > other.last then last else other.last)
    }

    function Meet(other: Range): (r: Range)
      ensures forall p :: r.Has(p) <==> Has(p) && other.Has(p)
    {
      if Empty() || other.Empty() then Range(0, 0)
      else Range(if first > other.first then first else other.first,
                 if last < other.last then last else other.last)
    }
  }
}
