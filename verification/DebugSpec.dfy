/** What the iterator debug database records, as two maps: the iterators listed by
    every container, in order, and the container every iterator belongs to. */
module DebugSpec {
  import opened Options
  import opened Seqs

  type Ptr = nat

  datatype State = State(conts: map<Ptr, seq<Ptr>>, iters: map<Ptr, Option<Ptr>>)

  const EMPTY_STATE := State(map[], map[])

  /** The two-way link: a container lists an iterator, once, iff the iterator points
      to the container, and iterators point to registered containers only. */
  ghost predicate TwoWay(s: State) {
    && (forall c :: c in s.conts ==> Unique(s.conts[c]))
    && (forall c, i :: c in s.conts ==> (i in s.conts[c] <==> i in s.iters && s.iters[i] == Some(c)))
    && (forall i :: i in s.iters && s.iters[i].Some? ==> s.iters[i].value in s.conts)
  }

  function Owner(s: State, i: Ptr): Option<Ptr> {
    if i in s.iters then s.iters[i] else None
  }

  // ---------- the operations ----------

  function IndexOf<T(==)>(s: seq<T>, i: T): (j: nat)
    requires i in s
    ensures j < |s| && s[j] == i && forall k :: 0 <= k < j ==> s[k] != i
  {
    if s[0] == i then 0 else 1 + IndexOf(s[1..], i)
  }

  function Without<T(==)>(s: seq<T>, i: T): seq<T>
    requires i in s
  {
    RemoveAt(s, IndexOf(s, i))
  }

  function InsertC(s: State, c: Ptr): State {
    s.(conts := s.conts[c := []])
  }

  function InsertI(s: State, i: Ptr): State {
    s.(iters := s.iters[i := None])
  }

  function Attach(s: State, i: Ptr, c: Ptr): State
    requires c in s.conts
  {
    State(s.conts[c := s.conts[c] + [i]], s.iters[i := Some(c)])
  }

  /** Leaves the iterator registered without a container. */
  function Detach(s: State, i: Ptr): State
    requires TwoWay(s) && i in s.iters
  {
    match s.iters[i]
    case None => s
    case Some(c) => State(s.conts[c := Without(s.conts[c], i)], s.iters[i := None])
  }

  function InsertIC(s: State, i: Ptr, c: Ptr): State {
    if c in s.conts then Attach(s, i, c) else s
  }

  function EraseI(s: State, i: Ptr): State
    requires TwoWay(s)
  {
    if i in s.iters then var t := Detach(s, i); t.(iters := t.iters - {i}) else s
  }

  function InvalidateAll(s: State, c: Ptr): State {
    if c in s.conts then
      State(s.conts[c := []], map i | i in s.iters :: if s.iters[i] == Some(c) then None else s.iters[i])
    else s
  }

  function EraseC(s: State, c: Ptr): State {
    var t := InvalidateAll(s, c);
    t.(conts := t.conts - {c})
  }

  function IteratorCopy(s: State, i: Ptr, from: Ptr): State
    requires TwoWay(s)
  {
    var registered := if i !in s.iters && from in s.iters then InsertI(s, i) else s;
    if i !in registered.iters || Owner(registered, i) == Owner(s, from) then registered
    else
      InsertIStillTwoWay(s, i);
      var loose := Detach(registered, i);
      match Owner(s, from)
      case None => loose
      case Some(c) => Attach(loose, i, c)
  }

  function Exchanged(c: Ptr, c1: Ptr, c2: Ptr): Ptr {
    if c == c1 then c2 else if c == c2 then c1 else c
  }

  function Swap(s: State, c1: Ptr, c2: Ptr): State
    requires c1 in s.conts && c2 in s.conts
  {
    State(s.conts[c1 := s.conts[c2]][c2 := s.conts[c1]],
          map i | i in s.iters ::
            match s.iters[i] case None => None case Some(c) => Some(Exchanged(c, c1, c2)))
  }

  predicate LessThanComparable(s: State, i: Ptr, j: Ptr) {
    Owner(s, i).Some? && Owner(s, i) == Owner(s, j)
  }

  // ---------- every operation keeps the two-way link ----------

  lemma InsertIStillTwoWay(s: State, i: Ptr)
    requires TwoWay(s)
    ensures i !in s.iters ==> TwoWay(InsertI(s, i))
  {}

  lemma InsertCStillTwoWay(s: State, c: Ptr)
    requires TwoWay(s) && c !in s.conts
    ensures TwoWay(InsertC(s, c))
  {}

  lemma WithoutLists<T>(s: seq<T>, i: T)
    requires Unique(s) && i in s
    ensures Unique(Without(s, i))
    ensures forall k :: k in Without(s, i) <==> k in s && k != i
  {
    var j := IndexOf(s, i);
    var t := Without(s, i);
    assert forall k :: 0 <= k < |t| ==> t[k] == s[if k < j then k else k + 1];
    forall k | k in s && k != i ensures k in t {
      var at :| 0 <= at < |s| && s[at] == k;
      assert t[if at < j then at else at - 1] == k;
    }
  }

  lemma DetachStillTwoWay(s: State, i: Ptr)
    requires TwoWay(s) && i in s.iters
    ensures TwoWay(Detach(s, i)) && Detach(s, i).iters == s.iters[i := None]
    ensures Detach(s, i).conts.Keys == s.conts.Keys
  {
    if s.iters[i].Some? { WithoutLists(s.conts[s.iters[i].value], i); }
  }

  lemma AttachStillTwoWay(s: State, i: Ptr, c: Ptr)
    requires TwoWay(s) && Owner(s, i) == None && c in s.conts
    ensures TwoWay(Attach(s, i, c))
  {
    var t := Attach(s, i, c);
    assert i !in s.conts[c];
    forall c', k | c' in t.conts
      ensures k in t.conts[c'] <==> k in t.iters && t.iters[k] == Some(c')
    {
      assert k in s.conts[c'] <==> k in s.iters && s.iters[k] == Some(c');
    }
  }

  lemma EraseIStillTwoWay(s: State, i: Ptr)
    requires TwoWay(s)
    ensures TwoWay(EraseI(s, i))
  {
    if i in s.iters { DetachStillTwoWay(s, i); }
  }

  lemma InvalidateAllStillTwoWay(s: State, c: Ptr)
    requires TwoWay(s)
    ensures TwoWay(InvalidateAll(s, c))
  {}

  lemma EraseCStillTwoWay(s: State, c: Ptr)
    requires TwoWay(s)
    ensures TwoWay(EraseC(s, c))
  {
    InvalidateAllStillTwoWay(s, c);
  }

  lemma IteratorCopyStillTwoWay(s: State, i: Ptr, from: Ptr)
    requires TwoWay(s)
    ensures TwoWay(IteratorCopy(s, i, from))
  {
    InsertIStillTwoWay(s, i);
    var registered := if i !in s.iters && from in s.iters then InsertI(s, i) else s;
    if i in registered.iters {
      DetachStillTwoWay(registered, i);
      if Owner(s, from).Some? && Owner(registered, i) != Owner(s, from) {
        AttachStillTwoWay(Detach(registered, i), i, Owner(s, from).value);
      }
    }
  }

  lemma SwapStillTwoWay(s: State, c1: Ptr, c2: Ptr)
    requires TwoWay(s) && c1 in s.conts && c2 in s.conts
    ensures TwoWay(Swap(s, c1, c2))
  {
    var t := Swap(s, c1, c2);
    forall c | c in t.conts ensures t.conts[c] == s.conts[Exchanged(c, c1, c2)] {}
    forall c, i | c in t.conts
      ensures i in t.conts[c] <==> i in t.iters && t.iters[i] == Some(c)
    {
      var d := Exchanged(c, c1, c2);
      assert t.conts[c] == s.conts[d];
      assert i in s.conts[d] <==> i in s.iters && s.iters[i] == Some(d);
    }
  }

  // ---------- runs ----------

  datatype Op =
    | OpInsertC(c: Ptr)
    | OpInsertI(i: Ptr)
    | OpInsertIC(i: Ptr, c: Ptr)
    | OpEraseI(i: Ptr)
    | OpInvalidateAll(c: Ptr)
    | OpEraseC(c: Ptr)
    | OpIteratorCopy(i: Ptr, from: Ptr)
    | OpSwap(c: Ptr, d: Ptr)

  /** Insertions are of unregistered keys; only registered containers are swapped. */
  predicate Allowed(s: State, op: Op) {
    match op
    case OpInsertC(c) => c !in s.conts
    case OpInsertI(i) => i !in s.iters
    case OpInsertIC(i, _) => i !in s.iters
    case OpSwap(c, d) => c in s.conts && d in s.conts
    case _ => true
  }

  function Step(s: State, op: Op): State
    requires TwoWay(s) && Allowed(s, op)
  {
    match op
    case OpInsertC(c) => InsertC(s, c)
    case OpInsertI(i) => InsertI(s, i)
    case OpInsertIC(i, c) => InsertIC(s, i, c)
    case OpEraseI(i) => EraseI(s, i)
    case OpInvalidateAll(c) => InvalidateAll(s, c)
    case OpEraseC(c) => EraseC(s, c)
    case OpIteratorCopy(i, from) => IteratorCopy(s, i, from)
    case OpSwap(c, d) => Swap(s, c, d)
  }

  lemma StepStillTwoWay(s: State, op: Op)
    requires TwoWay(s) && Allowed(s, op)
    ensures TwoWay(Step(s, op))
  {
    hide TwoWay;
    match op
    case OpInsertC(c) => InsertCStillTwoWay(s, c);
    case OpInsertI(i) => InsertIStillTwoWay(s, i);
    case OpInsertIC(i, c) => if c in s.conts { AttachStillTwoWay(s, i, c); }
    case OpEraseI(i) => EraseIStillTwoWay(s, i);
    case OpInvalidateAll(c) => InvalidateAllStillTwoWay(s, c);
    case OpEraseC(c) => EraseCStillTwoWay(s, c);
    case OpIteratorCopy(i, from) => IteratorCopyStillTwoWay(s, i, from);
    case OpSwap(c, d) => SwapStillTwoWay(s, c, d);
  }

  // ---------- the lists are only an index ----------

  /** All that an observer can tell: which containers are registered and where the
      registered iterators point. */
  datatype Pointing = Pointing(live: set<Ptr>, owner: map<Ptr, Option<Ptr>>)

  function View(s: State): Pointing {
    Pointing(s.conts.Keys, s.iters)
  }

  function OwnerIn(p: Pointing, i: Ptr): Option<Ptr> {
    if i in p.owner then p.owner[i] else None
  }

  /** The same operations without the lists. */
  function Pointed(p: Pointing, op: Op): Pointing {
    match op
    case OpInsertC(c) => p.(live := p.live + {c})
    case OpInsertI(i) => p.(owner := p.owner[i := None])
    case OpInsertIC(i, c) => if c in p.live then p.(owner := p.owner[i := Some(c)]) else p
    case OpEraseI(i) => p.(owner := p.owner - {i})
    case OpInvalidateAll(c) => p.(owner := map i | i in p.owner :: if p.owner[i] == Some(c) then None else p.owner[i])
    case OpEraseC(c) =>
      Pointing(p.live - {c}, map i | i in p.owner :: if p.owner[i] == Some(c) then None else p.owner[i])
    case OpIteratorCopy(i, from) =>
      if i in p.owner || from in p.owner then p.(owner := p.owner[i := OwnerIn(p, from)]) else p
    case OpSwap(c, d) =>
      p.(owner := map i | i in p.owner ::
           if p.owner[i] == Some(c) then Some(d) else if p.owner[i] == Some(d) then Some(c) else p.owner[i])
  }

  /** Every operation does to the lists exactly what keeps them an index of the
      pointers: it commutes with forgetting the lists. */
  lemma StepRefines(s: State, op: Op)
    requires TwoWay(s) && Allowed(s, op)
    ensures View(Step(s, op)) == Pointed(View(s), op)
  {
    match op
    case OpInsertC(c) =>
    case OpInsertI(i) =>
    case OpInsertIC(i, c) =>
    case OpEraseI(i) => EraseIRefines(s, i);
    case OpInvalidateAll(c) => NothingToInvalidate(s, c);
    case OpEraseC(c) => NothingToInvalidate(s, c);
    case OpIteratorCopy(i, from) => IteratorCopyRefines(s, i, from);
    case OpSwap(c, d) =>
  }

  lemma NothingToInvalidate(s: State, c: Ptr)
    requires TwoWay(s)
    ensures InvalidateAll(s, c).iters ==
            map i | i in s.iters :: if s.iters[i] == Some(c) then None else s.iters[i]
  {}

  lemma EraseIRefines(s: State, i: Ptr)
    requires TwoWay(s)
    ensures View(EraseI(s, i)) == Pointed(View(s), OpEraseI(i))
  {
    if i in s.iters { DetachStillTwoWay(s, i); }
    assert EraseI(s, i).iters == s.iters - {i};
  }

  lemma IteratorCopyRefines(s: State, i: Ptr, from: Ptr)
    requires TwoWay(s)
    ensures View(IteratorCopy(s, i, from)) == Pointed(View(s), OpIteratorCopy(i, from))
  {
    InsertIStillTwoWay(s, i);
    var registered := if i !in s.iters && from in s.iters then InsertI(s, i) else s;
    if i in registered.iters {
      DetachStillTwoWay(registered, i);
      if Owner(registered, i) == Owner(s, from) {
        assert registered.iters == s.iters[i := Owner(s, from)];
      }
    }
  }

  ghost predicate AllowedRun(s: State, ops: seq<Op>)
    requires TwoWay(s)
    decreases ops
  {
    ops == [] || (Allowed(s, ops[0]) && (StepStillTwoWay(s, ops[0]); AllowedRun(Step(s, ops[0]), ops[1..])))
  }

  ghost function Run(s: State, ops: seq<Op>): State
    requires TwoWay(s) && AllowedRun(s, ops)
    decreases ops
  {
    if ops == [] then s else StepStillTwoWay(s, ops[0]); Run(Step(s, ops[0]), ops[1..])
  }

  function PointedRun(p: Pointing, ops: seq<Op>): Pointing
    decreases ops
  {
    if ops == [] then p else PointedRun(Pointed(p, ops[0]), ops[1..])
  }

  /** Over every run the two-way link holds and the lists can be forgotten. */
  lemma {:induction false} RunRefines(s: State, ops: seq<Op>)
    requires TwoWay(s) && AllowedRun(s, ops)
    ensures TwoWay(Run(s, ops)) && View(Run(s, ops)) == PointedRun(View(s), ops)
    decreases ops
  {
    if ops != [] {
      StepStillTwoWay(s, ops[0]);
      StepRefines(s, ops[0]);
      RunRefines(Step(s, ops[0]), ops[1..]);
    }
  }

  /** From the empty database, every iterator points to nothing or to a container
      that is registered and lists it. */
  lemma NoDanglingPointers(ops: seq<Op>, i: Ptr)
    requires AllowedRun(EMPTY_STATE, ops)
    ensures var s := Run(EMPTY_STATE, ops);
            i in s.iters && s.iters[i].Some? ==>
              s.iters[i].value in s.conts && multiset(s.conts[s.iters[i].value])[i] == 1
  {
    RunRefines(EMPTY_STATE, ops);
    var s := Run(EMPTY_STATE, ops);
    if i in s.iters && s.iters[i].Some? {
      UniqueOnce(s.conts[s.iters[i].value], i);
    }
  }

  // ---------- what operations undo ----------

  lemma SwapTwice(s: State, c1: Ptr, c2: Ptr)
    requires TwoWay(s) && c1 in s.conts && c2 in s.conts
    ensures Swap(Swap(s, c1, c2), c1, c2) == s
  {
    var t := Swap(Swap(s, c1, c2), c1, c2);
    assert t.conts == s.conts;
    forall i | i in s.iters ensures t.iters[i] == s.iters[i] {
      match s.iters[i]
      case None =>
      case Some(c) => assert Exchanged(Exchanged(c, c1, c2), c1, c2) == c;
    }
    assert t.iters == s.iters;
  }

  lemma InsertThenErase(s: State, i: Ptr, c: Ptr)
    requires TwoWay(s) && i !in s.iters
    ensures TwoWay(InsertIC(s, i, c)) && EraseI(InsertIC(s, i, c), i) == s
  {
    if c in s.conts {
      AttachStillTwoWay(s, i, c);
      var list := s.conts[c] + [i];
      assert i !in s.conts[c];
      assert forall j :: 0 <= j < |s.conts[c]| ==> list[j] == s.conts[c][j];
      assert Without(list, i) == s.conts[c];
      assert EraseI(InsertIC(s, i, c), i).iters == s.iters;
      assert EraseI(InsertIC(s, i, c), i).conts == s.conts;
    }
  }

  /** Some container lists both iterators. */
  ghost predicate ListedTogether(s: State, i: Ptr, j: Ptr) {
    exists c :: c in s.conts && i in s.conts[c] && j in s.conts[c]
  }

  /** Then, and only then, they can be compared. */
  lemma ComparableMeans(s: State, i: Ptr, j: Ptr)
    requires TwoWay(s)
    ensures LessThanComparable(s, i, j) <==> ListedTogether(s, i, j)
  {
    if LessThanComparable(s, i, j) {
      var c := s.iters[i].value;
      assert i in s.conts[c] && j in s.conts[c];
    }
  }

  /** A copied iterator can be compared with the original iff the original has a container. */
  lemma CopyComparable(s: State, i: Ptr, from: Ptr)
    requires TwoWay(s)
    ensures LessThanComparable(IteratorCopy(s, i, from), i, from) <==> Owner(s, from).Some?
  {
    IteratorCopyRefines(s, i, from);
    var p := View(IteratorCopy(s, i, from));
    assert p.owner == IteratorCopy(s, i, from).iters;
  }
}
