/** Learning which alias sets are leaves of a graph that can only be asked whether one
    set reaches another, one query at a time. */
module AliasSpec {
  import opened Options
  import opened Seqs

  type AliasSet = int

  /** There is a path from the first set to the second. */
  type Reaching = (AliasSet, AliasSet) -> bool

  /** Metadata: the root, or a node of its own hanging off the root. */
  datatype Tag = Root | Leaf(of: AliasSet)

  datatype Instruction = Instruction(aliasSet: AliasSet, tag: Option<Tag>)

  datatype State = State(nodeTags: map<AliasSet, Option<Tag>>, leaves: seq<AliasSet>, instructions: seq<Instruction>)

  const EMPTY_STATE := State(map[], [], [])

  ghost predicate Transitive(reaches: Reaching) {
    forall a, b, c :: reaches(a, b) && reaches(b, c) ==> reaches(a, c)
  }

  ghost predicate AliasGraph(reaches: Reaching) {
    Transitive(reaches) && forall a :: reaches(0, a)
  }

  // ---------- one query ----------

  predicate ReachesLeaf(reaches: Reaching, leaves: seq<AliasSet>, a: AliasSet) {
    exists i :: 0 <= i < |leaves| && reaches(a, leaves[i])
  }

  /** The set is known not to be a leaf. */
  predicate Discarded(reaches: Reaching, leaves: seq<AliasSet>, a: AliasSet) {
    (leaves == [] && reaches(a, 0)) || ReachesLeaf(reaches, leaves, a)
  }

  function Kept(reaches: Reaching, leaves: seq<AliasSet>, a: AliasSet): (kept: seq<AliasSet>)
    ensures forall l :: l in kept <==> l in leaves && !reaches(l, a)
  {
    if leaves == [] then []
    else (if reaches(leaves[0], a) then [] else [leaves[0]]) + Kept(reaches, leaves[1..], a)
  }

  /** The tag after the nodes of some leaves were replaced by the root. */
  function Replaced(tag: Option<Tag>, evicted: set<AliasSet>): Option<Tag> {
    match tag
    case Some(Leaf(l)) => if l in evicted then Some(Root) else tag
    case _ => tag
  }

  function Rewritten(instructions: seq<Instruction>, evicted: set<AliasSet>): seq<Instruction> {
    seq(|instructions|, i requires 0 <= i < |instructions| =>
      instructions[i].(tag := Replaced(instructions[i].tag, evicted)))
  }

  function Evicted(reaches: Reaching, leaves: seq<AliasSet>, a: AliasSet): set<AliasSet> {
    set l | l in leaves && reaches(l, a)
  }

  function Query(reaches: Reaching, s: State, a: AliasSet): State {
    if a <= 0 || a in s.nodeTags then s
    else if Discarded(reaches, s.leaves, a) then s.(nodeTags := s.nodeTags[a := None])
    else
      var evicted := Evicted(reaches, s.leaves, a);
      State((map k | k in s.nodeTags :: if k in evicted then None else s.nodeTags[k])[a := Some(Leaf(a))],
            Kept(reaches, s.leaves, a) + [a],
            Rewritten(s.instructions, evicted))
  }

  function TagOf(s: State, a: AliasSet): Option<Tag> {
    if a in s.nodeTags then s.nodeTags[a] else None
  }

  /** A query whose answer is attached to an instruction. */
  function Annotate(reaches: Reaching, s: State, a: AliasSet): State {
    var t := Query(reaches, s, a);
    t.(instructions := t.instructions + [Instruction(a, TagOf(t, a))])
  }

  // ---------- what queries keep ----------

  ghost predicate Valid(reaches: Reaching, s: State) {
    && Unique(s.leaves)
    && (forall l :: l in s.leaves ==> l > 0 && l in s.nodeTags && !reaches(l, 0))
    && (forall l, m :: l in s.leaves && m in s.leaves && l != m ==> !reaches(l, m))
    && (forall k :: k in s.nodeTags ==> k > 0 && s.nodeTags[k] == if k in s.leaves then Some(Leaf(k)) else None)
    && (forall k :: k in s.nodeTags && k !in s.leaves ==> reaches(k, 0) || ReachesLeaf(reaches, s.leaves, k))
    && (forall i {:trigger s.instructions[i]} :: 0 <= i < |s.instructions| ==>
          && RightTag(s.leaves, s.instructions[i])
          && (s.instructions[i].aliasSet > 0 ==> s.instructions[i].aliasSet in s.nodeTags))
  }

  /** An instruction has the node of its set exactly if the set is a leaf. */
  ghost predicate RightTag(leaves: seq<AliasSet>, i: Instruction) {
    if i.aliasSet in leaves then i.tag == Some(Leaf(i.aliasSet)) else i.tag == None || i.tag == Some(Root)
  }

  lemma ReachesIt(reaches: Reaching, leaves: seq<AliasSet>, a: AliasSet, l: AliasSet)
    requires l in leaves && reaches(a, l)
    ensures ReachesLeaf(reaches, leaves, a)
  {
    var i :| 0 <= i < |leaves| && leaves[i] == l;
    assert reaches(a, leaves[i]);
  }

  /** The assertion that a set which is not discarded does not reach the root. */
  lemma NotRoot(reaches: Reaching, leaves: seq<AliasSet>, a: AliasSet)
    requires AliasGraph(reaches) && !Discarded(reaches, leaves, a)
    ensures !reaches(a, 0)
  {
    forall i | 0 <= i < |leaves| ensures reaches(a, 0) ==> reaches(a, leaves[i]) {
      var l: AliasSet := leaves[i];
      assert reaches(0, l);
    }
    assert leaves != [] ==> leaves[0] in leaves;
  }

  lemma {:induction false} KeptUnique(reaches: Reaching, leaves: seq<AliasSet>, a: AliasSet)
    requires Unique(leaves)
    ensures Unique(Kept(reaches, leaves, a))
  {
    if leaves != [] {
      var rest := Kept(reaches, leaves[1..], a);
      KeptUnique(reaches, leaves[1..], a);
      assert Unique(rest) && leaves[0] !in leaves[1..] && leaves[0] !in rest;
      assert Unique([leaves[0]] + rest);
      assert [] + rest == rest;
    }
  }

  lemma QueryValid(reaches: Reaching, s: State, a: AliasSet)
    requires AliasGraph(reaches) && Valid(reaches, s)
    ensures Valid(reaches, Query(reaches, s, a))
  {
    if a > 0 && a !in s.nodeTags && !Discarded(reaches, s.leaves, a) {
      var t := Query(reaches, s, a);
      NotRoot(reaches, s.leaves, a);
      KeptUnique(reaches, s.leaves, a);
      forall l | l in s.leaves ensures !reaches(a, l) {
        if reaches(a, l) { ReachesIt(reaches, s.leaves, a, l); }
      }
      forall k | k in t.nodeTags && k !in t.leaves && !reaches(k, 0) ensures ReachesLeaf(reaches, t.leaves, k) {
        StillReaches(reaches, s, a, k);
      }
      assert a !in Kept(reaches, s.leaves, a);
      forall i | 0 <= i < |t.instructions|
        ensures RightTag(t.leaves, t.instructions[i])
        ensures t.instructions[i].aliasSet > 0 ==> t.instructions[i].aliasSet in t.nodeTags
      {
        assert RightTag(s.leaves, s.instructions[i]);
      }
    }
  }

  /** A set that is not a leaf reaches a leaf still. */
  lemma StillReaches(reaches: Reaching, s: State, a: AliasSet, k: AliasSet)
    requires AliasGraph(reaches) && Valid(reaches, s) && k in s.nodeTags && !reaches(k, 0)
    requires k !in Kept(reaches, s.leaves, a)
    ensures ReachesLeaf(reaches, Kept(reaches, s.leaves, a) + [a], k)
  {
    var leaves := Kept(reaches, s.leaves, a) + [a];
    if k in s.leaves {
      ReachesIt(reaches, leaves, k, a);
    } else {
      var i :| 0 <= i < |s.leaves| && reaches(k, s.leaves[i]);
      var l := s.leaves[i];
      ReachesIt(reaches, leaves, k, if reaches(l, a) then a else l);
    }
  }

  lemma AnnotateValid(reaches: Reaching, s: State, a: AliasSet)
    requires AliasGraph(reaches) && Valid(reaches, s)
    ensures Valid(reaches, Annotate(reaches, s, a))
  {
    QueryValid(reaches, s, a);
  }

  // ---------- runs ----------

  function Run(reaches: Reaching, s: State, queries: seq<AliasSet>): State
    decreases queries
  {
    if queries == [] then s else Annotate(reaches, Run(reaches, s, queries[..|queries| - 1]), queries[|queries| - 1])
  }

  lemma {:induction false} RunValid(reaches: Reaching, queries: seq<AliasSet>)
    requires AliasGraph(reaches)
    ensures Valid(reaches, Run(reaches, EMPTY_STATE, queries))
    decreases queries
  {
    if queries != [] {
      RunValid(reaches, queries[..|queries| - 1]);
      AnnotateValid(reaches, Run(reaches, EMPTY_STATE, queries[..|queries| - 1]), queries[|queries| - 1]);
    }
  }

  /** After any run, instructions with different nodes of their own access sets
      neither of which reaches the other. */
  lemma Soundness(reaches: Reaching, queries: seq<AliasSet>, i: nat, j: nat)
    requires AliasGraph(reaches)
    requires var s := Run(reaches, EMPTY_STATE, queries); i < |s.instructions| && j < |s.instructions|
    ensures var s := Run(reaches, EMPTY_STATE, queries);
            var x, y := s.instructions[i], s.instructions[j];
            x.tag.Some? && y.tag.Some? && x.tag != y.tag && x.tag.value != Root && y.tag.value != Root ==>
              !reaches(x.aliasSet, y.aliasSet) && !reaches(y.aliasSet, x.aliasSet)
  {
    RunValid(reaches, queries);
    var s := Run(reaches, EMPTY_STATE, queries);
    assert RightTag(s.leaves, s.instructions[i]) && RightTag(s.leaves, s.instructions[j]);
  }

  // ---------- which sets end up as leaves ----------

  /** A queried set that need not be merged with the root. */
  predicate Candidate(reaches: Reaching, queries: seq<AliasSet>, a: AliasSet) {
    a in queries && a > 0 && !reaches(a, 0)
  }

  function First(queries: seq<AliasSet>, a: AliasSet): (n: nat)
    requires a in queries
    ensures n < |queries| && queries[n] == a && forall k :: 0 <= k < n ==> queries[k] != a
  {
    if queries[0] == a then 0 else 1 + First(queries[1..], a)
  }

  /** The candidate reaches only candidates that reach it in turn and that were
      queried later. */
  ghost predicate FirstMinimal(reaches: Reaching, queries: seq<AliasSet>, a: AliasSet) {
    && Candidate(reaches, queries, a)
    && forall b :: Candidate(reaches, queries, b) && b != a && reaches(a, b) ==>
         reaches(b, a) && First(queries, a) < First(queries, b)
  }

  lemma {:induction false} RunTags(reaches: Reaching, queries: seq<AliasSet>)
    ensures forall a :: a in Run(reaches, EMPTY_STATE, queries).nodeTags <==> a in queries && a > 0
    decreases queries
  {
    if queries != [] {
      var before, last := queries[..|queries| - 1], queries[|queries| - 1];
      RunTags(reaches, before);
      assert queries == before + [last];
    }
  }

  /** After any run the leaves are the sets that are minimal among those queried, and
      of those that reach each other, the first. */
  lemma FinalLeaves(reaches: Reaching, queries: seq<AliasSet>, a: AliasSet)
    requires AliasGraph(reaches)
    ensures a in Run(reaches, EMPTY_STATE, queries).leaves <==> FirstMinimal(reaches, queries, a)
  {
    var s := Run(reaches, EMPTY_STATE, queries);
    RunValid(reaches, queries);
    RunTags(reaches, queries);
    if a in s.leaves {
      forall b | Candidate(reaches, queries, b) && b != a && reaches(a, b)
        ensures reaches(b, a) && First(queries, a) < First(queries, b)
      {
        var i :| 0 <= i < |s.leaves| && reaches(b, s.leaves[i]);
        assert s.leaves[i] == a;
        LeafFirst(reaches, queries, a, b);
      }
    } else if Candidate(reaches, queries, a) {
      var i :| 0 <= i < |s.leaves| && reaches(a, s.leaves[i]);
      var l := s.leaves[i];
      if reaches(l, a) { LeafFirst(reaches, queries, l, a); }
    }
  }

  lemma LeafStays(reaches: Reaching, queries: seq<AliasSet>, n: nat, a: AliasSet)
    requires AliasGraph(reaches) && n <= |queries| && a in Run(reaches, EMPTY_STATE, queries).leaves
    requires a in queries[..n]
    ensures a in Run(reaches, EMPTY_STATE, queries[..n]).leaves
    decreases |queries| - n
  {
    hide Annotate;
    hide Query;
    hide Valid;
    if n == |queries| {
      assert queries[..n] == queries;
    } else {
      LeafStays(reaches, queries, n + 1, a);
      RunStep(reaches, queries, n);
      RunTags(reaches, queries[..n]);
      LeafPositive(reaches, queries, a);
      LeafBefore(reaches, Run(reaches, EMPTY_STATE, queries[..n]), queries[n], a);
    }
  }

  lemma RunStep(reaches: Reaching, queries: seq<AliasSet>, n: nat)
    requires n < |queries|
    ensures Run(reaches, EMPTY_STATE, queries[..n + 1]) ==
            Annotate(reaches, Run(reaches, EMPTY_STATE, queries[..n]), queries[n])
  {
    hide Annotate;
    var now := queries[..n + 1];
    assert now[..|now| - 1] == queries[..n];
  }

  lemma LeafPositive(reaches: Reaching, queries: seq<AliasSet>, a: AliasSet)
    requires AliasGraph(reaches) && a in Run(reaches, EMPTY_STATE, queries).leaves
    ensures a > 0
  {
    RunValid(reaches, queries);
  }

  lemma LeafBefore(reaches: Reaching, s: State, b: AliasSet, a: AliasSet)
    requires a in Annotate(reaches, s, b).leaves && a in s.nodeTags
    ensures a in s.leaves
  {}

  /** A leaf was queried before any other set that it reaches. */
  lemma LeafFirst(reaches: Reaching, queries: seq<AliasSet>, a: AliasSet, b: AliasSet)
    requires AliasGraph(reaches) && a in Run(reaches, EMPTY_STATE, queries).leaves
    requires a in queries && Candidate(reaches, queries, b) && a != b && reaches(a, b)
    ensures First(queries, a) < First(queries, b)
  {
    hide Annotate;
    hide Query;
    hide Valid;
    LeafPositive(reaches, queries, a);
    var n, m := First(queries, a), First(queries, b);
    if m < n {
      var before := queries[..n];
      LeafStays(reaches, queries, n + 1, a);
      RunStep(reaches, queries, n);
      RunValid(reaches, before);
      RunTags(reaches, before);
      assert b == before[m];
      NotALeaf(reaches, Run(reaches, EMPTY_STATE, before), a, b);
    }
  }

  /** A set that reaches one queried before does not become a leaf. */
  lemma NotALeaf(reaches: Reaching, s: State, a: AliasSet, b: AliasSet)
    requires AliasGraph(reaches) && Valid(reaches, s) && a !in s.nodeTags && a > 0
    requires b in s.nodeTags && !reaches(b, 0) && reaches(a, b)
    ensures a !in Annotate(reaches, s, a).leaves
  {
    if b in s.leaves {
      ReachesIt(reaches, s.leaves, a, b);
    } else {
      var i :| 0 <= i < |s.leaves| && reaches(b, s.leaves[i]);
      ReachesIt(reaches, s.leaves, a, s.leaves[i]);
    }
  }

  // ---------- what instructions end up with ----------

  /** What another access does to an instruction that is there already: the node of a
      leaf that is one no more becomes the root, and nothing else changes. */
  lemma TagStep(reaches: Reaching, s: State, a: AliasSet, n: nat)
    requires AliasGraph(reaches) && Valid(reaches, s) && n < |s.instructions|
    ensures var t := Annotate(reaches, s, a);
            var was, now := s.instructions[n], t.instructions[n];
            && |t.instructions| == |s.instructions| + 1 && now.aliasSet == was.aliasSet
            && (was.aliasSet in t.leaves ==> was.aliasSet in s.leaves)
            && now.tag == if was.aliasSet in s.leaves && was.aliasSet !in t.leaves then Some(Root) else was.tag
  {
    assert RightTag(s.leaves, s.instructions[n]);
    var was := s.instructions[n];
    if was.aliasSet > 0 { assert was.aliasSet in s.nodeTags; }
  }

  lemma NewTag(reaches: Reaching, s: State, a: AliasSet)
    requires AliasGraph(reaches) && Valid(reaches, s)
    ensures var t := Annotate(reaches, s, a);
            t.instructions[|s.instructions|] == Instruction(a, if a in t.leaves then Some(Leaf(a)) else None)
  {
    AnnotateValid(reaches, s, a);
  }

  /** After any run every access has kept its place and its set. Its tag is the node of
      its own if its set is a leaf now, the root if it was one at the time of the access,
      and else it has none: a tag is rewritten, but never lost or added later. */
  lemma {:induction false} TagHistory(reaches: Reaching, queries: seq<AliasSet>, n: nat)
    requires AliasGraph(reaches) && n < |queries|
    ensures var s, early := Run(reaches, EMPTY_STATE, queries), Run(reaches, EMPTY_STATE, queries[..n + 1]);
            var a := queries[n];
            && |s.instructions| == |queries| && s.instructions[n].aliasSet == a
            && (a in s.leaves ==> a in early.leaves)
            && s.instructions[n].tag ==
               if a in s.leaves then Some(Leaf(a)) else if a in early.leaves then Some(Root) else None
    decreases queries
  {
    hide Annotate;
    hide Valid;
    var before, last := queries[..|queries| - 1], queries[|queries| - 1];
    var was := Run(reaches, EMPTY_STATE, before);
    RunValid(reaches, before);
    RunLength(reaches, before);
    if n == |before| {
      assert queries[..n + 1] == queries;
      NewTag(reaches, was, last);
      RunLength(reaches, queries);
    } else {
      TagHistory(reaches, before, n);
      assert before[..n + 1] == queries[..n + 1];
      TagStep(reaches, was, last, n);
    }
  }

  lemma {:induction false} RunLength(reaches: Reaching, queries: seq<AliasSet>)
    ensures |Run(reaches, EMPTY_STATE, queries).instructions| == |queries|
    decreases queries
  {
    if queries != [] { RunLength(reaches, queries[..|queries| - 1]); }
  }

  /** In terms of the graph alone: an access has a tag iff its set was a first minimal
      one of the sets queried up to then, and the tag is its own node iff it still is. */
  lemma FinalTags(reaches: Reaching, queries: seq<AliasSet>, n: nat)
    requires AliasGraph(reaches) && n < |queries|
    ensures |Run(reaches, EMPTY_STATE, queries).instructions| == |queries|
    ensures var i := Run(reaches, EMPTY_STATE, queries).instructions[n];
            && i.aliasSet == queries[n]
            && (i.tag.Some? <==> FirstMinimal(reaches, queries[..n + 1], queries[n]))
            && (i.tag == Some(Leaf(queries[n])) <==> FirstMinimal(reaches, queries, queries[n]))
            && i.tag in {None, Some(Root), Some(Leaf(queries[n]))}
  {
    hide FirstMinimal;
    hide Run;
    TagHistory(reaches, queries, n);
    FinalLeaves(reaches, queries, queries[n]);
    FinalLeaves(reaches, queries[..n + 1], queries[n]);
  }

  // ---------- the order of queries ----------

  /** Two different sets reach each other and neither reaches anything below. */
  ghost predicate Tie(reaches: Reaching, queries: seq<AliasSet>, a: AliasSet, b: AliasSet) {
    && Candidate(reaches, queries, a) && Candidate(reaches, queries, b) && a != b
    && reaches(a, b) && reaches(b, a)
    && forall c :: Candidate(reaches, queries, c) && reaches(a, c) ==> reaches(c, a)
  }

  /** The same sets are queried, in some order and any number of times. */
  ghost predicate SameQueries(p: seq<AliasSet>, q: seq<AliasSet>) {
    forall a :: a in p <==> a in q
  }

  ghost predicate OrderIndependent(reaches: Reaching, queries: seq<AliasSet>) {
    forall p, a :: SameQueries(p, queries) ==>
      (a in Run(reaches, EMPTY_STATE, p).leaves <==> a in Run(reaches, EMPTY_STATE, queries).leaves)
  }

  /** The leaves do not depend on the order of queries iff there are no ties; in
      particular when no two sets reach each other. */
  lemma OrderIndependence(reaches: Reaching, queries: seq<AliasSet>)
    requires AliasGraph(reaches)
    ensures OrderIndependent(reaches, queries) <==> forall a, b :: !Tie(reaches, queries, a, b)
  {
    if a, b :| Tie(reaches, queries, a, b) {
      TieMatters(reaches, queries, a, b);
    } else {
      forall p, a | SameQueries(p, queries)
        ensures a in Run(reaches, EMPTY_STATE, p).leaves <==> a in Run(reaches, EMPTY_STATE, queries).leaves
      {
        FinalLeaves(reaches, p, a);
        FinalLeaves(reaches, queries, a);
        MinimalInAnyOrder(reaches, queries, p, queries, a);
        MinimalInAnyOrder(reaches, queries, queries, p, a);
      }
    }
  }

  lemma MinimalInAnyOrder(reaches: Reaching, queries: seq<AliasSet>, p: seq<AliasSet>, q: seq<AliasSet>, a: AliasSet)
    requires AliasGraph(reaches) && (forall b, c :: !Tie(reaches, queries, b, c))
    requires SameQueries(p, queries) && SameQueries(q, queries)
    ensures FirstMinimal(reaches, p, a) ==> FirstMinimal(reaches, q, a)
  {
    if FirstMinimal(reaches, p, a) {
      forall c | Candidate(reaches, queries, c) && reaches(a, c) ensures c == a || reaches(c, a) {
        assert Candidate(reaches, p, c);
      }
      forall b | Candidate(reaches, q, b) && b != a ensures !reaches(a, b) {
        assert Candidate(reaches, p, b) && !Tie(reaches, queries, a, b);
      }
    }
  }

  lemma TieMatters(reaches: Reaching, queries: seq<AliasSet>, a: AliasSet, b: AliasSet)
    requires AliasGraph(reaches) && Tie(reaches, queries, a, b)
    ensures !OrderIndependent(reaches, queries)
  {
    var p, q := [a, b] + queries, [b, a] + queries;
    assert SameQueries(p, queries) && SameQueries(q, queries);
    FinalLeaves(reaches, p, a);
    FinalLeaves(reaches, q, a);
    assert First(p, a) == 0;
    assert q[0] == b && First(q, b) == 0;
    assert Candidate(reaches, p, a) && Candidate(reaches, q, b);
    forall c | Candidate(reaches, p, c) && c != a && reaches(a, c) ensures reaches(c, a) {
      assert Candidate(reaches, queries, c);
    }
    assert FirstMinimal(reaches, p, a) && !FirstMinimal(reaches, q, a);
    var other := if a in Run(reaches, EMPTY_STATE, queries).leaves then q else p;
    assert SameQueries(other, queries)
           && (a in Run(reaches, EMPTY_STATE, other).leaves) != (a in Run(reaches, EMPTY_STATE, queries).leaves);
  }

  ghost predicate Antisymmetric(reaches: Reaching, queries: seq<AliasSet>) {
    forall a, b :: Candidate(reaches, queries, a) && Candidate(reaches, queries, b) && a != b ==>
      !(reaches(a, b) && reaches(b, a))
  }

  /** Without sets that reach each other, the leaves are the minimal sets. */
  lemma LeavesAreMinimal(reaches: Reaching, queries: seq<AliasSet>, a: AliasSet)
    requires AliasGraph(reaches)
    requires Antisymmetric(reaches, queries)
    ensures a in Run(reaches, EMPTY_STATE, queries).leaves <==>
            Candidate(reaches, queries, a) && forall b :: Candidate(reaches, queries, b) && b != a ==> !reaches(a, b)
  {
    FinalLeaves(reaches, queries, a);
  }
}
