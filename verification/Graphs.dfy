/** Reachability in finite directed graphs, and their strongly connected components
    in bottom-up order. */
module Graphs {
  type Node = nat

  /** The successors of every node. */
  type Graph = map<Node, set<Node>>

  function Succ(g: Graph, a: Node): set<Node> {
    if a in g then g[a] else {}
  }

  ghost predicate ReachIn(g: Graph, a: Node, b: Node, steps: nat)
    decreases steps
  {
    if steps == 0 then a == b else exists c :: c in Succ(g, a) && ReachIn(g, c, b, steps - 1)
  }

  ghost predicate Reach(g: Graph, a: Node, b: Node) {
    exists steps: nat :: ReachIn(g, a, b, steps)
  }

  lemma ReachSelf(g: Graph, a: Node)
    ensures Reach(g, a, a)
  {
    assert ReachIn(g, a, a, 0);
  }

  lemma ReachEdge(g: Graph, a: Node, b: Node)
    requires b in Succ(g, a)
    ensures Reach(g, a, b)
  {
    assert ReachIn(g, b, b, 0);
    assert ReachIn(g, a, b, 1);
  }

  lemma {:induction false} ReachInTransitive(g: Graph, a: Node, b: Node, c: Node, m: nat, n: nat)
    requires ReachIn(g, a, b, m) && ReachIn(g, b, c, n)
    ensures ReachIn(g, a, c, m + n)
    decreases m
  {
    if m != 0 {
      var d :| d in Succ(g, a) && ReachIn(g, d, b, m - 1);
      ReachInTransitive(g, d, b, c, m - 1, n);
    }
  }

  lemma ReachTransitive(g: Graph, a: Node, b: Node, c: Node)
    requires Reach(g, a, b) && Reach(g, b, c)
    ensures Reach(g, a, c)
  {
    var m: nat :| ReachIn(g, a, b, m);
    var n: nat :| ReachIn(g, b, c, n);
    ReachInTransitive(g, a, b, c, m, n);
  }

  /** A path to another node starts with an edge. */
  lemma FirstStep(g: Graph, a: Node, b: Node) returns (c: Node)
    requires Reach(g, a, b) && a != b
    ensures c in Succ(g, a) && Reach(g, c, b)
  {
    var n: nat :| ReachIn(g, a, b, n);
    c :| c in Succ(g, a) && ReachIn(g, c, b, n - 1);
  }

  ghost predicate Closed(g: Graph, s: set<Node>) {
    forall a :: a in s ==> Succ(g, a) <= s
  }

  lemma {:induction false} ClosedReachIn(g: Graph, s: set<Node>, a: Node, b: Node, steps: nat)
    requires Closed(g, s) && a in s && ReachIn(g, a, b, steps)
    ensures b in s
    decreases steps
  {
    if steps != 0 {
      var c :| c in Succ(g, a) && ReachIn(g, c, b, steps - 1);
      ClosedReachIn(g, s, c, b, steps - 1);
    }
  }

  lemma ClosedReach(g: Graph, s: set<Node>, a: Node, b: Node)
    requires Closed(g, s) && a in s && Reach(g, a, b)
    ensures b in s
  {
    var n: nat :| ReachIn(g, a, b, n);
    ClosedReachIn(g, s, a, b, n);
  }

  /** What a reaches within a closed set. */
  ghost function Down(g: Graph, s: set<Node>, a: Node): (d: set<Node>)
    requires Closed(g, s) && a in s
    ensures forall b :: b in d <==> Reach(g, a, b)
  {
    assert forall b :: Reach(g, a, b) ==> b in s by {
      forall b | Reach(g, a, b) ensures b in s { ClosedReach(g, s, a, b); }
    }
    set b | b in s && Reach(g, a, b)
  }

  lemma DownShrinks(g: Graph, s: set<Node>, a: Node, b: Node)
    requires Closed(g, s) && a in s && Reach(g, a, b)
    ensures b in s && Down(g, s, b) <= Down(g, s, a)
  {
    ClosedReach(g, s, a, b);
    forall c | c in Down(g, s, b) ensures c in Down(g, s, a) { ReachTransitive(g, a, b, c); }
  }

  lemma SubsetSize<T>(a: set<T>, b: set<T>)
    requires a <= b
    ensures |a| <= |b| && (a < b ==> |a| < |b|)
  {
    assert b == a + (b - a);
  }

  // ---------- strongly connected components ----------

  ghost predicate Mutual(g: Graph, a: Node, b: Node) {
    Reach(g, a, b) && Reach(g, b, a)
  }

  ghost predicate At(components: seq<seq<Node>>, i: int, a: Node) {
    0 <= i < |components| && a in components[i]
  }

  /** The components of the nodes of a closed set; what a component reaches is in it
      or in components before it. */
  ghost predicate BottomUp(g: Graph, s: set<Node>, components: seq<seq<Node>>) {
    && (forall a :: a in s ==> exists i :: At(components, i, a))
    && (forall i, a :: At(components, i, a) ==> a in s)
    && (forall i, a, b :: At(components, i, a) && At(components, i, b) ==> Mutual(g, a, b))
    && (forall i, j, a, b :: At(components, i, a) && At(components, j, b) && Reach(g, a, b) ==> j <= i)
    && (forall i, m, n :: 0 <= i < |components| && 0 <= m < n < |components[i]| ==>
          components[i][m] != components[i][n])
  }

  /** A node from which no other component of the set can be escaped upwards:
      whatever reaches it is in its component. */
  lemma {:induction false} TopMost(g: Graph, s: set<Node>) returns (a: Node)
    requires Closed(g, s) && s != {}
    ensures a in s && forall b :: b in s && Reach(g, b, a) ==> Reach(g, a, b)
  {
    a :| a in s;
    a := Climb(g, s, a);
  }

  lemma {:induction false} Climb(g: Graph, s: set<Node>, a: Node) returns (top: Node)
    requires Closed(g, s) && a in s
    ensures top in s && forall b :: b in s && Reach(g, b, top) ==> Reach(g, top, b)
    decreases |s| - |Down(g, s, a)|
  {
    SubsetSize(Down(g, s, a), s);
    if b :| b in s && Reach(g, b, a) && !Reach(g, a, b) {
      DownShrinks(g, s, b, a);
      ReachSelf(g, b);
      assert b in Down(g, s, b) && b !in Down(g, s, a);
      SubsetSize(Down(g, s, a), Down(g, s, b));
      SubsetSize(Down(g, s, b), s);
      top := Climb(g, s, b);
    } else {
      top := a;
    }
  }

  lemma Listing(s: set<Node>) returns (l: seq<Node>)
    ensures forall a :: a in l <==> a in s
    ensures forall m, n :: 0 <= m < n < |l| ==> l[m] != l[n]
  {
    if s == {} {
      l := [];
    } else {
      var a :| a in s;
      var rest := Listing(s - {a});
      l := [a] + rest;
    }
  }

  /** There is always such an order. */
  lemma {:induction false} BottomUpExists(g: Graph, s: set<Node>) returns (components: seq<seq<Node>>)
    requires Closed(g, s)
    ensures BottomUp(g, s, components)
    decreases |s|
  {
    if s == {} {
      components := [];
    } else {
      var a := TopMost(g, s);
      var top := set b | b in s && Mutual(g, a, b);
      ReachSelf(g, a);
      RestClosed(g, s, a, top);
      var rest := BottomUpExists(g, s - top);
      var l := Listing(top);
      components := rest + [l];
      AddTop(g, s, a, top, rest, l);
    }
  }

  lemma RestClosed(g: Graph, s: set<Node>, a: Node, top: set<Node>)
    requires Closed(g, s) && a in s && top == set b | b in s && Mutual(g, a, b)
    requires forall b :: b in s && Reach(g, b, a) ==> Reach(g, a, b)
    ensures Closed(g, s - top)
  {
    forall b, c | b in s - top && c in Succ(g, b) ensures c in s - top {
      ReachEdge(g, b, c);
      if c in top {
        ReachTransitive(g, b, c, a);
      }
    }
  }

  lemma AddTop(g: Graph, s: set<Node>, a: Node, top: set<Node>, rest: seq<seq<Node>>, l: seq<Node>)
    requires Closed(g, s) && a in s && top == set b | b in s && Mutual(g, a, b)
    requires Closed(g, s - top) && BottomUp(g, s - top, rest)
    requires forall b :: b in l <==> b in top
    requires forall m, n :: 0 <= m < n < |l| ==> l[m] != l[n]
    ensures BottomUp(g, s, rest + [l])
  {
    var components := rest + [l];
    forall b | b in s ensures exists i :: At(components, i, b) {
      if b in top {
        assert At(components, |rest|, b);
      } else {
        assert b in s - top;
        var i :| At(rest, i, b);
        assert At(components, i, b);
      }
    }
    forall i, b | At(components, i, b) ensures b in s && (b in top <==> i == |rest|) {
      if i < |rest| { assert At(rest, i, b); }
    }
    forall i, b, c | At(components, i, b) && At(components, i, c) ensures Mutual(g, b, c) {
      if i < |rest| {
        assert At(rest, i, b) && At(rest, i, c);
      } else {
        ReachTransitive(g, b, a, c);
        ReachTransitive(g, c, a, b);
      }
    }
    forall i, j, b, c | At(components, i, b) && At(components, j, c) && Reach(g, b, c) ensures j <= i {
      if i < |rest| {
        ClosedReach(g, s - top, b, c);
        assert At(rest, i, b) && At(rest, j, c);
      }
    }
  }

  // ---------- cycles ----------

  /** No node lies on a cycle. */
  ghost predicate Acyclic(g: Graph) {
    forall a, b :: b in Succ(g, a) ==> !Reach(g, b, a)
  }

  /** Without cycles the number of nodes that can be reached falls along every edge. */
  lemma RankFalls(g: Graph, s: set<Node>, a: Node, b: Node)
    requires Closed(g, s) && Acyclic(g) && a in s && b in Succ(g, a)
    ensures b in s && |Down(g, s, b)| < |Down(g, s, a)|
  {
    ReachEdge(g, a, b);
    DownShrinks(g, s, a, b);
    ReachSelf(g, a);
    assert a in Down(g, s, a) && a !in Down(g, s, b);
    SubsetSize(Down(g, s, b), Down(g, s, a));
  }
}
