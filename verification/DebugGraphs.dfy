/** The nodes of the debug database as a linked structure: what it means for them
    to represent a state, and the steps that change links. */
module DebugGraphs {
  import opened Options
  import opened DebugSpec
  import opened Seqs
  import opened DebugNodes

  /** The registered nodes, the container each array belongs to, and the objects
      this is all made of. */
  datatype Graph = Graph(containers: map<Ptr, CNode>, iterators: map<Ptr, INode>,
                         arrays: map<array<INode?>, Ptr>, objects: set<object>)

  /** The container node lists the nodes of the given iterators, in an array of its own. */
  ghost predicate ContainerNode(g: Graph, n: CNode, c: Ptr, list: seq<Ptr>)
    reads n, n.beg
  {
    && n in g.objects && n.container == c
    && n.beg in g.objects && n.beg in g.arrays && g.arrays[n.beg] == c
    && n.Valid() && Keys(n.listed) == list
    && forall i :: i in n.listed ==> i.iter in g.iterators && g.iterators[i.iter] == i
  }

  /** The iterator node points to the node of its container. */
  ghost predicate IteratorNode(g: Graph, n: INode, i: Ptr, s: State)
    reads n
  {
    && n in g.objects && n.iter == i
    && i in s.iters
    && match s.iters[i]
       case None => n.owner == null
       case Some(c) => c in g.containers && n.owner == g.containers[c]
  }

  ghost predicate Linked(g: Graph, s: State)
    reads g.objects
  {
    && g.containers.Keys == s.conts.Keys && g.iterators.Keys == s.iters.Keys
    && (forall a :: a in g.arrays ==> a in g.objects)
    && (forall c :: c in g.containers ==>
          && g.containers[c] in g.objects && g.containers[c].beg in g.objects
          && ContainerNode(g, g.containers[c], c, s.conts[c]))
    && (forall i :: i in g.iterators ==>
          && g.iterators[i] in g.objects
          && IteratorNode(g, g.iterators[i], i, s))
  }

  lemma AddContainer(g: Graph, s: State, n: CNode)
    requires Linked(g, s) && n.container !in g.containers && n.Valid() && n.listed == []
    requires n !in g.objects && n.beg !in g.objects
    ensures Linked(Graph(g.containers[n.container := n], g.iterators, g.arrays[n.beg := n.container],
                         g.objects + {n, n.beg}),
                   InsertC(s, n.container))
  {
    var h := Graph(g.containers[n.container := n], g.iterators, g.arrays[n.beg := n.container],
                   g.objects + {n, n.beg});
    hide ContainerNode;
    hide IteratorNode;
    forall c | c in g.containers ensures ContainerNode(h, g.containers[c], c, s.conts[c]) {
      ContainerNodeStays(g, h, g.containers[c], c, s.conts[c]);
    }
    forall i | i in g.iterators ensures IteratorNode(h, g.iterators[i], i, InsertC(s, n.container)) {
      IteratorNodeStays(g, h, g.iterators[i], i, s, InsertC(s, n.container));
    }
    NewContainerNode(h, n);
  }

  lemma NewContainerNode(h: Graph, n: CNode)
    requires n in h.objects && n.beg in h.objects && n.beg in h.arrays && h.arrays[n.beg] == n.container
    requires n.Valid() && n.listed == []
    ensures ContainerNode(h, n, n.container, [])
  {}

  lemma ContainerNodeStays(g: Graph, h: Graph, n: CNode, c: Ptr, list: seq<Ptr>)
    requires ContainerNode(g, n, c, list) && g.objects <= h.objects
    requires forall i :: i in g.iterators ==> i in h.iterators && h.iterators[i] == g.iterators[i]
    requires n.beg in g.arrays ==> n.beg in h.arrays && h.arrays[n.beg] == g.arrays[n.beg]
    ensures ContainerNode(h, n, c, list)
  {}

  lemma IteratorNodeStays(g: Graph, h: Graph, n: INode, i: Ptr, s: State, t: State)
    requires IteratorNode(g, n, i, s) && g.objects <= h.objects
    requires i in s.iters ==> i in t.iters && t.iters[i] == s.iters[i]
    requires i in s.iters && s.iters[i].Some? && s.iters[i].value in g.containers ==>
               s.iters[i].value in h.containers && h.containers[s.iters[i].value] == g.containers[s.iters[i].value]
    ensures IteratorNode(h, n, i, t)
  {}

  lemma AddIterator(g: Graph, s: State, n: INode)
    requires Linked(g, s) && n.iter !in g.iterators && n.owner == null
    ensures Linked(g.(iterators := g.iterators[n.iter := n], objects := g.objects + {n}), InsertI(s, n.iter))
  {
    var h := g.(iterators := g.iterators[n.iter := n], objects := g.objects + {n});
    forall c | c in g.containers ensures ContainerNode(h, g.containers[c], c, s.conts[c]) {
      assert ContainerNode(g, g.containers[c], c, s.conts[c]);
    }
    forall i | i in g.iterators ensures IteratorNode(h, g.iterators[i], i, s) {
      assert IteratorNode(g, g.iterators[i], i, s);
    }
  }

  lemma EmptyLinked()
    ensures Linked(Graph(map[], map[], map[], {}), EMPTY_STATE) && TwoWay(EMPTY_STATE)
  {}

  lemma NotListed(s: State, i: Ptr)
    requires TwoWay(s) && i in s.iters && s.iters[i] == None
    ensures forall c :: c in s.conts ==> i !in s.conts[c]
  {}

  lemma NotInContainer(g: Graph, h: Graph, n: CNode, c: Ptr, list: seq<Ptr>, i: Ptr)
    requires ContainerNode(g, n, c, list) && i !in list && h == g.(iterators := g.iterators - {i})
    ensures ContainerNode(h, n, c, list)
  {
    forall k | k in n.listed ensures k.iter in h.iterators {
      var j :| 0 <= j < |n.listed| && n.listed[j] == k;
      assert list[j] == k.iter;
    }
  }

  /** An iterator that no container lists can be forgotten. */
  lemma DropIterator(g: Graph, s: State, i: Ptr)
    requires Linked(g, s) && TwoWay(s) && i in g.iterators && s.iters[i] == None
    ensures Linked(g.(iterators := g.iterators - {i}), s.(iters := s.iters - {i}))
  {
    hide TwoWay;
    var h := g.(iterators := g.iterators - {i});
    NotListed(s, i);
    forall c | c in g.containers ensures ContainerNode(h, g.containers[c], c, s.conts[c]) {
      NotInContainer(g, h, g.containers[c], c, s.conts[c], i);
    }
    forall k | k in h.iterators ensures IteratorNode(h, g.iterators[k], k, s) {
      assert IteratorNode(g, g.iterators[k], k, s);
    }
  }

  /** A container that no iterator points to can be forgotten. */
  lemma DropContainer(g: Graph, s: State, c: Ptr)
    requires Linked(g, s) && TwoWay(s) && c in g.containers && s.conts[c] == []
    ensures Linked(g.(containers := g.containers - {c}), s.(conts := s.conts - {c}))
  {
    hide ContainerNode;
    hide IteratorNode;
    var h, t := g.(containers := g.containers - {c}), s.(conts := s.conts - {c});
    forall d | d in h.containers ensures ContainerNode(h, g.containers[d], d, s.conts[d]) {
      ContainerNodeStays(g, h, g.containers[d], d, s.conts[d]);
    }
    forall i | i in g.iterators ensures IteratorNode(h, g.iterators[i], i, t) {
      assert i !in s.conts[c];
      IteratorNodeStays(g, h, g.iterators[i], i, s, t);
    }
  }

  /** The nodes of the given containers, with their arrays, and of the given iterators. */
  ghost function Touched(g: Graph, cs: set<Ptr>, its: set<Ptr>): set<object>
    reads g.containers.Values
  {
    (set c | c in cs && c in g.containers :: g.containers[c] as object)
    + (set c | c in cs && c in g.containers :: g.containers[c].beg as object)
    + (set i | i in its && i in g.iterators :: g.iterators[i] as object)
  }

  /** The nodes of all other containers and iterators represent the state, and are
      made of the given objects. */
  ghost predicate Kept(g: Graph, s: State, cs: set<Ptr>, its: set<Ptr>, rest: set<object>)
    reads rest
  {
    && (forall c :: c in g.containers && c !in cs ==>
          && c in s.conts && g.containers[c] in rest && g.containers[c].beg in rest
          && ContainerNode(g, g.containers[c], c, s.conts[c]))
    && (forall i :: i in g.iterators && i !in its ==>
          g.iterators[i] in rest && IteratorNode(g, g.iterators[i], i, s))
  }

  lemma Keep(g: Graph, s: State, cs: set<Ptr>, its: set<Ptr>)
    requires Linked(g, s)
    ensures Kept(g, s, cs, its, g.objects - Touched(g, cs, its))
  {
    hide ContainerNode;
    hide IteratorNode;
    forall c, d | c in g.containers && d in g.containers && c != d
      ensures g.containers[c] != g.containers[d] && g.containers[c].beg != g.containers[d].beg
    {
      ContainerIs(g, s, c);
      ContainerIs(g, s, d);
    }
    forall i, j | i in g.iterators && j in g.iterators && i != j ensures g.iterators[i] != g.iterators[j] {
      IteratorIs(g, s, i);
      IteratorIs(g, s, j);
    }
  }

  /** The nodes of a container's iterators are those it lists. */
  lemma ListedNode(g: Graph, s: State, c: Ptr, i: Ptr)
    requires Linked(g, s) && c in g.containers && i in s.conts[c]
    ensures i in g.iterators && g.iterators[i] in g.containers[c].listed
  {
    var n := g.containers[c];
    assert ContainerNode(g, n, c, s.conts[c]);
    var j :| 0 <= j < |n.listed| && Keys(n.listed)[j] == i;
    assert n.listed[j] in n.listed && n.listed[j].iter == i;
  }

  lemma IteratorIs(g: Graph, s: State, i: Ptr)
    requires Linked(g, s) && i in g.iterators
    ensures IteratorNode(g, g.iterators[i], i, s)
    ensures g.containers.Keys == s.conts.Keys && g.iterators.Keys == s.iters.Keys
    ensures forall a :: a in g.arrays ==> a in g.objects
  {}

  lemma ContainerIs(g: Graph, s: State, c: Ptr)
    requires Linked(g, s) && c in g.containers
    ensures g.containers.Keys == s.conts.Keys && g.iterators.Keys == s.iters.Keys
    ensures forall a :: a in g.arrays ==> a in g.objects
    ensures ContainerNode(g, g.containers[c], c, s.conts[c])
  {}

  /** Lists an iterator that points nowhere in a container, and points it there. */
  method Join(i: INode, c: CNode, ghost g: Graph, ghost s: State) returns (ghost h: Graph)
    requires Linked(g, s) && i.iter in g.iterators && g.iterators[i.iter] == i
    requires c.container in g.containers && g.containers[c.container] == c
    modifies g.objects
    ensures Linked(h, Attach(s, i.iter, c.container))
    ensures h.containers == g.containers && h.iterators == g.iterators
    ensures g.objects <= h.objects && fresh(h.objects - g.objects)
  {
    hide Linked;
    hide Kept;
    hide CNode.Valid;
    hide Keys;
    hide ContainerNode;
    hide IteratorNode;
    ContainerIs(g, s, c.container);
    IteratorIs(g, s, i.iter);
    ghost var rest := g.objects - Touched(g, {c.container}, {i.iter});
    ghost var was := c.listed;
    Keep(g, s, {c.container}, {i.iter});
    c.Add(i);
    i.owner := c;
    h := g.(arrays := g.arrays[c.beg := c.container], objects := g.objects + {c.beg});
    AppendedNode(h, c, was, i, s.conts[c.container]);
    AttachedNode(h, i, c, Attach(s, i.iter, c.container));
    Changed(g, s, {c.container}, {i.iter}, rest, h, Attach(s, i.iter, c.container));
  }

  lemma AppendedNode(h: Graph, c: CNode, was: seq<INode>, i: INode, list: seq<Ptr>)
    requires c in h.objects && c.beg in h.objects && c.beg in h.arrays && h.arrays[c.beg] == c.container
    requires c.Valid() && c.listed == was + [i] && Keys(was) == list
    requires forall j :: j in was ==> j.iter in h.iterators && h.iterators[j.iter] == j
    requires i.iter in h.iterators && h.iterators[i.iter] == i
    ensures ContainerNode(h, c, c.container, list + [i.iter])
  {}

  lemma AttachedNode(h: Graph, i: INode, c: CNode, t: State)
    requires i in h.objects && i.iter in t.iters && t.iters[i.iter] == Some(c.container)
    requires c.container in h.containers && h.containers[c.container] == c && i.owner == c
    ensures IteratorNode(h, i, i.iter, t)
  {}

  /** The kept nodes together with the changed ones represent the new state. */
  lemma Changed(g: Graph, s: State, cs: set<Ptr>, its: set<Ptr>, rest: set<object>, h: Graph, t: State)
    requires Kept(g, s, cs, its, rest) && rest <= g.objects
    requires h.containers == g.containers && h.iterators == g.iterators && g.objects <= h.objects
    requires forall a :: a in g.arrays && g.arrays[a] !in cs ==> a in h.arrays && h.arrays[a] == g.arrays[a]
    requires g.containers.Keys == t.conts.Keys && g.iterators.Keys == t.iters.Keys
    requires forall a :: a in h.arrays ==> a in h.objects
    requires forall c :: c in s.conts && c !in cs ==> c in t.conts && t.conts[c] == s.conts[c]
    requires forall i :: i in s.iters && i !in its ==> i in t.iters && t.iters[i] == s.iters[i]
    requires forall c :: c in cs && c in g.containers ==>
               && g.containers[c] in h.objects && g.containers[c].beg in h.objects
               && ContainerNode(h, g.containers[c], c, t.conts[c])
    requires forall i :: i in its && i in g.iterators ==>
               g.iterators[i] in h.objects && IteratorNode(h, g.iterators[i], i, t)
    ensures Linked(h, t)
  {
    forall c | c in g.containers && c !in cs ensures ContainerNode(h, g.containers[c], c, t.conts[c]) {
      assert ContainerNode(g, g.containers[c], c, s.conts[c]);
    }
    forall i | i in g.iterators && i !in its ensures IteratorNode(h, g.iterators[i], i, t) {
      assert IteratorNode(g, g.iterators[i], i, s);
    }
  }

  lemma OwnerLists(s: State, i: Ptr)
    requires TwoWay(s) && i in s.iters && s.iters[i].Some?
    ensures var c := s.iters[i].value; c in s.conts && i in s.conts[c] && Unique(s.conts[c])
  {}

  lemma OneList(s: State, c: Ptr, d: Ptr)
    requires TwoWay(s) && c in s.conts && d in s.conts && c != d
    ensures forall i :: i in s.conts[c] ==> i !in s.conts[d]
  {
    forall i | i in s.conts[c] ensures i !in s.conts[d] { assert s.iters[i] == Some(c); }
  }

  /** Takes an iterator off the list of its container and points it nowhere. */
  method Part(i: INode, ghost g: Graph, ghost s: State)
    requires Linked(g, s) && TwoWay(s) && i.iter in g.iterators && g.iterators[i.iter] == i
    requires i.owner != null
    modifies g.objects
    ensures Linked(g, Detach(s, i.iter))
  {
    hide Linked;
    hide Kept;
    hide TwoWay;
    IteratorIs(g, s, i.iter);
    var c := i.owner;
    ghost var key := s.iters[i.iter].value;
    OwnerLists(s, i.iter);
    ContainerIs(g, s, key);
    ListedNode(g, s, key, i.iter);
    WithoutLists(s.conts[key], i.iter);
    KeysWithout(c.listed, i);
    UniqueNodes(c.listed);
    WithoutLists(c.listed, i);
    ghost var rest := g.objects - Touched(g, {key}, {i.iter});
    Keep(g, s, {key}, {i.iter});
    c.Remove(i);
    i.owner := null;
    Changed(g, s, {key}, {i.iter}, rest, g, Detach(s, i.iter));
  }

  lemma UniqueNodes(nodes: seq<INode>)
    requires Unique(Keys(nodes))
    ensures Unique(nodes)
  {
    forall j, k | 0 <= j < k < |nodes| ensures nodes[j] != nodes[k] {
      assert Keys(nodes)[j] != Keys(nodes)[k];
    }
  }

  /** Points all iterators of a container nowhere. */
  method Release(c: CNode, ghost g: Graph, ghost s: State)
    requires Linked(g, s) && TwoWay(s) && c.container in g.containers && g.containers[c.container] == c
    modifies g.objects
    ensures Linked(g, InvalidateAll(s, c.container))
  {
    hide Linked;
    hide Kept;
    ContainerIs(g, s, c.container);
    ghost var listed := s.conts[c.container];
    ghost var its := set i | i in listed;
    ListedIn(g, s, c.container);
    ghost var rest := g.objects - Touched(g, {c.container}, its);
    Keep(g, s, {c.container}, its);
    c.Release();
    Changed(g, s, {c.container}, its, rest, g, InvalidateAll(s, c.container));
  }

  lemma ListedKey(g: Graph, s: State, c: Ptr, n: INode)
    requires Linked(g, s) && c in g.containers && n in g.containers[c].listed
    ensures n.iter in s.conts[c] && n.iter in g.iterators && n == g.iterators[n.iter] && n in g.objects
  {
    ContainerIs(g, s, c);
    var j :| 0 <= j < |g.containers[c].listed| && g.containers[c].listed[j] == n;
    assert Keys(g.containers[c].listed)[j] == n.iter;
  }

  /** Exchanges the lists of two containers and points the listed iterators to their
      new containers. */
  method Exchange(p1: CNode, p2: CNode, ghost g: Graph, ghost s: State) returns (ghost h: Graph)
    requires Linked(g, s) && TwoWay(s)
    requires p1.container in g.containers && g.containers[p1.container] == p1
    requires p2.container in g.containers && g.containers[p2.container] == p2
    modifies g.objects
    ensures Linked(h, Swap(s, p1.container, p2.container))
    ensures h.containers == g.containers && h.iterators == g.iterators && h.objects == g.objects
  {
    hide Linked;
    hide Kept;
    hide TwoWay;
    hide Swap;
    ghost var c1, c2 := p1.container, p2.container;
    ContainerIs(g, s, c1);
    ContainerIs(g, s, c2);
    ghost var its := set i | i in s.conts[c1] + s.conts[c2];
    ghost var rest := g.objects - Touched(g, {c1, c2}, its);
    Keep(g, s, {c1, c2}, its);
    ListedIn(g, s, c1);
    ListedIn(g, s, c2);
    if c1 != c2 { OneList(s, c1, c2); }
    h := g.(arrays := g.arrays[p2.beg := c1][p1.beg := c2]);
    Trade(p1, p2);
    assert ContainerNode(h, p1, c1, s.conts[c2]) && ContainerNode(h, p2, c2, s.conts[c1]);
    Exchanged(g, s, c1, c2, rest, h);
  }

  lemma Exchanged(g: Graph, s: State, c1: Ptr, c2: Ptr, rest: set<object>, h: Graph)
    requires TwoWay(s) && c1 in s.conts && c2 in s.conts
    requires g.containers.Keys == s.conts.Keys && g.iterators.Keys == s.iters.Keys
    requires Kept(g, s, {c1, c2}, (set i | i in s.conts[c1] + s.conts[c2]), rest) && rest <= g.objects
    requires h.containers == g.containers && h.iterators == g.iterators && g.objects <= h.objects
    requires forall a :: a in g.arrays && g.arrays[a] !in {c1, c2} ==> a in h.arrays && h.arrays[a] == g.arrays[a]
    requires forall a :: a in h.arrays ==> a in h.objects
    requires ContainerNode(h, g.containers[c1], c1, s.conts[c2]) && ContainerNode(h, g.containers[c2], c2, s.conts[c1])
    requires forall i :: i in s.conts[c1] ==> Owned(g, i, g.containers[c2])
    requires forall i :: i in s.conts[c2] ==> Owned(g, i, g.containers[c1])
    ensures Linked(h, Swap(s, c1, c2))
  {
    hide Linked;
    hide Kept;
    var its := set i | i in s.conts[c1] + s.conts[c2];
    forall i | i in its ensures IteratorNode(h, g.iterators[i], i, Swap(s, c1, c2)) {
      var c := if i in s.conts[c1] then c1 else c2;
      assert s.iters[i] == Some(c) && Owned(g, i, g.containers[DebugSpec.Exchanged(c, c1, c2)]);
    }
    forall i | i in s.iters && i !in its ensures Swap(s, c1, c2).iters[i] == s.iters[i] {
      if s.iters[i] != None { assert i in s.conts[s.iters[i].value]; }
    }
    Changed(g, s, {c1, c2}, its, rest, h, Swap(s, c1, c2));
  }

  ghost predicate Owned(g: Graph, i: Ptr, n: CNode)
    requires i in g.iterators
    reads g.iterators[i]
  {
    g.iterators[i] in g.objects && g.iterators[i].iter == i && g.iterators[i].owner == n
  }

  method Trade(p1: CNode, p2: CNode)
    requires p1.Valid() && p2.Valid()
    requires p1 != p2 ==> p1.beg != p2.beg && forall n :: n in p1.listed ==> n !in p2.listed
    modifies p1, p2, set n | n in p1.listed, set n | n in p2.listed
    ensures p1.Valid() && p1.listed == old(p2.listed) && p1.beg == old(p2.beg)
    ensures p2.Valid() && p2.listed == old(p1.listed) && p2.beg == old(p1.beg)
    ensures forall n :: n in p1.listed ==> n.owner == p1
    ensures forall n :: n in p2.listed ==> n.owner == p2
  {
    p1.beg, p2.beg := p2.beg, p1.beg;
    p1.end, p2.end := p2.end, p1.end;
    p1.listed, p2.listed := p2.listed, p1.listed;
    p1.Own();
    p2.Own();
  }

  /** The nodes listed by a container are those of the iterators it lists. */
  lemma ListedIn(g: Graph, s: State, c: Ptr)
    requires Linked(g, s) && c in g.containers
    ensures forall i :: i in s.conts[c] ==>
              i in g.iterators && g.iterators[i] in g.containers[c].listed && g.iterators[i].iter == i
    ensures forall n :: n in g.containers[c].listed ==>
              n.iter in s.conts[c] && n.iter in g.iterators && n == g.iterators[n.iter] && n in g.objects
  {
    forall i | i in s.conts[c]
      ensures i in g.iterators && g.iterators[i] in g.containers[c].listed && g.iterators[i].iter == i
    {
      ListedNode(g, s, c, i);
      IteratorIs(g, s, i);
    }
    forall n | n in g.containers[c].listed
      ensures n.iter in s.conts[c] && n.iter in g.iterators && n == g.iterators[n.iter] && n in g.objects
    {
      ListedKey(g, s, c, n);
    }
  }
}
