/** The iterator debug database: a table of container nodes and a table of iterator
    nodes that point at each other.  Every operation acts on the two-map state of
    DebugSpec exactly as specified there. */
module DebugDb {
  import opened Options
  import opened DebugSpec
  import opened DebugNodes
  import opened DebugGraphs
  import T = DebugTables

  class Db {
    const cs: T.Table<CNode>
    const its: T.Table<INode>
    ghost var state: State
    ghost var g: Graph
    ghost var Repr: set<object>

    /** The tables and the nodes are made of separate objects. */
    ghost predicate Apart()
      reads this, cs, its
    {
      && this in Repr && cs in Repr && its in Repr
      && cs.Repr <= Repr && its.Repr <= Repr && g.objects <= Repr
      && this !in cs.Repr && this !in its.Repr && this !in g.objects
      && cs.Repr !! its.Repr && cs.Repr !! g.objects && its.Repr !! g.objects
    }

    ghost predicate Valid()
      reads this, Repr
    {
      && this in Repr && cs in Repr && its in Repr && Apart()
      && cs.Valid() && its.Valid() && cs.contents == g.containers && its.contents == g.iterators
      && Linked(g, state) && TwoWay(state)
    }

    constructor (hash: Ptr -> nat)
      ensures Valid() && fresh(Repr) && state == EMPTY_STATE
    {
      hide T.Table.Valid;
      cs := new T.Table(hash);
      its := new T.Table(hash);
      state := EMPTY_STATE;
      g := Graph(map[], map[], map[], {});
      Repr := {};
      new;
      EmptyLinked();
      Adopt(g, state);
    }

    method FindCFromI(i: Ptr) returns (c: Option<Ptr>)
      requires Valid() && i in state.iters
      ensures c == state.iters[i]
    {
      hide T.Table.Valid;
      hide TwoWay;
      hide Linked;
      ItsKeys();
      var r := its.Find(i);
      var n := r.value;
      IteratorIs(g, state, i);
      if n.owner != null { ContainerIs(g, state, state.iters[i].value); }
      c := if n.owner != null then Some(n.owner.container) else None;
    }

    lemma ItsKeys()
      requires Valid()
      ensures cs.contents.Keys == state.conts.Keys && its.contents.Keys == state.iters.Keys
      ensures forall c :: c in cs.contents ==> cs.contents[c].container == c
      ensures forall i :: i in its.contents ==> its.contents[i].iter == i
    {
      hide T.Table.Valid;
      hide TwoWay;
      assert Linked(g, state);
    }

    method OwnerOf(i: Ptr) returns (n: Option<INode>, owner: CNode?)
      requires Valid()
      ensures n == if i in state.iters then Some(its.contents[i]) else None
      ensures owner == if n.Some? then n.value.owner else null
      ensures owner == null <==> Owner(state, i) == None
      ensures owner != null ==> Owner(state, i).value in cs.contents && owner == cs.contents[Owner(state, i).value]
    {
      hide T.Table.Valid;
      hide TwoWay;
      hide Linked;
      ItsKeys();
      n := its.Find(i);
      if i in its.contents { IteratorIs(g, state, i); }
      owner := if n.Some? then n.value.owner else null;
    }

    method LessThanComparable(i: Ptr, j: Ptr) returns (r: bool)
      requires Valid()
      ensures r == DebugSpec.LessThanComparable(state, i, j)
      ensures r <==> ListedTogether(state, i, j)
    {
      hide T.Table.Valid;
      hide TwoWay;
      hide Linked;
      hide ListedTogether;
      IsTwoWay();
      ComparableMeans(state, i, j);
      ItsKeys();
      var _, ci := OwnerOf(i);
      var _, cj := OwnerOf(j);
      r := ci != null && ci == cj;
      assert ci != null ==> ci.container == Owner(state, i).value;
      assert cj != null ==> cj.container == Owner(state, j).value;
    }

    method FindC(c: Ptr) returns (r: Option<CNode>)
      requires Valid()
      ensures r == if c in state.conts then Some(cs.contents[c]) else None
    {
      hide T.Table.Valid;
      ItsKeys();
      r := cs.Find(c);
    }

    method InsertC(c: Ptr)
      requires Valid() && c !in state.conts
      modifies Repr
      ensures Valid() && fresh(Repr - old(Repr))
      ensures state == DebugSpec.InsertC(old(state), c)
    {
      hide T.Table.Valid;
      hide TwoWay;
      hide Linked;
      hide DebugSpec.InsertC;
      ItsKeys();
      InsertCStillTwoWay(state, c);
      var n, h := NewNode(c);
      cs.Insert(c, n);
      Adopt(h, DebugSpec.InsertC(state, c));
    }

    /** The node of a new container, and the graph with it. */
    method NewNode(c: Ptr) returns (n: CNode, ghost h: Graph)
      requires Valid() && c !in state.conts
      ensures fresh(n) && fresh(h.objects - g.objects) && g.objects <= h.objects
      ensures h.containers == g.containers[c := n] && h.iterators == g.iterators
      ensures Linked(h, DebugSpec.InsertC(state, c))
    {
      hide T.Table.Valid;
      hide TwoWay;
      hide Linked;
      hide DebugSpec.InsertC;
      ItsKeys();
      n := new CNode(c);
      h := Graph(g.containers[c := n], g.iterators, g.arrays[n.beg := c], g.objects + {n, n.beg});
      AddContainer(g, state, n);
    }

    /** Takes the tables, and the nodes as the given graph, for the given state. */
    ghost method Adopt(h: Graph, s: State)
      requires this !in cs.Repr && this !in its.Repr && this !in h.objects
      requires cs.Repr !! its.Repr && cs.Repr !! h.objects && its.Repr !! h.objects
      requires cs.Valid() && its.Valid() && cs.contents == h.containers && its.contents == h.iterators
      requires Linked(h, s) && TwoWay(s)
      modifies this`state, this`g, this`Repr
      ensures Valid() && state == s && g == h && Repr == old(Repr) + {this} + cs.Repr + its.Repr + h.objects
    {
      hide T.Table.Valid;
      hide TwoWay;
      hide Linked;
      state := s;
      g := h;
      Repr := Repr + {this} + cs.Repr + its.Repr + h.objects;
    }

    method InsertIterator(i: Ptr) returns (n: INode)
      requires Valid() && i !in state.iters
      modifies Repr
      ensures Valid() && fresh(Repr - old(Repr))
      ensures state == DebugSpec.InsertI(old(state), i) && its.contents[i] == n
      ensures cs.contents == old(cs.contents) && n.owner == null
    {
      hide T.Table.Valid;
      hide TwoWay;
      hide Linked;
      ItsKeys();
      InsertIStillTwoWay(state, i);
      n := new INode(i);
      AddIterator(g, state, n);
      ghost var h := g.(iterators := g.iterators[i := n], objects := g.objects + {n});
      its.Insert(i, n);
      Adopt(h, DebugSpec.InsertI(state, i));
    }

    method InsertI(i: Ptr)
      requires Valid() && i !in state.iters
      modifies Repr
      ensures Valid() && fresh(Repr - old(Repr))
      ensures state == DebugSpec.InsertI(old(state), i)
    {
      var _ := InsertIterator(i);
    }

    /** Registers an iterator of a container, if the container is registered. */
    method InsertIC(i: Ptr, c: Ptr)
      requires Valid() && i !in state.iters
      modifies Repr
      ensures Valid() && fresh(Repr - old(Repr))
      ensures state == DebugSpec.InsertIC(old(state), i, c)
    {
      hide Valid;
      ghost var was := state;
      var found := FindC(c);
      if found == None {
        return;
      }
      var n := InsertIterator(i);
      JoinNodes(i, n, c, found.value);
      assert state.conts == was.conts[c := was.conts[c] + [i]];
      assert state.iters == was.iters[i := Some(c)];
    }

    method JoinNodes(ghost i: Ptr, n: INode, ghost c: Ptr, p: CNode)
      requires Valid() && i in state.iters && its.contents[i] == n && state.iters[i] == None
      requires c in state.conts && cs.contents[c] == p
      modifies Repr
      ensures Valid() && fresh(Repr - old(Repr))
      ensures state == Attach(old(state), i, c)
      ensures cs.contents == old(cs.contents) && its.contents == old(its.contents)
    {
      hide T.Table.Valid;
      hide TwoWay;
      hide Linked;
      ItsKeys();
      AttachStillTwoWay(state, i, c);
      ghost var h := Join(n, p, g, state);
      state := Attach(state, i, c);
      g := h;
      Repr := Repr + h.objects;
    }

    method PartNode(ghost i: Ptr, n: INode)
      requires Valid() && i in state.iters && its.contents[i] == n && n.owner != null
      modifies Repr
      ensures Valid() && Repr == old(Repr)
      ensures state == Detach(old(state), i)
      ensures cs.contents == old(cs.contents) && its.contents == old(its.contents)
    {
      hide T.Table.Valid;
      hide TwoWay;
      hide Linked;
      ItsKeys();
      DetachStillTwoWay(state, i);
      Part(n, g, state);
      state := Detach(state, i);
    }

    /** Forgets an iterator; its node is freed. */
    method EraseI(i: Ptr)
      requires Valid()
      modifies Repr
      ensures Valid() && Repr == old(Repr)
      ensures state == DebugSpec.EraseI(old(state), i)
    {
      hide T.Table.Valid;
      hide TwoWay;
      hide Linked;
      ItsKeys();
      EraseIStillTwoWay(state, i);
      var p := its.Remove(i);
      if p == None {
        assert its.contents == old(its.contents);
        return;
      }
      DetachStillTwoWay(state, i);
      IteratorIs(g, state, i);
      ghost var loose := Detach(state, i);
      if p.value.owner != null {
        Part(p.value, g, state);
      }
      DropIterator(g, loose, i);
      Adopt(g.(iterators := its.contents), DebugSpec.EraseI(state, i));
      assert Repr == old(Repr);
    }

    method InvalidateAll(c: Ptr)
      requires Valid()
      modifies Repr
      ensures Valid() && Repr == old(Repr)
      ensures state == DebugSpec.InvalidateAll(old(state), c)
    {
      hide T.Table.Valid;
      hide TwoWay;
      hide Linked;
      ItsKeys();
      InvalidateAllStillTwoWay(state, c);
      var p := cs.Find(c);
      if p == None {
        return;
      }
      Release(p.value, g, state);
      state := DebugSpec.InvalidateAll(state, c);
    }

    /** Forgets a container; its node is freed, and its iterators point nowhere. */
    method EraseC(c: Ptr)
      requires Valid()
      modifies Repr
      ensures Valid() && Repr == old(Repr)
      ensures state == DebugSpec.EraseC(old(state), c)
    {
      hide T.Table.Valid;
      hide TwoWay;
      hide Linked;
      ItsKeys();
      EraseCStillTwoWay(state, c);
      InvalidateAllStillTwoWay(state, c);
      var p := cs.Remove(c);
      if p == None {
        assert cs.contents == old(cs.contents) && DebugSpec.EraseC(state, c).conts == state.conts;
        return;
      }
      Release(p.value, g, state);
      DropContainer(g, DebugSpec.InvalidateAll(state, c), c);
      state := DebugSpec.EraseC(state, c);
      g := g.(containers := cs.contents);
    }

    /** Makes an iterator point where another one does, registering it if needed. */
    method IteratorCopy(i: Ptr, from: Ptr)
      requires Valid()
      modifies Repr
      ensures Valid() && fresh(Repr - old(Repr))
      ensures state == DebugSpec.IteratorCopy(old(state), i, from)
    {
      hide Valid;
      hide TwoWay;
      ItsKeys();
      IsTwoWay();
      InsertIStillTwoWay(state, i);
      var n, c := OwnerOf(i);
      var n0, c0 := OwnerOf(from);
      if n == None && n0 != None {
        var inserted := InsertIterator(i);
        n := Some(inserted);
        c := inserted.owner;
      }
      if c != c0 {
        if n != None {
          Redirect(i, n.value, Owner(old(state), from), c0);
        }
      }
    }

    lemma IsTwoWay()
      requires Valid()
      ensures TwoWay(state)
    {}

    method Redirect(ghost i: Ptr, n: INode, ghost target: Option<Ptr>, c0: CNode?)
      requires Valid() && i in state.iters && its.contents[i] == n
      requires (n.owner == null) == (state.iters[i] == None)
      requires (c0 == null) == (target == None)
      requires target.Some? ==> target.value in state.conts && cs.contents[target.value] == c0
      modifies Repr
      ensures Valid() && fresh(Repr - old(Repr))
      ensures state == match target
                       case None => Detach(old(state), i)
                       case Some(k) => Attach(Detach(old(state), i), i, k)
    {
      hide Valid;
      hide TwoWay;
      IsTwoWay();
      DetachStillTwoWay(state, i);
      if n.owner != null {
        PartNode(i, n);
      }
      if c0 != null {
        JoinNodes(i, n, target.value, c0);
      }
    }

    method Swap(c1: Ptr, c2: Ptr)
      requires Valid() && c1 in state.conts && c2 in state.conts
      modifies Repr
      ensures Valid() && Repr == old(Repr)
      ensures state == DebugSpec.Swap(old(state), c1, c2)
    {
      hide T.Table.Valid;
      hide TwoWay;
      hide Linked;
      ItsKeys();
      SwapStillTwoWay(state, c1, c2);
      var p1 := cs.Find(c1);
      var p2 := cs.Find(c2);
      ghost var h := Exchange(p1.value, p2.value, g, state);
      state := DebugSpec.Swap(state, c1, c2);
      g := h;
    }
  }
}
