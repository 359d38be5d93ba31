/** The nodes of the debug database: an iterator node points to the node of its
    container, and a container node lists its iterator nodes in an array that it
    grows by hand. */
module DebugNodes {
  import opened DebugSpec
  import opened Seqs

  class INode {
    const iter: Ptr
    var owner: CNode?

    constructor (iter: Ptr)
      ensures this.iter == iter && owner == null
    {
      this.iter := iter;
      owner := null;
    }
  }

  function Keys(nodes: seq<INode>): (keys: seq<Ptr>)
    ensures |keys| == |nodes|
  {
    seq(|nodes|, j requires 0 <= j < |nodes| => nodes[j].iter)
  }

  lemma KeysWithout(nodes: seq<INode>, p: INode)
    requires p in nodes && Unique(Keys(nodes))
    ensures p.iter in Keys(nodes) && Keys(Without(nodes, p)) == Without(Keys(nodes), p.iter)
  {
    var j := IndexOf(nodes, p);
    assert Keys(nodes)[j] == p.iter;
    assert j == IndexOf(Keys(nodes), p.iter);
  }

  /** A container node.  The array is [beg, cap) and the iterators are [beg, end). */
  class CNode {
    const container: Ptr
    var beg: array<INode?>
    var end: nat
    ghost var listed: seq<INode>

    ghost predicate Valid()
      reads this, beg
    {
      && end == |listed| <= beg.Length
      && forall j :: 0 <= j < end ==> beg[j] == listed[j]
    }

    constructor (container: Ptr)
      ensures Valid() && this.container == container && listed == [] && fresh(beg)
    {
      this.container := container;
      beg := new INode?[0];
      end := 0;
      listed := [];
    }

    /** Appends an iterator, doubling the array when it is full. */
    method Add(i: INode)
      requires Valid()
      modifies this, beg
      ensures Valid() && listed == old(listed) + [i]
      ensures beg == old(beg) || fresh(beg)
    {
      if end == beg.Length {
        var nc := 2 * beg.Length;
        if nc == 0 {
          nc := 1;
        }
        var bigger := new INode?[nc](_ => null);
        if nc > 1 {
          forall j | 0 <= j < nc / 2 { bigger[j] := beg[j]; }
        }
        beg := bigger;
        end := nc / 2;
      }
      beg[end] := i;
      end := end + 1;
      listed := listed + [i];
    }

    /** Takes out one iterator, closing the gap. */
    method Remove(p: INode)
      requires Valid() && p in listed
      modifies this, beg
      ensures Valid() && listed == Without(old(listed), p) && beg == old(beg)
    {
      var r := 0;
      while beg[r] != p
        invariant 0 <= r <= IndexOf(listed, p)
        decreases end - r
      {
        r := r + 1;
      }
      end := end - 1;
      forall j | r <= j < end { beg[j] := beg[j + 1]; }
      listed := Without(listed, p);
    }

    /** Makes every listed iterator point nowhere, from the last to the first. */
    method Release()
      requires Valid()
      modifies this, set n | n in listed
      ensures Valid() && listed == [] && beg == old(beg)
      ensures forall n :: n in old(listed) ==> n.owner == null
    {
      ghost var was := listed;
      while end != 0
        invariant Valid() && listed == was[..end] && end <= |was| && beg == old(beg)
        invariant forall j :: end <= j < |was| ==> was[j].owner == null
        decreases end
      {
        end := end - 1;
        assert beg[end] == was[end];
        beg[end].owner := null;
        listed := listed[..end];
      }
    }

    /** Makes every listed iterator point here. */
    method Own()
      requires Valid()
      modifies set n | n in listed
      ensures forall n :: n in listed ==> n.owner == this
    {
      for j := 0 to end
        invariant forall k :: 0 <= k < j ==> listed[k].owner == this
      {
        assert beg[j] == listed[j];
        beg[j].owner := this;
      }
    }
  }
}
