/** A chained hash table keyed by addresses, as the iterator debug database keeps
    one for containers and one for iterators.  A link and the node it carries are
    one allocation in the program. */
module DebugTables {
  import opened Options
  import opened Seqs
  import opened NextPrimes

  type Ptr = nat

  class Link<N> {
    const key: Ptr
    const node: N
    var next: Link?<N>

    constructor (key: Ptr, node: N, next: Link?<N>)
      ensures this.key == key && this.node == node && this.next == next
    {
      this.key := key;
      this.node := node;
      this.next := next;
    }
  }

  /** The link after link j of a chain. */
  function After<N>(chain: seq<Link<N>>, j: int): Link?<N> {
    if 0 <= j + 1 < |chain| then chain[j + 1] else null
  }

  /** The chain is what following next from head visits, ending in null. */
  ghost predicate Threaded<N>(chain: seq<Link<N>>, head: Link?<N>)
    reads chain
  {
    && head == After(chain, -1)
    && forall j :: 0 <= j < |chain| ==> chain[j].next == After(chain, j)
  }

  /** Chain b of the table: keys that hash there, each once. */
  ghost predicate GoodChain<N>(chain: seq<Link<N>>, hash: Ptr -> nat, buckets: nat, b: nat)
  {
    && (forall j :: 0 <= j < |chain| ==> buckets > 0 && hash(chain[j].key) % buckets == b)
    && (forall i, j :: 0 <= i < j < |chain| ==> chain[i].key != chain[j].key)
  }

  ghost predicate InChain<N>(chain: seq<Link<N>>, key: Ptr, node: N) {
    exists j :: 0 <= j < |chain| && chain[j].key == key && chain[j].node == node
  }

  /** The chains hold exactly the entries of the map. */
  ghost predicate Represents<N>(chains: seq<seq<Link<N>>>, hash: Ptr -> nat, m: map<Ptr, N>) {
    && (forall b :: 0 <= b < |chains| ==> GoodChain(chains[b], hash, |chains|, b))
    && (forall b, j :: 0 <= b < |chains| && 0 <= j < |chains[b]| ==>
          chains[b][j].key in m && m[chains[b][j].key] == chains[b][j].node)
    && (forall k :: k in m ==> |chains| > 0 && InChain(chains[hash(k) % |chains|], k, m[k]))
  }

  lemma Hashed(h: nat, n: nat)
    requires n > 0
    ensures 0 <= h % n < n
  {}

  lemma AtPosition<N>(chains: seq<seq<Link<N>>>, hash: Ptr -> nat, m: map<Ptr, N>, b: nat, j: nat)
    requires Represents(chains, hash, m) && b < |chains| && j < |chains[b]|
    ensures chains[b][j].key in m && m[chains[b][j].key] == chains[b][j].node
    ensures hash(chains[b][j].key) % |chains| == b
    ensures forall i :: 0 <= i < |chains[b]| && chains[b][i].key == chains[b][j].key ==> i == j
  {
    assert GoodChain(chains[b], hash, |chains|, b);
  }

  lemma NotFound<N>(chains: seq<seq<Link<N>>>, hash: Ptr -> nat, m: map<Ptr, N>, key: Ptr)
    requires Represents(chains, hash, m) && |chains| > 0
    requires var b := hash(key) % |chains|;
             0 <= b < |chains| && forall j :: 0 <= j < |chains[b]| ==> chains[b][j].key != key
    ensures key !in m
  {
    assert key in m ==> InChain(chains[hash(key) % |chains|], key, m[key]);
  }

  /** Links at different places have different keys, and so are different. */
  lemma DifferentLinks<N>(chains: seq<seq<Link<N>>>, hash: Ptr -> nat, m: map<Ptr, N>, b: nat, i: nat, h: nat, j: nat)
    requires Represents(chains, hash, m) && b < |chains| && i < |chains[b]| && h < |chains| && j < |chains[h]|
    requires b != h || i != j
    ensures chains[b][i] != chains[h][j]
  {
    AtPosition(chains, hash, m, b, i);
    AtPosition(chains, hash, m, h, j);
  }

  lemma RemovedAt<T>(s: seq<T>, j: nat)
    requires j < |s|
    ensures |RemoveAt(s, j)| == |s| - 1
    ensures forall i {:trigger RemoveAt(s, j)[i]} :: 0 <= i < |s| - 1 ==>
              RemoveAt(s, j)[i] == s[if i < j then i else i + 1]
  {}

  lemma RemovedRepresents<N>(chains: seq<seq<Link<N>>>, hash: Ptr -> nat, m: map<Ptr, N>, h: nat, j: nat)
    requires Represents(chains, hash, m) && h < |chains| && j < |chains[h]|
    ensures Represents(chains[h := RemoveAt(chains[h], j)], hash, m - {chains[h][j].key})
    ensures |m - {chains[h][j].key}| == |m| - 1
  {
    var key := chains[h][j].key;
    var rest := RemoveAt(chains[h], j);
    var after := chains[h := rest];
    var m' := m - {key};
    RemovedAt(chains[h], j);
    AtPosition(chains, hash, m, h, j);
    assert m'.Keys == m.Keys - {key};
    forall b | 0 <= b < |after| ensures GoodChain(after[b], hash, |after|, b) {
      assert GoodChain(chains[b], hash, |chains|, b);
    }
    forall b, i | 0 <= b < |after| && 0 <= i < |after[b]|
      ensures after[b][i].key in m' && m'[after[b][i].key] == after[b][i].node
    {
      AtPosition(chains, hash, m, b, if b == h && i >= j then i + 1 else i);
    }
    forall k | k in m' ensures |after| > 0 && InChain(after[hash(k) % |after|], k, m'[k]) {
      var b := hash(k) % |chains|;
      assert InChain(chains[b], k, m[k]);
      var i :| 0 <= i < |chains[b]| && chains[b][i].key == k && chains[b][i].node == m[k];
      var i' := if b == h && i > j then i - 1 else i;
      assert after[b][i'].key == k;
    }
  }

  lemma PushedChain<N>(chains: seq<seq<Link<N>>>, hash: Ptr -> nat, m: map<Ptr, N>, h: nat, r: Link<N>)
    requires Represents(chains, hash, m) && h < |chains| && r.key !in m && hash(r.key) % |chains| == h
    ensures GoodChain([r] + chains[h], hash, |chains|, h)
  {
    var longer := [r] + chains[h];
    assert GoodChain(chains[h], hash, |chains|, h);
    assert forall i :: 0 < i < |longer| ==> longer[i] == chains[h][i - 1];
    forall i, j | 0 <= i < j < |longer| ensures longer[i].key != longer[j].key {
      AtPosition(chains, hash, m, h, j - 1);
    }
  }

  lemma PushedComplete<N>(chains: seq<seq<Link<N>>>, hash: Ptr -> nat, m: map<Ptr, N>, h: nat, r: Link<N>, k: Ptr)
    requires Represents(chains, hash, m) && h < |chains| && hash(r.key) % |chains| == h
    requires k in m || k == r.key
    ensures var b := hash(k) % |chains|;
            InChain(chains[h := [r] + chains[h]][b], k, m[r.key := r.node][k])
  {
    var b := hash(k) % |chains|;
    var after := chains[h := [r] + chains[h]];
    if k == r.key {
      assert after[h][0] == r;
    } else {
      assert InChain(chains[b], k, m[k]);
      var i :| 0 <= i < |chains[b]| && chains[b][i].key == k && chains[b][i].node == m[k];
      assert after[b][if b == h then i + 1 else i] == chains[b][i];
    }
  }

  lemma PushedRepresents<N>(chains: seq<seq<Link<N>>>, hash: Ptr -> nat, m: map<Ptr, N>, h: nat, r: Link<N>)
    requires Represents(chains, hash, m) && h < |chains| && r.key !in m && hash(r.key) % |chains| == h
    ensures Represents(chains[h := [r] + chains[h]], hash, m[r.key := r.node])
    ensures |m[r.key := r.node]| == |m| + 1
  {
    var after := chains[h := [r] + chains[h]];
    var m' := m[r.key := r.node];
    assert m'.Keys == m.Keys + {r.key};
    forall b | 0 <= b < |after| ensures GoodChain(after[b], hash, |after|, b) {
      assert GoodChain(chains[b], hash, |chains|, b);
      if b == h { PushedChain(chains, hash, m, h, r); }
    }
    forall b, i | 0 <= b < |after| && 0 <= i < |after[b]|
      ensures after[b][i].key in m' && m'[after[b][i].key] == after[b][i].node
    {
      if b != h { AtPosition(chains, hash, m, b, i); }
      if b == h && i > 0 { AtPosition(chains, hash, m, h, i - 1); }
    }
    forall k | k in m' ensures |after| > 0 && InChain(after[hash(k) % |after|], k, m'[k]) {
      PushedComplete(chains, hash, m, h, r, k);
    }
  }

  ghost function Links<N>(chains: seq<seq<Link<N>>>): set<Link<N>> {
    set b, j | 0 <= b < |chains| && 0 <= j < |chains[b]| :: chains[b][j]
  }

  /** Every bucket of the array is the head of its chain. */
  ghost predicate Woven<N>(chains: seq<seq<Link<N>>>, heads: array<Link?<N>>)
    reads heads, Links(chains)
  {
    && |chains| == heads.Length
    && forall b :: 0 <= b < |chains| ==> Threaded(chains[b], heads[b])
  }

  lemma PushedThreaded<N>(chain: seq<Link<N>>, r: Link<N>, p: Link?<N>)
    requires Threaded(chain, p) && r.next == p
    ensures Threaded([r] + chain, r)
  {
    var longer := [r] + chain;
    forall i | 0 <= i < |longer| ensures longer[i].next == After(longer, i) {
      if i > 0 { assert longer[i] == chain[i - 1]; }
    }
  }

  lemma NotLinked<N>(chains: seq<seq<Link<N>>>, hash: Ptr -> nat, m: map<Ptr, N>, q: Link<N>)
    requires Represents(chains, hash, m) && q.key !in m
    ensures q !in Links(chains)
  {}

  lemma PushedLinks<N>(chains: seq<seq<Link<N>>>, h: nat, r: Link<N>)
    requires h < |chains|
    ensures Links(chains[h := [r] + chains[h]]) == Links(chains) + {r}
  {
    var after := chains[h := [r] + chains[h]];
    assert after[h][0] == r;
    forall l | l in Links(chains) ensures l in Links(after) {
      var b, j :| 0 <= b < |chains| && 0 <= j < |chains[b]| && l == chains[b][j];
      assert after[b][if b == h then j + 1 else j] == l;
    }
    forall l | l in Links(after) ensures l in Links(chains) + {r} {
      var b, j :| 0 <= b < |after| && 0 <= j < |after[b]| && l == after[b][j];
      if b == h && j > 0 { assert chains[h][j - 1] == l; }
    }
  }

  lemma UnlinkedLinks<N>(chains: seq<seq<Link<N>>>, h: nat, j: nat)
    requires h < |chains| && j < |chains[h]|
    ensures Links(chains[h := RemoveAt(chains[h], j)]) <= Links(chains)
  {
    var after := chains[h := RemoveAt(chains[h], j)];
    RemovedAt(chains[h], j);
    forall l | l in Links(after) ensures l in Links(chains) {
      var b, i :| 0 <= b < |after| && 0 <= i < |after[b]| && l == after[b][i];
      assert chains[b][if b == h && i >= j then i + 1 else i] == l;
    }
  }

  /** Moves one link to the front of its chain in the new array. */
  method MoveLink<N>(q: Link<N>, heads: array<Link?<N>>, hash: Ptr -> nat,
                     ghost chains: seq<seq<Link<N>>>, ghost m: map<Ptr, N>)
    returns (ghost after: seq<seq<Link<N>>>)
    requires heads.Length > 0 && Woven(chains, heads) && Represents(chains, hash, m) && q.key !in m
    modifies q, heads
    ensures Woven(after, heads) && Represents(after, hash, m[q.key := q.node])
    ensures Links(after) == Links(chains) + {q}
  {
    hide Represents;
    Hashed(hash(q.key), heads.Length);
    NotLinked(chains, hash, m, q);
    var h := hash(q.key) % heads.Length;
    PushedRepresents(chains, hash, m, h, q);
    PushedLinks(chains, h, q);
    after := chains[h := [q] + chains[h]];
    q.next := heads[h];
    heads[h] := q;
    forall b | 0 <= b < |after| ensures Threaded(after[b], heads[b]) {
      forall j | 0 <= j < |chains[b]| ensures chains[b][j] in Links(chains) {}
      assert old(Threaded(chains[b], heads[b]));
      if b == h {
        PushedThreaded(chains[h], q, q.next);
      }
    }
  }

  class Table<N> {
    const hash: Ptr -> nat
    var buckets: array<Link?<N>>
    var size: nat
    ghost var chains: seq<seq<Link<N>>>
    ghost var contents: map<Ptr, N>
    ghost var Repr: set<object>

    ghost predicate Valid()
      reads this, Repr
      ensures Valid() ==> this in Repr
    {
      && this in Repr && buckets in Repr
      && Links(chains) <= Repr && Woven(chains, buckets)
      && Represents(chains, hash, contents)
      && size == |contents| <= buckets.Length
    }

    constructor (hash: Ptr -> nat)
      ensures Valid() && fresh(Repr) && contents == map[] && this.hash == hash
    {
      this.hash := hash;
      buckets := new Link?<N>[0];
      size := 0;
      chains := [];
      contents := map[];
      new;
      Repr := {this, buckets};
    }

    method Find(key: Ptr) returns (r: Option<N>)
      requires Valid()
      ensures r == if key in contents then Some(contents[key]) else None
    {
      hide Represents;
      if buckets.Length == 0 {
        Empty();
        return None;
      }
      Hashed(hash(key), buckets.Length);
      var h := hash(key) % buckets.Length;
      ghost var chain := chains[h];
      ghost var j := 0;
      var p := buckets[h];
      assert Threaded(chain, buckets[h]);
      while p != null
        invariant Threaded(chain, buckets[h])
        invariant 0 <= j <= |chain| && p == After(chain, j - 1)
        invariant forall i :: 0 <= i < j ==> chain[i].key != key
        decreases |chain| - j
      {
        assert chain[j].next == After(chain, j);
        if p.key == key {
          AtPosition(chains, hash, contents, h, j);
          return Some(p.node);
        }
        p := p.next;
        j := j + 1;
      }
      NotFound(chains, hash, contents, key);
      return None;
    }

    lemma Empty()
      requires Valid() && buckets.Length == 0
      ensures contents == map[]
    {}

    /** Removes the entry for a key, if there is one, by unlinking it. */
    method Remove(key: Ptr) returns (r: Option<N>)
      requires Valid()
      modifies Repr
      ensures Valid() && Repr == old(Repr)
      ensures r == if key in old(contents) then Some(old(contents)[key]) else None
      ensures contents == old(contents) - {key}
    {
      hide Represents;
      if buckets.Length == 0 {
        Empty();
        return None;
      }
      Hashed(hash(key), buckets.Length);
      var h := hash(key) % buckets.Length;
      ghost var chain := chains[h];
      assert Threaded(chain, buckets[h]);
      var p := buckets[h];
      if p == null {
        NotFound(chains, hash, contents, key);
        return None;
      }
      var q: Link?<N> := null;
      ghost var j := 0;
      while p.key != key
        invariant Threaded(chain, buckets[h])
        invariant 0 <= j < |chain| && p == chain[j]
        invariant q == (if j == 0 then null else chain[j - 1])
        invariant forall i :: 0 <= i < j ==> chain[i].key != key
        decreases |chain| - j
      {
        assert chain[j].next == After(chain, j);
        q := p;
        p := p.next;
        if p == null {
          NotFound(chains, hash, contents, key);
          return None;
        }
        j := j + 1;
      }
      AtPosition(chains, hash, contents, h, j);
      r := Some(p.node);
      Unlink(h, j, p, q);
    }

    /** Takes link j out of a chain; q is the link before it. */
    method Unlink(h: nat, ghost j: nat, p: Link<N>, q: Link?<N>)
      requires Valid() && h < |chains| && j < |chains[h]| && p == chains[h][j]
      requires q == (if j == 0 then null else chains[h][j - 1])
      modifies Repr
      ensures Valid() && Repr == old(Repr)
      ensures contents == old(contents) - {p.key}
    {
      hide Represents;
      hide RemoveAt;
      assert size > 0 by { RemovedRepresents(chains, hash, contents, h, j); }
      assert Links(chains) <= Repr && buckets in Repr;
      Bypass(h, j, p, q);
      Forget(h, j, p.key);
      size := size - 1;
    }

    /** The bookkeeping of an unlinked entry. */
    ghost method Forget(h: nat, j: nat, key: Ptr)
      requires this in Repr && buckets in Repr && Links(chains) <= Repr && Represents(chains, hash, contents)
      requires h < |chains| && j < |chains[h]| && key == chains[h][j].key
      requires Woven(chains[h := RemoveAt(chains[h], j)], buckets) && size == |contents| <= buckets.Length
      modifies this`chains, this`contents
      ensures buckets in Repr && Links(chains) <= Repr && Represents(chains, hash, contents)
      ensures Woven(chains, buckets) && size == |contents| + 1
      ensures contents == old(contents) - {key}
    {
      hide Represents;
      hide RemoveAt;
      RemovedRepresents(chains, hash, contents, h, j);
      UnlinkedLinks(chains, h, j);
      chains := chains[h := RemoveAt(chains[h], j)];
      contents := contents - {key};
    }

    method Bypass(h: nat, ghost j: nat, p: Link<N>, q: Link?<N>)
      requires Woven(chains, buckets) && Represents(chains, hash, contents)
      requires h < |chains| && j < |chains[h]| && p == chains[h][j]
      requires q == (if j == 0 then null else chains[h][j - 1])
      modifies buckets, Links(chains)
      ensures Woven(chains[h := RemoveAt(chains[h], j)], buckets)
    {
      hide Represents;
      hide RemoveAt;
      ghost var chain := chains[h];
      assert Threaded(chain, buckets[h]);
      if j > 0 { OthersAreNot(h, j - 1); }
      assert q != null ==> q in Links(chains);
      if q == null {
        buckets[h] := p.next;
      } else {
        q.next := p.next;
      }
      forall b | 0 <= b < |chains| && b != h ensures Threaded(chains[b], buckets[b]) {
        assert old(Threaded(chains[b], buckets[b]));
      }
      UnlinkedThreaded(chain, j, RemoveAt(chain, j), buckets[h]);
    }

    lemma OthersAreNot(h: nat, j: nat)
      requires Represents(chains, hash, contents) && h < |chains| && j < |chains[h]|
      ensures forall b, i :: 0 <= b < |chains| && 0 <= i < |chains[b]| && (b != h || i != j) ==>
                chains[b][i] != chains[h][j]
    {
      forall b: nat, i: nat | b < |chains| && i < |chains[b]| && (b != h || i != j)
        ensures chains[b][i] != chains[h][j]
      {
        DifferentLinks(chains, hash, contents, b, i, h, j);
      }
    }

    lemma UnlinkedThreaded(chain: seq<Link<N>>, j: nat, rest: seq<Link<N>>, head: Link?<N>)
      requires j < |chain| && rest == RemoveAt(chain, j)
      requires forall i {:trigger chain[i]} :: 0 <= i < |chain| && i != j - 1 ==> chain[i].next == After(chain, i)
      requires j > 0 ==> chain[j - 1].next == After(chain, j)
      requires head == if j == 0 then After(chain, 0) else chain[0]
      ensures Threaded(rest, head)
    {
      RemovedAt(chain, j);
      forall i | 0 <= i < |rest| ensures rest[i].next == After(rest, i) {
        assert rest[i] == chain[if i < j then i else i + 1];
      }
    }

    /** Adds an entry for a key that has none, growing the table when it is full.
        There are never more entries than buckets. */
    method Insert(key: Ptr, node: N)
      requires Valid() && key !in contents
      modifies Repr
      ensures Valid() && fresh(Repr - old(Repr))
      ensures contents == old(contents)[key := node]
    {
      if size + 1 > buckets.Length {
        Grow();
      }
      Push(key, node);
    }

    method Push(key: Ptr, node: N)
      requires Valid() && key !in contents && size < buckets.Length
      modifies Repr
      ensures Valid() && fresh(Repr - old(Repr))
      ensures contents == old(contents)[key := node]
    {
      hide Represents;
      Hashed(hash(key), buckets.Length);
      var h := hash(key) % buckets.Length;
      var p := buckets[h];
      ghost var was := chains;
      var r := new Link(key, node, p);
      PushedRepresents(chains, hash, contents, h, r);
      PushedLinks(chains, h, r);
      assert Threaded(chains[h], p);
      buckets[h] := r;
      size := size + 1;
      chains := chains[h := [r] + chains[h]];
      contents := contents[key := node];
      Repr := Repr + {r};
      forall b | 0 <= b < |chains| ensures Threaded(chains[b], buckets[b]) {
        if b != h {
          assert chains[b] == was[b];
          assert old(Threaded(was[b], buckets[b]));
        } else {
          PushedThreaded(was[h], r, p);
        }
      }
    }

    /** Link j of chain b has not been moved when the first i links of chain c are
        the next to move. */
    ghost predicate Remaining(c: int, i: int, b: int, j: int) {
      b > c || (b == c && j >= i)
    }

    /** Where rehashing stands: links up to (c, i) are in the new chains, the others
        are still where they were. */
    ghost predicate Moving(c: int, i: int, moved: map<Ptr, N>)
      reads this, buckets, Links(chains)
    {
      && |chains| == buckets.Length
      && (forall b :: 0 <= b < |chains| ==> buckets[b] == After(chains[b], -1))
      && (forall b, j :: 0 <= b < |chains| && 0 <= j < |chains[b]| && Remaining(c, i, b, j) ==>
            chains[b][j].next == After(chains[b], j) && chains[b][j].key !in moved)
      && (forall b, j :: 0 <= b < |chains| && 0 <= j < |chains[b]| && !Remaining(c, i, b, j) ==>
            chains[b][j].key in moved)
      && (forall k :: k in moved ==> k in contents && moved[k] == contents[k])
    }

    lemma AllMoved(moved: map<Ptr, N>)
      requires Represents(chains, hash, contents) && Moving(|chains|, 0, moved)
      ensures moved == contents
    {
      forall k | k in contents ensures k in moved {
        var b := hash(k) % |chains|;
        assert InChain(chains[b], k, contents[k]);
        Hashed(hash(k), |chains|);
        var j :| 0 <= j < |chains[b]| && chains[b][j].key == k && chains[b][j].node == contents[k];
        assert !Remaining(|chains|, 0, b, j);
      }
    }

    lemma MovedOne(b: nat, j: nat, q: Link<N>, moved: map<Ptr, N>, was: map<Ptr, N>)
      requires Represents(chains, hash, contents) && b < |chains| && j < |chains[b]| && q == chains[b][j]
      requires moved == was[q.key := q.node]
      ensures forall b', j' :: 0 <= b' < |chains| && 0 <= j' < |chains[b']| && Remaining(b, j + 1, b', j') ==>
                chains[b'][j'] != q && chains[b'][j'].key != q.key
      ensures contents[q.key] == q.node && q.key in contents
    {
      AtPosition(chains, hash, contents, b, j);
      forall b': nat, j': nat | b' < |chains| && j' < |chains[b']| && Remaining(b, j + 1, b', j')
        ensures chains[b'][j'] != q && chains[b'][j'].key != q.key
      {
        AtPosition(chains, hash, contents, b', j');
        DifferentLinks(chains, hash, contents, b', j', b, j);
      }
    }

    /** Moves the links of one chain. */
    method MoveChain(b: nat, heads: array<Link?<N>>, ghost newChains: seq<seq<Link<N>>>, ghost moved: map<Ptr, N>)
      returns (ghost after: seq<seq<Link<N>>>, ghost nowMoved: map<Ptr, N>)
      requires Represents(chains, hash, contents) && b < buckets.Length && heads != buckets && heads.Length > 0
      requires Moving(b, 0, moved) && Woven(newChains, heads) && Represents(newChains, hash, moved)
      requires Links(newChains) <= Links(chains)
      modifies heads, Links(chains)
      ensures Moving(b + 1, 0, nowMoved) && Woven(after, heads) && Represents(after, hash, nowMoved)
      ensures Links(after) <= Links(chains)
    {
      hide Represents;
      after, nowMoved := newChains, moved;
      ghost var j := 0;
      var q := buckets[b];
      while q != null
        invariant 0 <= j <= |chains[b]| && q == After(chains[b], j - 1)
        invariant Moving(b, j, nowMoved) && Woven(after, heads) && Represents(after, hash, nowMoved)
        invariant Links(after) <= Links(chains)
        decreases |chains[b]| - j
      {
        var r := q.next;
        after, nowMoved := MoveOne(b, j, q, heads, after, nowMoved);
        q := r;
        j := j + 1;
      }
    }

    /** Moves link j of chain b. */
    method MoveOne(ghost b: nat, ghost j: nat, q: Link<N>, heads: array<Link?<N>>,
                   ghost newChains: seq<seq<Link<N>>>, ghost moved: map<Ptr, N>)
      returns (ghost after: seq<seq<Link<N>>>, ghost nowMoved: map<Ptr, N>)
      requires Represents(chains, hash, contents) && b < |chains| && j < |chains[b]| && q == chains[b][j]
      requires heads != buckets && heads.Length > 0
      requires Moving(b, j, moved) && Woven(newChains, heads) && Represents(newChains, hash, moved)
      requires Links(newChains) <= Links(chains)
      modifies heads, q
      ensures Moving(b, j + 1, nowMoved) && Woven(after, heads) && Represents(after, hash, nowMoved)
      ensures Links(after) <= Links(chains)
    {
      hide Represents;
      assert Remaining(b, j, b, j) && q in Links(chains);
      nowMoved := moved[q.key := q.node];
      MovedOne(b, j, q, nowMoved, moved);
      after := MoveLink(q, heads, hash, newChains, moved);
      forall b', j' | 0 <= b' < |chains| && 0 <= j' < |chains[b']| && Remaining(b, j + 1, b', j')
        ensures chains[b'][j'].next == After(chains[b'], j') && chains[b'][j'].key !in nowMoved
      {
        assert Remaining(b, j, b', j');
        assert old(chains[b'][j'].next == After(chains[b'], j'));
      }
      forall b', j' | 0 <= b' < |chains| && 0 <= j' < |chains[b']| && !Remaining(b, j + 1, b', j')
        ensures chains[b'][j'].key in nowMoved
      {
        if Remaining(b, j, b', j') { assert b' == b && j' == j; }
      }
    }

    /** Moves all links to an array of empty buckets. */
    method MoveAll(heads: array<Link?<N>>) returns (ghost after: seq<seq<Link<N>>>)
      requires Valid() && heads !in Repr && heads.Length > 0
      requires forall h :: 0 <= h < heads.Length ==> heads[h] == null
      modifies heads, Links(chains)
      ensures Woven(after, heads) && Represents(after, hash, contents) && Links(after) <= Links(chains)
    {
      hide Represents;
      ghost var moved: map<Ptr, N> := map[];
      after := EmptyChains(heads, hash);
      assert Moving(0, 0, moved);
      var b := 0;
      while b < buckets.Length
        invariant 0 <= b <= buckets.Length
        invariant Moving(b, 0, moved) && Woven(after, heads) && Represents(after, hash, moved)
        invariant Links(after) <= Links(chains)
      {
        after, moved := MoveChain(b, heads, after, moved);
        b := b + 1;
      }
      AllMoved(moved);
    }

    /** Replaces the buckets by a larger array and moves every link there. */
    method Grow()
      requires Valid()
      modifies Repr
      ensures Valid() && fresh(Repr - old(Repr))
      ensures contents == old(contents) && size == old(size) < buckets.Length
    {
      hide Represents;
      var prime, _ := NextPrime(2 * buckets.Length + 1, None);
      var nc := prime.value;
      assert nc >= 2 * buckets.Length + 1;
      var heads := new Link?<N>[nc](_ => null);
      assert Links(chains) <= Repr;
      ghost var newChains := MoveAll(heads);
      buckets := heads;
      chains := newChains;
      Repr := Repr + {heads};
    }
  }

  ghost method EmptyChains<N>(heads: array<Link?<N>>, hash: Ptr -> nat) returns (chains: seq<seq<Link<N>>>)
    requires forall h :: 0 <= h < heads.Length ==> heads[h] == null
    ensures Woven(chains, heads) && Represents(chains, hash, map[]) && Links(chains) == {}
  {
    chains := seq(heads.Length, _ => []);
  }
}
