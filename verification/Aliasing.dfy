/** Describing what a memory access may alias, with the nodes handed out so far being
    rewritten as leaves are evicted. */
module Aliasing {
  import opened Options
  import opened AliasSpec

  class AliasTags {
    /** reaches(s, t): there is a path from s to t in the graph of alias sets. */
    const reaches: Reaching
    var nodeTags: map<AliasSet, Option<Tag>>
    var leafNodes: seq<AliasSet>
    var instructions: array<Instruction>

    function View(): State
      reads this, instructions
    {
      State(nodeTags, leafNodes, instructions[..])
    }

    constructor (reaches: Reaching, instructions: array<Instruction>)
      requires instructions.Length == 0
      ensures this.reaches == reaches && this.instructions == instructions && View() == EMPTY_STATE
    {
      this.reaches := reaches;
      nodeTags := map[];
      leafNodes := [];
      this.instructions := instructions;
    }

    method DescribeAliasSet(aliasSet: AliasSet) returns (tag: Option<Tag>)
      requires AliasGraph(reaches) && Valid(reaches, View())
      modifies this, instructions
      ensures instructions == old(instructions)
      ensures View() == Query(reaches, old(View()), aliasSet) && Valid(reaches, View())
      ensures tag == TagOf(View(), aliasSet)
    {
      QueryValid(reaches, View(), aliasSet);
      if aliasSet <= 0 {
        assert aliasSet !in nodeTags;
        return None;
      }
      if aliasSet in nodeTags {
        return nodeTags[aliasSet];
      }
      if |leafNodes| == 0 {
        // A node may have an edge to the root.
        if reaches(aliasSet, 0) {
          nodeTags := nodeTags[aliasSet := None];
          return None;
        }
      }
      for i := 0 to |leafNodes|
        invariant forall j :: 0 <= j < i ==> !reaches(aliasSet, leafNodes[j])
        invariant View() == old(View())
      {
        if reaches(aliasSet, leafNodes[i]) {
          nodeTags := nodeTags[aliasSet := None];
          return None;
        }
      }
      NotRoot(reaches, leafNodes, aliasSet);
      assert !reaches(aliasSet, 0);
      EvictLeaves(aliasSet);
      tag := Some(Leaf(aliasSet));
      nodeTags := nodeTags[aliasSet := tag];
      leafNodes := leafNodes + [aliasSet];
    }

    /** Leaves that reach the new one are leaves no more; their nodes are replaced by
        the root everywhere. */
    method EvictLeaves(aliasSet: AliasSet)
      requires forall l :: l in leafNodes ==> l in nodeTags
      modifies this, instructions
      ensures instructions == old(instructions)
      ensures leafNodes == Kept(reaches, old(leafNodes), aliasSet)
      ensures var evicted := Evicted(reaches, old(leafNodes), aliasSet);
              && nodeTags == (map k | k in old(nodeTags) :: if k in evicted then None else old(nodeTags)[k])
              && instructions[..] == Rewritten(old(instructions[..]), evicted)
    {
      hide Rewritten;
      hide Kept;
      hide Evicted;
      ghost var was, tags, code := leafNodes, nodeTags, instructions[..];
      ghost var evicted: set<AliasSet> := {};
      NothingEvicted(reaches, was, aliasSet);
      NothingRewritten(code);
      var i := |leafNodes|;
      while i > 0
        invariant 0 <= i <= |was| && instructions == old(instructions)
        invariant leafNodes == was[..i] + Kept(reaches, was[i..], aliasSet)
        invariant evicted == Evicted(reaches, was[i..], aliasSet)
        invariant nodeTags == (map k | k in tags :: if k in evicted then None else tags[k])
        invariant instructions[..] == Rewritten(code, evicted)
        decreases i
      {
        i := i - 1;
        var leafSet := leafNodes[i];
        EvictOne(reaches, was, i, aliasSet, leafNodes);
        if reaches(leafSet, aliasSet) {
          leafNodes := leafNodes[..i] + leafNodes[i + 1..];
          ReplaceAllUsesWithRoot(leafSet);
          nodeTags := nodeTags[leafSet := None];
          RewrittenTwice(code, evicted, leafSet);
          evicted := evicted + {leafSet};
        }
      }
      assert was[0..] == was;
    }

    method ReplaceAllUsesWithRoot(leafSet: AliasSet)
      modifies instructions
      ensures instructions[..] == Rewritten(old(instructions[..]), {leafSet})
    {
      for k := 0 to instructions.Length
        invariant forall j :: 0 <= j < k ==>
                    instructions[j] == old(instructions[j]).(tag := Replaced(old(instructions[j]).tag, {leafSet}))
        invariant forall j :: k <= j < instructions.Length ==> instructions[j] == old(instructions[j])
      {
        if instructions[k].tag == Some(Leaf(leafSet)) {
          instructions[k] := instructions[k].(tag := Some(Root));
        }
      }
    }

    /** Describes an access and attaches the description to a new instruction. */
    method AnnotateAccess(aliasSet: AliasSet)
      requires AliasGraph(reaches) && Valid(reaches, View())
      modifies this, instructions
      ensures fresh(instructions)
      ensures View() == Annotate(reaches, old(View()), aliasSet) && Valid(reaches, View())
    {
      AnnotateValid(reaches, View(), aliasSet);
      var tag := DescribeAliasSet(aliasSet);
      var n := instructions.Length;
      var longer := new Instruction[n + 1](k requires 0 <= k < n + 1 reads this, instructions =>
        if k < n && n == instructions.Length then instructions[k] else Instruction(aliasSet, tag));
      assert longer[..] == instructions[..] + [Instruction(aliasSet, tag)];
      instructions := longer;
    }
  }

  lemma NothingEvicted(reaches: Reaching, was: seq<AliasSet>, a: AliasSet)
    ensures was == was[..|was|] + Kept(reaches, was[|was|..], a)
    ensures Evicted(reaches, was[|was|..], a) == {}
  {}

  /** What passing over leaf i does to the list of leaves. */
  lemma EvictOne(reaches: Reaching, was: seq<AliasSet>, i: nat, a: AliasSet, now: seq<AliasSet>)
    requires i < |was| && now == was[..i + 1] + Kept(reaches, was[i + 1..], a)
    ensures now[i] == was[i] && was[i] in was
    ensures var rest := was[..i] + Kept(reaches, was[i..], a);
            rest == if reaches(was[i], a) then now[..i] + now[i + 1..] else now
    ensures Evicted(reaches, was[i..], a) ==
            Evicted(reaches, was[i + 1..], a) + if reaches(was[i], a) then {was[i]} else {}
  {
    assert was[i..] == [was[i]] + was[i + 1..];
    assert was[i..][1..] == was[i + 1..];
    var rest := Kept(reaches, was[i + 1..], a);
    assert Kept(reaches, was[i..], a) == (if reaches(was[i], a) then [] else [was[i]]) + rest;
    hide Kept;
    assert was[..i + 1] == was[..i] + [was[i]];
    TakeOut(was[..i], was[i], rest);
  }

  lemma TakeOut<T>(p: seq<T>, x: T, q: seq<T>)
    ensures var s := p + [x] + q; s[|p|] == x && s[..|p|] + s[|p| + 1..] == p + q && s == p + ([x] + q)
  {}

  lemma NothingRewritten(code: seq<Instruction>)
    ensures Rewritten(code, {}) == code
  {}

  lemma RewrittenTwice(code: seq<Instruction>, evicted: set<AliasSet>, l: AliasSet)
    ensures Rewritten(Rewritten(code, evicted), {l}) == Rewritten(code, evicted + {l})
  {}
}
