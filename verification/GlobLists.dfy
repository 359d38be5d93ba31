/** Comma-separated lists of globs, of which the last that matches a name decides. */
module GlobLists {
  datatype Glob = Glob(positive: bool, pattern: string)

  /** The only metacharacter is the star, which stands for any string. */
  predicate Matches(pattern: string, name: string)
    decreases |pattern| + |name|
  {
    if pattern == "" then name == ""
    else if pattern[0] == '*' then Matches(pattern[1..], name) || (name != "" && Matches(pattern, name[1..]))
    else name != "" && name[0] == pattern[0] && Matches(pattern[1..], name[1..])
  }

  predicate SplitsAt(p: string, q: string, name: string, i: nat) {
    i <= |name| && Matches(p, name[..i]) && Matches(q, name[i..])
  }

  /** What a pattern matches follows from what its parts match. */
  lemma {:induction false} MatchesInParts(p: string, q: string, name: string)
    ensures Matches(p + q, name) <==> exists i: nat :: SplitsAt(p, q, name, i)
    decreases |p| + |name|
  {
    hide SplitsAt;
    if p == "" {
      NothingFirst(q, name);
    } else {
      assert (p + q)[0] == p[0] && (p + q)[1..] == p[1..] + q;
      MatchesInParts(p[1..], q, name);
      if name != "" {
        MatchesInParts(p, q, name[1..]);
        MatchesInParts(p[1..], q, name[1..]);
      }
      forall i: nat { SplitStep(p, q, name, i); }
      assert forall i: nat :: SplitsAt(p, q, name, i) ==> i > 0 || SplitsAt(p[1..], q, name, i);
      if name != "" {
        var after := if p[0] == '*' then p else p[1..];
        forall i: nat | i > 0 && SplitsAt(p, q, name, i) && !(p[0] == '*' && SplitsAt(p[1..], q, name, i))
          ensures SplitsAt(after, q, name[1..], i - 1)
        {}
        forall i: nat | p[0] in ['*', name[0]] && SplitsAt(after, q, name[1..], i)
          ensures SplitsAt(p, q, name, i + 1)
        {
          SplitStep(p, q, name, i + 1);
        }
      }
    }
  }

  lemma NothingFirst(q: string, name: string)
    ensures Matches("" + q, name) <==> exists i: nat :: SplitsAt("", q, name, i)
  {
    assert "" + q == q && name[0..] == name;
    assert Matches(q, name) ==> SplitsAt("", q, name, 0);
  }

  /** A split after more characters is one of the pattern or of the name without the
      first. */
  lemma SplitStep(p: string, q: string, name: string, i: nat)
    requires p != ""
    ensures i == 0 || name == "" ==>
              (SplitsAt(p, q, name, i) <==> p[0] == '*' && SplitsAt(p[1..], q, name, i))
    ensures i > 0 && name != "" ==>
              (SplitsAt(p, q, name, i) <==>
               || (p[0] == '*' && (SplitsAt(p[1..], q, name, i) || SplitsAt(p, q, name[1..], i - 1)))
               || (p[0] != '*' && p[0] == name[0] && SplitsAt(p[1..], q, name[1..], i - 1)))
  {
    if 0 < i <= |name| {
      assert name[..i][1..] == name[1..][..i - 1] && name[i..] == name[1..][i - 1..];
      assert name[..i][0] == name[0];
    }
  }

  /** A star matches everything, and any other character itself. */
  lemma {:induction false} MatchesOne(c: char, name: string)
    ensures Matches([c], name) <==> c == '*' || name == [c]
    ensures Matches("", name) <==> name == ""
    decreases |name|
  {
    assert [c][1..] == "";
    if name != "" {
      MatchesOne(c, name[1..]);
      assert name == [name[0]] + name[1..];
    }
  }

  function UpToComma(s: string): (p: string)
    ensures |p| <= |s| && p == s[..|p|] && ',' !in p && (|p| < |s| ==> s[|p|] == ',')
  {
    if s == "" || s[0] == ',' then "" else [s[0]] + UpToComma(s[1..])
  }

  /** A part of the string from a position on, or the empty string. */
  function Substr(s: string, from: nat): string {
    if from <= |s| then s[from..] else ""
  }

  function WithoutMinus(s: string): string {
    if s != "" && s[0] == '-' then s[1..] else s
  }

  function FirstGlob(s: string): Glob {
    Glob(!(s != "" && s[0] == '-'), UpToComma(WithoutMinus(s)))
  }

  /** What is left when the first glob and its comma have been consumed. */
  function Rest(s: string): (r: string)
    ensures r == "" || |r| < |s|
  {
    Substr(WithoutMinus(s), |UpToComma(WithoutMinus(s))| + 1)
  }

  /** The globs of a list; nothing follows a trailing comma. */
  function Parse(s: string): (globs: seq<Glob>)
    ensures globs != []
    decreases |s|
  {
    [FirstGlob(s)] + if Rest(s) == "" then [] else Parse(Rest(s))
  }

  /** The last glob that matches decides; if there is none the seed does. */
  function Decide(globs: seq<Glob>, name: string, seed: bool): bool {
    if globs == [] then seed
    else Decide(globs[1..], name, if Matches(globs[0].pattern, name) then globs[0].positive else seed)
  }

  lemma {:induction false} LastMatchWins(globs: seq<Glob>, name: string, seed: bool, i: nat)
    requires i < |globs| && Matches(globs[i].pattern, name)
    requires forall j :: i < j < |globs| ==> !Matches(globs[j].pattern, name)
    ensures Decide(globs, name, seed) == globs[i].positive
  {
    if i == 0 {
      NoMatch(globs[1..], name, globs[0].positive);
    } else {
      LastMatchWins(globs[1..], name, if Matches(globs[0].pattern, name) then globs[0].positive else seed, i - 1);
    }
  }

  lemma {:induction false} NoMatch(globs: seq<Glob>, name: string, seed: bool)
    requires forall j :: 0 <= j < |globs| ==> !Matches(globs[j].pattern, name)
    ensures Decide(globs, name, seed) == seed
  {
    if globs != [] { NoMatch(globs[1..], name, seed); }
  }

  lemma ParseParts(s: string)
    ensures |Parse(s)| >= 1 && Parse(s)[0] == FirstGlob(s)
    ensures Rest(s) == "" ==> |Parse(s)| == 1
    ensures Rest(s) != "" ==> Parse(s)[1..] == Parse(Rest(s))
  {}

  // ---------- writing lists ----------

  function Shown(g: Glob): string {
    (if g.positive then "" else "-") + g.pattern
  }

  function ShownAll(globs: seq<Glob>): string
    requires globs != []
  {
    if |globs| == 1 then Shown(globs[0]) else Shown(globs[0]) + "," + ShownAll(globs[1..])
  }

  /** A glob that can be written down. */
  predicate Writable(g: Glob) {
    ',' !in g.pattern && (g.positive && g.pattern != "" ==> g.pattern[0] != '-')
  }

  /** Reading a list that was written gives its globs, if the last of several is not
      an empty one. */
  lemma {:induction false} WrittenParses(globs: seq<Glob>)
    requires globs != [] && (forall g :: g in globs ==> Writable(g))
    requires |globs| > 1 ==> Shown(globs[|globs| - 1]) != ""
    ensures Parse(ShownAll(globs)) == globs
    ensures ShownAll(globs) == "" ==> |globs| == 1
  {
    hide FirstGlob;
    hide Rest;
    hide Shown;
    hide Writable;
    hide Parse;
    var g, s := globs[0], ShownAll(globs);
    ParseParts(s);
    if |globs| == 1 {
      FirstRead(g, "");
      assert s == Shown(g) + "";
    } else {
      WrittenParses(globs[1..]);
      ParseJoined(g, globs[1..]);
    }
  }

  lemma ParseJoined(g: Glob, rest: seq<Glob>)
    requires Writable(g) && rest != [] && Parse(ShownAll(rest)) == rest && ShownAll(rest) != ""
    ensures Parse(Shown(g) + "," + ShownAll(rest)) == [g] + rest
  {
    hide FirstGlob;
    hide Rest;
    hide Shown;
    hide Writable;
    hide Parse;
    hide ShownAll;
    var s, more := Shown(g) + "," + ShownAll(rest), "," + ShownAll(rest);
    assert s == Shown(g) + more;
    FirstRead(g, more);
    ParseParts(s);
    assert Parse(s) == [g] + Parse(s)[1..];
  }

  lemma FirstRead(g: Glob, more: string)
    requires Writable(g) && (more == "" || more[0] == ',')
    ensures FirstGlob(Shown(g) + more) == g
    ensures Rest(Shown(g) + more) == if more == "" then "" else more[1..]
  {
    var s := Shown(g) + more;
    assert WithoutMinus(s) == g.pattern + more;
    PatternRead(g.pattern, more);
  }

  lemma PatternRead(pattern: string, more: string)
    requires ',' !in pattern && (more == "" || more[0] == ',')
    ensures UpToComma(pattern + more) == pattern
  {
    hide UpToComma;
    var s, p := pattern + more, UpToComma(pattern + more);
    assert s[..|pattern|] == pattern;
    FirstComma(s, |p|, |pattern|);
  }

  lemma FirstComma(s: string, m: nat, n: nat)
    requires m <= |s| && n <= |s| && ',' !in s[..m] && ',' !in s[..n]
    requires (m < |s| ==> s[m] == ',') && (n < |s| ==> s[n] == ',')
    ensures m == n
  {
    forall k | 0 <= k < m ensures s[k] != ',' { assert s[..m][k] == s[k]; }
    forall k | 0 <= k < n ensures s[k] != ',' { assert s[..n][k] == s[k]; }
  }

  lemma SignWritten(s: string)
    ensures s == (if FirstGlob(s).positive then "" else "-") + WithoutMinus(s)
    ensures FirstGlob(s).pattern == UpToComma(WithoutMinus(s))
  {
    hide UpToComma;
  }

  lemma RestRead(u: string)
    ensures var p := UpToComma(u);
            u == if |p| < |u| then p + "," + Substr(u, |p| + 1) else p
    ensures |UpToComma(u)| >= |u| ==> Substr(u, |UpToComma(u)| + 1) == "" && ',' !in u
  {
    hide UpToComma;
    var p := UpToComma(u);
    assert u == p + u[|p|..];
    if |p| < |u| {
      assert u[|p|..] == [u[|p|]] + u[|p| + 1..];
    }
  }

  /** The first glob is what is in front of the rest. */
  lemma FirstWritten(s: string)
    ensures var g, u := FirstGlob(s), WithoutMinus(s);
            s == if |g.pattern| < |u| then Shown(g) + "," + Rest(s) else Shown(g)
    ensures |FirstGlob(s).pattern| >= |WithoutMinus(s)| ==> Rest(s) == "" && (s == "" || s[|s| - 1] != ',')
  {
    hide UpToComma;
    hide FirstGlob;
    hide WithoutMinus;
    SignWritten(s);
    RestRead(WithoutMinus(s));
  }

  /** The globs that are read are the list, but for a comma at its end. */
  lemma {:induction false} ParsedIsWritten(s: string)
    ensures s == ShownAll(Parse(s)) + if s != "" && s[|s| - 1] == ',' then "," else ""
    decreases |s|
  {
    hide FirstGlob;
    hide Rest;
    hide Shown;
    FirstWritten(s);
    var rest := Rest(s);
    if rest != "" {
      ParsedIsWritten(rest);
      assert rest[|rest| - 1] == s[|s| - 1];
      assert Parse(s)[1..] == Parse(rest);
    }
  }

  /** Removes the minus sign in front of a list. */
  method ConsumeNegativeIndicator(list: string) returns (negative: bool, rest: string)
    ensures negative == (list != "" && list[0] == '-') && rest == WithoutMinus(list)
  {
    negative := list != "" && list[0] == '-';
    rest := if negative then list[1..] else list;
  }

  /** Removes the first glob of a list and the comma after it. */
  method ConsumeGlob(list: string) returns (glob: string, rest: string)
    ensures glob == UpToComma(list) && rest == Substr(list, |glob| + 1)
  {
    glob := UpToComma(list);
    rest := Substr(list, |glob| + 1);
  }

  class GlobList {
    const positive: bool
    const pattern: string
    const nextGlob: GlobList?
    ghost const globs: seq<Glob>

    ghost predicate Valid()
      decreases |globs|
    {
      && |globs| >= 1 && globs[0] == Glob(positive, pattern)
      && (nextGlob == null ==> |globs| == 1)
      && (nextGlob != null ==> nextGlob.globs == globs[1..] && nextGlob.Valid())
    }

    constructor (list: string)
      ensures Valid() && globs == Parse(list)
      decreases |list|
    {
      hide UpToComma;
      hide Parse;
      var negative, unsigned := ConsumeNegativeIndicator(list);
      var glob, rest := ConsumeGlob(unsigned);
      assert glob == FirstGlob(list).pattern && negative == !FirstGlob(list).positive && rest == Rest(list);
      ParseParts(list);
      var next: GlobList? := null;
      if rest != "" {
        next := new GlobList(rest);
      }
      positive := !negative;
      pattern := glob;
      nextGlob := next;
      globs := Parse(list);
    }

    method Contains(name: string, contains: bool) returns (r: bool)
      requires Valid()
      ensures r == Decide(globs, name, contains)
      decreases |globs|
    {
      r := contains;
      if Matches(pattern, name) {
        r := positive;
      }
      if nextGlob != null {
        r := nextGlob.Contains(name, r);
      }
    }
  }

  // ---------- merging lists ----------

  /** Appends the second list after a comma, unless the first is empty. */
  function Joined(a: string, b: string): string {
    (if a != "" then a + "," else "") + b
  }

  lemma UpToCommaOf(a: string, b: string)
    ensures UpToComma(a + "," + b) == UpToComma(a)
    decreases a
  {
    if a != "" && a[0] != ',' {
      assert (a + "," + b)[1..] == a[1..] + "," + b;
      UpToCommaOf(a[1..], b);
    } else if a != "" {
      assert (a + "," + b)[0] == ',';
    }
  }

  /** The list has a single glob. */
  predicate Single(s: string) {
    |UpToComma(WithoutMinus(s))| == |WithoutMinus(s)|
  }

  lemma FirstOfJoined(a: string, b: string)
    requires a != ""
    ensures FirstGlob(a + "," + b) == FirstGlob(a)
    ensures Rest(a + "," + b) == if Single(a) then b else Rest(a) + "," + b
    ensures (Single(a) ==> Rest(a) == "") && |Rest(a)| < |a|
  {
    var s := a + "," + b;
    assert s[0] == a[0];
    assert WithoutMinus(s) == WithoutMinus(a) + "," + b by {
      assert s[1..] == a[1..] + "," + b;
    }
    UpToCommaOf(WithoutMinus(a), b);
    var rest, p := WithoutMinus(a), UpToComma(WithoutMinus(a));
    if |p| == |rest| {
      assert (rest + "," + b)[|p| + 1..] == b;
    } else {
      assert (rest + "," + b)[|p| + 1..] == rest[|p| + 1..] + "," + b;
    }
  }

  /** Composing two filters is filtering by the merged list, for any name that is not
      empty, even when parts of the lists are empty. */
  lemma {:induction false} JoinedDecides(a: string, b: string, name: string, seed: bool)
    requires name != ""
    ensures Decide(Parse(Joined(a, b)), name, seed) == Decide(Parse(b), name, Decide(Parse(a), name, seed))
    decreases |a|
  {
    if a == "" {
      assert Joined(a, b) == b;
      EmptyDecides("", name, seed);
    } else {
      AppendedDecides(a, b, name, seed);
    }
  }

  lemma {:induction false} EmptyDecides(s: string, name: string, seed: bool)
    requires name != "" && s == ""
    ensures Decide(Parse(s), name, seed) == seed
  {
    assert Parse(s) == [FirstGlob(s)];
  }

  /** Deciding by a list is deciding by its first glob and then by the rest. */
  lemma DecideStep(s: string, name: string, seed: bool)
    requires name != ""
    ensures Decide(Parse(s), name, seed) ==
            Decide(Parse(Rest(s)), name, if Matches(FirstGlob(s).pattern, name) then FirstGlob(s).positive else seed)
  {
    var after := if Matches(FirstGlob(s).pattern, name) then FirstGlob(s).positive else seed;
    if Rest(s) == "" {
      EmptyDecides(Rest(s), name, after);
    } else {
      assert Parse(s)[1..] == Parse(Rest(s));
    }
  }

  lemma {:induction false} AppendedDecides(a: string, b: string, name: string, seed: bool)
    requires name != "" && a != ""
    ensures Decide(Parse(a + "," + b), name, seed) == Decide(Parse(b), name, Decide(Parse(a), name, seed))
    decreases |a|
  {
    hide Parse;
    hide Decide;
    hide FirstGlob;
    hide Rest;
    hide Single;
    var after := if Matches(FirstGlob(a).pattern, name) then FirstGlob(a).positive else seed;
    FirstOfJoined(a, b);
    DecideStep(a + "," + b, name, seed);
    DecideStep(a, name, seed);
    if Rest(a) != "" {
      AppendedDecides(Rest(a), b, name, after);
    } else {
      EmptyDecides(Rest(a), name, after);
      if !Single(a) {
        // A trailing comma leaves an empty glob in the middle, which matches nothing.
        assert Rest(a) + "," + b == "," + b;
        CommaDecides(b, name, after);
      }
    }
  }

  lemma CommaDecides(b: string, name: string, seed: bool)
    requires name != ""
    ensures Decide(Parse("," + b), name, seed) == Decide(Parse(b), name, seed)
  {
    var s := "," + b;
    DecideStep(s, name, seed);
    assert WithoutMinus(s) == s && UpToComma(s) == "";
    assert Rest(s) == s[1..] == b;
  }
}
