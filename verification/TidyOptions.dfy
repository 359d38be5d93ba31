/** Options of checks: how they are merged, and how the options of a file are found
    and cached. */
module TidyOptions {
  import opened Options
  import opened GlobLists

  datatype TidyOptions = TidyOptions(checks: Option<string>, headerFilter: Option<string>,
                                     systemHeaders: Option<bool>, temporaryDtors: Option<bool>,
                                     user: Option<string>, checkOptions: map<string, string>)
  {
    /** This, overridden by the fields of the other that have a value. */
    function MergeWith(other: TidyOptions): TidyOptions {
      TidyOptions(
        if other.checks.Some?
        then Some(Joined(if checks.Some? then checks.value else "", other.checks.value))
        else checks,
        if other.headerFilter.Some? then other.headerFilter else headerFilter,
        if other.systemHeaders.Some? then other.systemHeaders else systemHeaders,
        if other.temporaryDtors.Some? then other.temporaryDtors else temporaryDtors,
        if other.user.Some? then other.user else user,
        checkOptions + other.checkOptions)
    }

    /** Whether a check is enabled, if it was before. */
    function Enables(name: string, before: bool): bool {
      if checks.Some? then Decide(Parse(checks.value), name, before) else before
    }
  }

  /** Field by field: a value that the other has wins, one that it lacks stays; check
      options win key by key; lists of checks are joined. */
  lemma MergedFields(a: TidyOptions, b: TidyOptions)
    ensures var m := a.MergeWith(b);
            && (b.headerFilter.Some? ==> m.headerFilter == b.headerFilter)
            && (b.headerFilter.None? ==> m.headerFilter == a.headerFilter)
            && (b.systemHeaders.Some? ==> m.systemHeaders == b.systemHeaders)
            && (b.systemHeaders.None? ==> m.systemHeaders == a.systemHeaders)
            && (b.temporaryDtors.Some? ==> m.temporaryDtors == b.temporaryDtors)
            && (b.temporaryDtors.None? ==> m.temporaryDtors == a.temporaryDtors)
            && (b.user.Some? ==> m.user == b.user)
            && (b.user.None? ==> m.user == a.user)
            && (b.checks.None? ==> m.checks == a.checks)
            && (b.checks.Some? && (a.checks.None? || a.checks.value == "") ==> m.checks == b.checks)
            && (a.checks.Some? && b.checks.Some? && a.checks.value != "" ==>
                  m.checks == Some(a.checks.value + "," + b.checks.value))
    ensures var m := a.MergeWith(b);
            && (forall k :: k in m.checkOptions <==> k in a.checkOptions || k in b.checkOptions)
            && (forall k :: k in b.checkOptions ==> m.checkOptions[k] == b.checkOptions[k])
            && (forall k :: k in a.checkOptions && k !in b.checkOptions ==> m.checkOptions[k] == a.checkOptions[k])
  {
    if b.checks.Some? {
      EmptyFirst(b.checks.value);
      assert b.checks == Some(b.checks.value);
    }
  }

  /** The same but for the spelling of the list of checks. */
  ghost predicate Equivalent(a: TidyOptions, b: TidyOptions) {
    && a.(checks := None) == b.(checks := None)
    && (a.checks.Some? <==> b.checks.Some?)
    && forall name, before :: name != "" ==> a.Enables(name, before) == b.Enables(name, before)
  }

  /** Merging check lists composes filters. */
  lemma MergedEnables(a: TidyOptions, b: TidyOptions, name: string, before: bool)
    requires name != ""
    ensures a.MergeWith(b).Enables(name, before) == b.Enables(name, a.Enables(name, before))
  {
    if b.checks.Some? {
      JoinedDecides(if a.checks.Some? then a.checks.value else "", b.checks.value, name, before);
      if a.checks.None? { EmptyDecides("", name, before); }
    }
  }

  lemma MergeAssociative(a: TidyOptions, b: TidyOptions, c: TidyOptions)
    ensures Equivalent(a.MergeWith(b).MergeWith(c), a.MergeWith(b.MergeWith(c)))
  {
    var left, right := a.MergeWith(b).MergeWith(c), a.MergeWith(b.MergeWith(c));
    assert left.checkOptions == right.checkOptions;
    forall name, before | name != "" ensures left.Enables(name, before) == right.Enables(name, before) {
      MergedEnables(a.MergeWith(b), c, name, before);
      MergedEnables(a, b, name, before);
      MergedEnables(a, b.MergeWith(c), name, before);
      MergedEnables(b, c, name, a.Enables(name, before));
    }
  }

  /** Merging cannot tell equivalent options apart. */
  lemma MergeCongruent(a: TidyOptions, b: TidyOptions, c: TidyOptions, d: TidyOptions)
    requires Equivalent(a, b) && Equivalent(c, d)
    ensures Equivalent(a.MergeWith(c), b.MergeWith(d))
  {
    var left, right := a.MergeWith(c), b.MergeWith(d);
    assert a.checkOptions == a.(checks := None).checkOptions == b.(checks := None).checkOptions == b.checkOptions;
    forall name, before | name != "" ensures left.Enables(name, before) == right.Enables(name, before) {
      MergedEnables(a, c, name, before);
      MergedEnables(b, d, name, before);
      assert a.Enables(name, before) == b.Enables(name, before);
    }
  }

  /** Joining lists one way or the other spells the same list iff no empty list comes
      between. */
  lemma JoinedAssociates(a: string, b: string, c: string)
    ensures Joined(Joined(a, b), c) == Joined(a, Joined(b, c)) <==> a == "" || b != ""
  {
    if a != "" {
      var left, right := Joined(Joined(a, b), c), Joined(a, Joined(b, c));
      assert left == a + "," + b + "," + c;
      if b == "" {
        assert |left| == |right| + 1;
      } else {
        assert right == a + "," + (b + "," + c);
      }
    }
  }

  /** So the order of merging shows in the spelling exactly when options with an empty
      list of checks come between others that have one, the first not empty. */
  lemma MergeAssociatesExactly(a: TidyOptions, b: TidyOptions, c: TidyOptions)
    ensures a.MergeWith(b).MergeWith(c) == a.MergeWith(b.MergeWith(c)) <==>
            !(a.checks.Some? && a.checks.value != "" && b.checks == Some("") && c.checks.Some?)
  {
    hide Joined;
    var left, right := a.MergeWith(b).MergeWith(c), a.MergeWith(b.MergeWith(c));
    assert left.checkOptions == right.checkOptions;
    var s := if a.checks.Some? then a.checks.value else "";
    var t := if b.checks.Some? then b.checks.value else "";
    var u := if c.checks.Some? then c.checks.value else "";
    EmptyFirst(t);
    EmptyFirst(u);
    JoinedAssociates(s, t, u);
  }

  lemma EmptyFirst(a: string)
    ensures Joined("", a) == a
  {}

  /** The lists themselves differ with the order of merging, and a check with an empty
      name could tell. */
  lemma SpellingsDiffer(a: string, c: string)
    requires a != "" && a[0] != '-' && c != "" && c[0] != '-' && ',' !in a && ',' !in c
    requires !Matches(a, "") && !Matches(c, "")
    ensures Joined(Joined(a, ""), "-" + c) == a + ",,-" + c
    ensures Joined(a, Joined("", "-" + c)) == a + ",-" + c
    ensures Decide(Parse(a + ",,-" + c), "", false) && !Decide(Parse(a + ",-" + c), "", false)
  {
    hide Parse;
    hide Decide;
    hide Matches;
    var last := "-" + c;
    ParseLast(c);
    ParseGlob("", last);
    ParseGlob(a, "," + last);
    ParseGlob(a, last);
    assert a + ",,-" + c == a + "," + ("," + last) && a + ",-" + c == a + "," + last && "" + "," + last == "," + last;
    assert Joined(a, "") == a + ",";
    EmptyMatches();
    assert Parse(a + ",,-" + c) == [Glob(true, a), Glob(true, ""), Glob(false, c)];
    assert Parse(a + ",-" + c) == [Glob(true, a), Glob(false, c)];
    assert Joined(Joined(a, ""), last) == a + "," + "," + last && a + "," + "," + last == a + ",,-" + c;
    assert Joined("", last) == last && Joined(a, last) == a + ",-" + c;
    LastMatchWins([Glob(true, a), Glob(true, ""), Glob(false, c)], "", false, 1);
    NoMatch([Glob(true, a), Glob(false, c)], "", false);
  }

  lemma EmptyMatches()
    ensures Matches("", "")
  {}

  lemma ParseLast(c: string)
    requires ',' !in c
    ensures Parse("-" + c) == [Glob(false, c)]
  {
    NoComma(c);
    assert WithoutMinus("-" + c) == c && Rest("-" + c) == "";
  }

  lemma {:induction false} NoComma(s: string)
    requires ',' !in s
    ensures UpToComma(s) == s
  {
    if s != "" { NoComma(s[1..]); }
  }

  lemma ParseGlob(a: string, rest: string)
    requires ',' !in a && (a == "" || a[0] != '-') && rest != ""
    ensures Parse(a + "," + rest) == [Glob(true, a)] + Parse(rest)
  {
    var s := a + "," + rest;
    NoComma(a);
    UpToCommaOf(a, rest);
    assert s[0] == if a == "" then ',' else a[0];
    assert s[|a| + 1..] == rest;
    assert FirstGlob(s) == Glob(true, a) && Rest(s) == rest;
  }

  // ---------- configuration files ----------

  /** A path without its last component; the empty path is its own parent. */
  type Path = seq<string>

  function Parent(p: Path): Path {
    if p == [] then [] else p[..|p| - 1]
  }

  datatype File = NotRegular | Unreadable | Text(contents: string)

  /** A kind of configuration file: its name, and how its contents are parsed. */
  datatype Handler = Handler(fileName: string, parse: string -> Option<TidyOptions>)

  /** The file system and the settings, which do not change. */
  datatype Setting = Setting(isDirectory: Path -> bool, file: Path -> File, handlers: seq<Handler>,
                             defaults: TidyOptions, overrides: TidyOptions)

  /** What the configuration file of a kind in a directory says, if it is usable. */
  function Configured(s: Setting, dir: Path, h: Handler): Option<TidyOptions> {
    match s.file(dir + [h.fileName])
    case Text(contents) => if contents == "" then None else h.parse(contents)
    case _ => None
  }

  function FirstConfigured(s: Setting, dir: Path, handlers: seq<Handler>): Option<TidyOptions> {
    if handlers == [] then None
    else if Configured(s, dir, handlers[0]).Some? then Configured(s, dir, handlers[0])
    else FirstConfigured(s, dir, handlers[1..])
  }

  /** The options of a directory that has a usable configuration file. */
  function OwnOptions(s: Setting, dir: Path): Option<TidyOptions> {
    if !s.isDirectory(dir) then None
    else match FirstConfigured(s, dir, s.handlers)
         case None => None
         case Some(o) => Some(s.defaults.MergeWith(o).MergeWith(s.overrides))
  }

  /** Without a cache: the options of the nearest directory that has its own, else the
      defaults. */
  function Lookup(s: Setting, dir: Path): TidyOptions {
    if dir == [] then s.defaults.MergeWith(s.overrides)
    else if OwnOptions(s, dir).Some? then OwnOptions(s, dir).value
    else Lookup(s, Parent(dir))
  }

  lemma {:induction false} NearestDecides(s: Setting, dir: Path, n: nat)
    requires 0 < n <= |dir| && OwnOptions(s, dir[..n]).Some?
    requires forall k :: n < k <= |dir| ==> OwnOptions(s, dir[..k]).None?
    ensures Lookup(s, dir) == OwnOptions(s, dir[..n]).value
    decreases |dir|
  {
    assert dir[..|dir|] == dir;
    if n < |dir| {
      var up := Parent(dir);
      assert forall k :: 0 <= k <= |up| ==> up[..k] == dir[..k];
      NearestDecides(s, up, n);
    }
  }

  /** The file's kind is the first one that is usable: a regular file that can be read, is
      not empty and parses. */
  ghost predicate Uses(s: Setting, dir: Path, i: nat, o: TidyOptions) {
    && i < |s.handlers| && Says(s, dir, i) == Some(o)
    && forall j :: 0 <= j < i ==> Says(s, dir, j) == None
  }

  ghost function Says(s: Setting, dir: Path, i: nat): Option<TidyOptions>
    requires i < |s.handlers|
  {
    var file := s.file(dir + [s.handlers[i].fileName]);
    if file.Text? && |file.contents| > 0 then s.handlers[i].parse(file.contents) else None
  }

  /** Of three settings of an option the last that is given is in force, or none. */
  ghost predicate InForce<T>(r: Option<T>, weak: Option<T>, middle: Option<T>, strong: Option<T>) {
    r == if strong.Some? then strong else if middle.Some? then middle else weak
  }

  /** The options are the overrides, else what the file says, else the defaults. */
  ghost predicate Effective(r: TidyOptions, defaults: TidyOptions, file: TidyOptions, overrides: TidyOptions) {
    && InForce(r.headerFilter, defaults.headerFilter, file.headerFilter, overrides.headerFilter)
    && InForce(r.systemHeaders, defaults.systemHeaders, file.systemHeaders, overrides.systemHeaders)
    && InForce(r.temporaryDtors, defaults.temporaryDtors, file.temporaryDtors, overrides.temporaryDtors)
    && InForce(r.user, defaults.user, file.user, overrides.user)
    && (forall k :: InForce(ValueOf(r.checkOptions, k), ValueOf(defaults.checkOptions, k),
                            ValueOf(file.checkOptions, k), ValueOf(overrides.checkOptions, k)))
    && (forall name, before :: name != "" ==>
          r.Enables(name, before) ==
          overrides.Enables(name, file.Enables(name, defaults.Enables(name, before))))
  }

  function ValueOf(m: map<string, string>, k: string): Option<string> {
    if k in m then Some(m[k]) else None
  }

  const NO_OPTIONS := TidyOptions(None, None, None, None, None, map[])

  /** A directory has options of its own iff it has a usable file; overrides beat the
      file, and the file beats the defaults. */
  lemma OwnOptionsMean(s: Setting, dir: Path)
    ensures OwnOptions(s, dir).Some? <==> s.isDirectory(dir) && exists i, o :: Uses(s, dir, i, o)
    ensures forall i, o :: s.isDirectory(dir) && Uses(s, dir, i, o) ==>
              OwnOptions(s, dir).Some? && Effective(OwnOptions(s, dir).value, s.defaults, o, s.overrides)
  {
    FirstUsed(s, dir, 0);
    forall i, o | s.isDirectory(dir) && Uses(s, dir, i, o)
      ensures OwnOptions(s, dir).Some? && Effective(OwnOptions(s, dir).value, s.defaults, o, s.overrides)
    {
      UsedIsFirst(s, dir, i, 0);
      MergedEffective(s.defaults, o, s.overrides);
    }
  }

  lemma MergedEffective(defaults: TidyOptions, file: TidyOptions, overrides: TidyOptions)
    ensures Effective(defaults.MergeWith(file).MergeWith(overrides), defaults, file, overrides)
  {
    var m := defaults.MergeWith(file);
    MergedFields(defaults, file);
    MergedFields(m, overrides);
    forall name, before | name != ""
      ensures m.MergeWith(overrides).Enables(name, before) ==
              overrides.Enables(name, file.Enables(name, defaults.Enables(name, before)))
    {
      MergedEnables(m, overrides, name, before);
      MergedEnables(defaults, file, name, before);
    }
  }

  lemma {:induction false} FirstUsed(s: Setting, dir: Path, i: nat)
    requires i <= |s.handlers| && forall j :: 0 <= j < i ==> Says(s, dir, j) == None
    ensures var o := FirstConfigured(s, dir, s.handlers[i..]);
            o.Some? <==> exists k, p :: Uses(s, dir, k, p)
    decreases |s.handlers| - i
  {
    if i < |s.handlers| {
      assert s.handlers[i..][1..] == s.handlers[i + 1..];
      if Says(s, dir, i).Some? {
        assert Uses(s, dir, i, Says(s, dir, i).value);
      } else {
        FirstUsed(s, dir, i + 1);
      }
    }
  }

  lemma {:induction false} UsedIsFirst(s: Setting, dir: Path, k: nat, i: nat)
    requires i <= k < |s.handlers| && Says(s, dir, k).Some?
    requires forall j :: 0 <= j < k ==> Says(s, dir, j) == None
    ensures FirstConfigured(s, dir, s.handlers[i..]) == Says(s, dir, k)
    decreases k - i
  {
    assert s.handlers[i..][1..] == s.handlers[i + 1..];
    assert Configured(s, dir, s.handlers[i]) == Says(s, dir, i);
    if i < k { UsedIsFirst(s, dir, k, i + 1); }
  }

  /** Where no directory on the way up has options of its own, the overrides beat the
      defaults. */
  lemma {:induction false} NoneDecides(s: Setting, dir: Path)
    requires forall k :: 0 < k <= |dir| ==> OwnOptions(s, dir[..k]).None?
    ensures Effective(Lookup(s, dir), s.defaults, NO_OPTIONS, s.overrides)
    decreases |dir|
  {
    if dir == [] {
      MergedEffective(s.defaults, NO_OPTIONS, s.overrides);
      assert s.defaults.MergeWith(NO_OPTIONS) == s.defaults;
    } else {
      assert dir[..|dir|] == dir;
      var up := Parent(dir);
      assert forall k :: 0 <= k <= |up| ==> up[..k] == dir[..k];
      NoneDecides(s, up);
    }
  }

  class FileOptionsProvider {
    const setting: Setting
    var cachedOptions: map<Path, TidyOptions>

    /** Whatever is cached is what a search would find. */
    ghost predicate Valid()
      reads this
    {
      [] in cachedOptions && forall p :: p in cachedOptions ==> cachedOptions[p] == Lookup(setting, p)
    }

    constructor (setting: Setting)
      ensures Valid() && this.setting == setting
    {
      this.setting := setting;
      cachedOptions := map[[] := setting.defaults.MergeWith(setting.overrides)];
    }

    method TryReadConfigFile(dir: Path) returns (r: Option<TidyOptions>)
      requires dir != []
      ensures r == OwnOptions(setting, dir)
    {
      if !setting.isDirectory(dir) {
        return None;
      }
      var handlers := setting.handlers;
      assert handlers[0..] == handlers;
      for i := 0 to |handlers|
        invariant FirstConfigured(setting, dir, handlers) == FirstConfigured(setting, dir, handlers[i..])
      {
        var h := handlers[i];
        assert handlers[i..][1..] == handlers[i + 1..];
        var file := setting.file(dir + [h.fileName]);
        if file.NotRegular? {
          continue;
        }
        if file.Unreadable? {
          continue;
        }
        // Skip empty files.
        if file.contents == "" {
          continue;
        }
        var parsed := h.parse(file.contents);
        if parsed.None? {
          continue;
        }
        return Some(setting.defaults.MergeWith(parsed.value).MergeWith(setting.overrides));
      }
      return None;
    }

    /** The cached search gives what a search without a cache would. */
    method GetOptions(fileName: Path) returns (r: TidyOptions)
      requires Valid()
      modifies this
      ensures Valid() && r == Lookup(setting, Parent(fileName))
      ensures cachedOptions.Keys >= old(cachedOptions).Keys && Parent(fileName) in cachedOptions
    {
      var path := Parent(fileName);
      var currentPath := path;
      while true
        invariant Valid() && cachedOptions == old(cachedOptions)
        invariant |currentPath| <= |path| && currentPath == path[..|currentPath|]
        invariant forall k {:trigger path[..k]} :: |currentPath| <= k <= |path| ==>
                    Lookup(setting, path[..k]) == Lookup(setting, path)
        decreases |currentPath|
      {
        var result := None;
        if currentPath in cachedOptions {
          result := Some(cachedOptions[currentPath]);
        }
        if result == None {
          result := TryReadConfigFile(currentPath);
        }
        assert path[..|path|] == path;
        if result.Some? {
          assert result.value == Lookup(setting, currentPath) == Lookup(setting, path);
          CacheUpTo(path, currentPath, result.value);
          return result.value;
        }
        assert Parent(currentPath) == path[..|currentPath| - 1];
        currentPath := Parent(currentPath);
      }
    }

    /** Caches the options for all directories on the way to the one they came from. */
    method CacheUpTo(start: Path, currentPath: Path, result: TidyOptions)
      requires Valid() && |currentPath| <= |start| && currentPath == start[..|currentPath|]
      requires forall k {:trigger start[..k]} :: |currentPath| <= k <= |start| ==> Lookup(setting, start[..k]) == result
      modifies this
      ensures Valid() && start in cachedOptions && cachedOptions.Keys >= old(cachedOptions).Keys
    {
      var path := start;
      assert start[..|start|] == start;
      while path != currentPath
        invariant Valid() && |currentPath| <= |path| <= |start| && path == start[..|path|]
        invariant path == start || start in cachedOptions
        invariant cachedOptions.Keys >= old(cachedOptions).Keys
        decreases |path|
      {
        cachedOptions := cachedOptions[path := result];
        assert Parent(path) == start[..|path| - 1];
        path := Parent(path);
      }
      cachedOptions := cachedOptions[path := result];
    }
  }
}
