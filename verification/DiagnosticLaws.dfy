/** What the definitions about diagnostics come to, in terms of the diagnostics, the
    filters and the errors themselves. */
module DiagnosticLaws {
  import opened Options
  import opened DiagnosticSpec

  // ---------- one diagnostic ----------

  /** The option that enabled a diagnostic names it; else the check that made it does;
      a diagnostic with neither is named after its level. */
  lemma NamedAfter(d: Diagnostic)
    ensures d.warningOption != "" ==> CheckName(d) == "clang-diagnostic-" + d.warningOption
    ensures d.warningOption == "" && d.registeredName != "" ==> CheckName(d) == d.registeredName
    ensures d.warningOption == "" == d.registeredName ==>
              && (CheckName(d) == "clang-diagnostic-error" <==> d.level in {Error, Fatal})
              && (CheckName(d) == "clang-diagnostic-warning" <==> d.level == Warning)
              && (CheckName(d) == "clang-diagnostic-unknown" <==> d.level in {Ignored, Note, Remark})
  {
    var a, b, c := "clang-diagnostic-error", "clang-diagnostic-warning", "clang-diagnostic-unknown";
    assert a[17] == 'e' && b[17] == 'w' && c[17] == 'u';
  }

  lemma SuffixMeans(s: string, suffix: string)
    ensures EndsWith(s, suffix) <==> exists prefix :: s == prefix + suffix
  {
    if EndsWith(s, suffix) {
      assert s == s[..|s| - |suffix|] + suffix;
    }
    if prefix :| s == prefix + suffix {
      assert s[|prefix|..] == suffix;
    }
  }

  /** A text that does not end with the name is left alone, and the place is kept. */
  lemma OtherTextKept(d: Diagnostic, checkName: string)
    ensures var m := MessageOf(d, checkName);
            && (m.text == d.text || m.text + " [" + checkName + "]" == d.text)
            && (m.text == d.text <==> forall prefix: string :: d.text != prefix + (" [" + checkName + "]"))
            && (d.location.At? ==> m.fileOffset == d.location.offset)
            && (d.location.At? && d.location.fileName.Some? ==> Some(m.filePath) == d.location.fileName)
  {
    var suffix := " [" + checkName + "]";
    SuffixMeans(d.text, suffix);
    if EndsWith(d.text, suffix) {
      var m := MessageOf(d, checkName);
      assert m.text + suffix == d.text;
      assert m.text + " [" + checkName + "]" == m.text + suffix;
    }
  }

  // ---------- which diagnostics are wanted ----------

  /** In a system header, while system headers are not wanted. */
  predicate Overlooked(ctx: Context, d: Diagnostic) {
    d.location.At? && d.location.systemHeader && !ctx.systemHeaders
  }

  /** On the command line, or in a buffer without a name. */
  predicate Nowhere(d: Diagnostic) {
    d.location.At? ==> d.location.fileName == None
  }

  /** Of the filters that fit a file, the first. */
  predicate FirstFitting(filters: seq<FileFilter>, fileName: string, n: nat) {
    && n < |filters| && EndsWith(fileName, filters[n].name)
    && forall k :: 0 <= k < n ==> !EndsWith(fileName, filters[k].name)
  }

  /** The filter has no ranges, or one with the line in it. */
  predicate Admits(filter: FileFilter, line: nat) {
    filter.lineRanges == [] || exists r :: r in filter.lineRanges && r.first <= line <= r.last
  }

  /** The line passes iff some filter fits the file and the first that does has no ranges
      or one with the line in it. */
  lemma {:induction false} FirstFittingDecides(filters: seq<FileFilter>, fileName: string, line: nat)
    ensures PassesFilters(filters, fileName, line) <==>
            exists n: nat :: FirstFitting(filters, fileName, n) && Admits(filters[n], line)
  {
    if filters != [] {
      var rest, ranges := filters[1..], filters[0].lineRanges;
      assert InRanges(ranges, line) <==> exists r :: r in ranges && r.first <= line <= r.last;
      FirstFittingDecides(rest, fileName, line);
      if EndsWith(fileName, filters[0].name) {
        assert FirstFitting(filters, fileName, 0);
        assert forall n: nat :: FirstFitting(filters, fileName, n) ==> n == 0;
      } else {
        assert forall n: nat :: FirstFitting(rest, fileName, n) ==> FirstFitting(filters, fileName, n + 1);
        forall n: nat | FirstFitting(filters, fileName, n)
          ensures n > 0 && FirstFitting(rest, fileName, n - 1) && rest[n - 1] == filters[n]
        {
          assert n > 0;
          assert forall k :: 0 <= k < n - 1 ==> rest[k] == filters[k + 1];
        }
      }
    }
  }

  /** A wanted header, or the main file, is enough, and in a named file it is needed. */
  lemma UserCodeMeans(ctx: Context, d: Diagnostic)
    ensures InUserCode(ctx, d) <==>
            !Overlooked(ctx, d) &&
            (Nowhere(d) || d.location.mainFile || ctx.headerWanted(d.location.fileName.value))
  {}

  /** A line in a range of the first filter that fits is enough. */
  lemma WantedLineMeans(ctx: Context, d: Diagnostic)
    ensures Overlooked(ctx, d) ==> !OnWantedLine(ctx, d)
    ensures !Overlooked(ctx, d) && (Nowhere(d) || ctx.lineFilter == []) ==> OnWantedLine(ctx, d)
    ensures !Overlooked(ctx, d) && !Nowhere(d) && ctx.lineFilter != [] ==>
              (OnWantedLine(ctx, d) <==>
               exists n: nat :: FirstFitting(ctx.lineFilter, d.location.fileName.value, n) &&
                                Admits(ctx.lineFilter[n], d.location.line))
  {
    if d.location.At? && d.location.fileName.Some? {
      FirstFittingDecides(ctx.lineFilter, d.location.fileName.value, d.location.line);
    }
  }

  // ---------- groups ----------

  /** Errors are displayed whatever the filters say; a warning with its notes is if its
      check is enabled, some location is wanted and some line is. */
  lemma DisplayedMeans(ctx: Context, g: Group)
    requires ProperGroup(g)
    ensures g[0].level in {Error, Fatal} ==> Displayed(ctx, g)
    ensures g[0].level !in {Error, Fatal} ==>
              (Displayed(ctx, g) <==>
               && ctx.checkEnabled(CheckName(g[0]))
               && (exists d :: d in g && InUserCode(ctx, d))
               && (exists d :: d in g && OnWantedLine(ctx, d)))
  {
    hide InUserCode;
    hide OnWantedLine;
    hide CheckName;
    if g[0].level in {Error, Fatal} {
      assert IsError(g[0]);
    } else {
      assert forall i :: 0 <= i < |g| ==> !IsError(g[i]);
    }
  }

  /** The error has the check, the severity and the message of the first diagnostic, a
      message for each note in order, and the fixes of all that point somewhere. */
  lemma ErrorMeans(g: Group, f: Replacement)
    requires ProperGroup(g)
    ensures var e := ErrorOf(g);
            && e.checkName == CheckName(g[0]) && (e.isError <==> g[0].level in {Error, Fatal})
            && e.message == MessageOf(g[0], e.checkName) && |e.notes| == |g| - 1
            && (forall i :: 0 < i < |g| ==> e.notes[i - 1] == MessageOf(g[i], e.checkName))
            && (f in e.fix <==> exists i :: 0 <= i < |g| && g[i].location.At? && f in g[i].fixIts)
  {
    hide CheckName;
    hide MessageOf;
    var e := ErrorOf(g);
    if f in e.fix {
      var d :| d in g && f in FixesOf(d);
      var i :| 0 <= i < |g| && g[i] == d;
      assert g[i].location.At? && f in g[i].fixIts;
    }
    if i :| 0 <= i < |g| && g[i].location.At? && f in g[i].fixIts {
      assert g[i] in g && f in FixesOf(g[i]);
    }
  }

  /** Which errors are displayed. */
  lemma {:induction false} DisplayedExactly(ctx: Context, gs: seq<Group>, e: TidyError)
    ensures e in DisplayedErrors(ctx, gs) <==> exists g :: g in gs && Displayed(ctx, g) && ErrorOf(g) == e
  {
    hide Displayed;
    hide ErrorOf;
    if gs != [] {
      var before, last := gs[..|gs| - 1], gs[|gs| - 1];
      DisplayedExactly(ctx, before, e);
      assert gs == before + [last];
      assert forall g :: g in gs <==> g in before || g == last;
    }
  }

  /** They are displayed in the order of their groups. */
  lemma {:induction false} DisplayedInOrder(ctx: Context, gs: seq<Group>, hs: seq<Group>)
    ensures DisplayedErrors(ctx, gs + hs) == DisplayedErrors(ctx, gs) + DisplayedErrors(ctx, hs)
  {
    hide Displayed;
    hide ErrorOf;
    if hs == [] {
      assert gs + hs == gs;
    } else {
      DisplayedInOrder(ctx, gs, hs[..|hs| - 1]);
      assert (gs + hs)[..|gs + hs| - 1] == gs + hs[..|hs| - 1];
    }
  }

  /** The numbers of groups that the given test holds of. */
  function Numbers(gs: seq<Group>, test: Group -> bool): (s: set<nat>)
    ensures forall i :: i in s <==> 0 <= i < |gs| && test(gs[i])
  {
    set i: nat | i < |gs| && test(gs[i])
  }

  lemma NumbersGrow(gs: seq<Group>, test: Group -> bool)
    requires gs != []
    ensures |Numbers(gs, test)| == |Numbers(gs[..|gs| - 1], test)| + if test(gs[|gs| - 1]) then 1 else 0
  {
    var before := Numbers(gs[..|gs| - 1], test);
    assert Numbers(gs, test) == before + if test(gs[|gs| - 1]) then {|gs| - 1} else {};
  }

  function Shown(ctx: Context): Group -> bool {
    (g: Group) => Displayed(ctx, g)
  }

  function Disabled(ctx: Context): Group -> bool {
    (g: Group) => !EnabledGroup(ctx, g)
  }

  function Foreign(ctx: Context): Group -> bool {
    (g: Group) => EnabledGroup(ctx, g) && !UserGroup(ctx, g)
  }

  function OffLine(ctx: Context): Group -> bool {
    (g: Group) => EnabledGroup(ctx, g) && UserGroup(ctx, g) && !WantedGroup(ctx, g)
  }

  /** Each group is counted under the first reason there is to ignore it. */
  lemma {:induction false} CountedUnder(ctx: Context, s: Stats, gs: seq<Group>)
    ensures var t := CountAll(ctx, s, gs);
            && t.displayed == s.displayed + |Numbers(gs, Shown(ctx))|
            && t.ignoredCheckFilter == s.ignoredCheckFilter + |Numbers(gs, Disabled(ctx))|
            && t.ignoredNonUserCode == s.ignoredNonUserCode + |Numbers(gs, Foreign(ctx))|
            && t.ignoredLineFilter == s.ignoredLineFilter + |Numbers(gs, OffLine(ctx))|
  {
    hide EnabledGroup;
    hide UserGroup;
    hide WantedGroup;
    hide Numbers;
    if gs == [] {
      NoNumbers(Shown(ctx));
      NoNumbers(Disabled(ctx));
      NoNumbers(Foreign(ctx));
      NoNumbers(OffLine(ctx));
    } else {
      CountedUnder(ctx, s, gs[..|gs| - 1]);
      NumbersGrow(gs, Shown(ctx));
      NumbersGrow(gs, Disabled(ctx));
      NumbersGrow(gs, Foreign(ctx));
      NumbersGrow(gs, OffLine(ctx));
    }
  }

  lemma NoNumbers(test: Group -> bool)
    ensures Numbers([], test) == {}
  {}

  // ---------- the order ----------

  /** The strings agree up to a place where the first ends or has the smaller character. */
  predicate SmallerAt(a: string, b: string, n: nat) {
    n <= |a| && n < |b| && a[..n] == b[..n] && (n < |a| ==> a[n] < b[n])
  }

  lemma {:induction false} BeforeMeans(a: string, b: string)
    ensures Before(a, b) <==> exists n: nat :: SmallerAt(a, b, n)
  {
    if b != "" && (a == "" || a[0] < b[0]) {
      assert SmallerAt(a, b, 0);
    } else if a != "" && b != "" && a[0] == b[0] {
      BeforeMeans(a[1..], b[1..]);
      forall n: nat | SmallerAt(a[1..], b[1..], n) ensures SmallerAt(a, b, n + 1) {
        assert a[..n + 1] == [a[0]] + a[1..][..n] && b[..n + 1] == [b[0]] + b[1..][..n];
      }
      forall n: nat | SmallerAt(a, b, n) ensures n > 0 && SmallerAt(a[1..], b[1..], n - 1) {
        assert n > 0;
        assert a[1..][..n - 1] == a[..n][1..] && b[1..][..n - 1] == b[..n][1..];
      }
    } else {
      forall n: nat ensures !SmallerAt(a, b, n) { SameStart(a, b, n); }
    }
  }

  lemma SameStart(a: string, b: string, n: nat)
    ensures SmallerAt(a, b, n) ==> b != "" && (a == "" || a[0] <= b[0])
    ensures SmallerAt(a, b, n) && n > 0 ==> a != "" && a[0] == b[0]
  {
    if SmallerAt(a, b, n) && n > 0 {
      assert a[0] == a[..n][0] == b[..n][0] == b[0];
    }
  }

  /** The file counts first, then the offset in it, then the text. */
  lemma LessMeans(a: Message, b: Message)
    ensures a.filePath != b.filePath ==> (Less(a, b) <==> exists n: nat :: SmallerAt(a.filePath, b.filePath, n))
    ensures a.filePath == b.filePath && a.fileOffset != b.fileOffset ==> (Less(a, b) <==> a.fileOffset < b.fileOffset)
    ensures a.filePath == b.filePath && a.fileOffset == b.fileOffset ==>
              (Less(a, b) <==> exists n: nat :: SmallerAt(a.text, b.text, n))
  {
    hide SmallerAt;
    BeforeMeans(a.filePath, b.filePath);
    BeforeMeans(a.text, b.text);
    BeforeTotal(a.filePath, b.filePath);
  }

  /** Every error has its message in the list, once, and what stands for it is the first
      error with that message. */
  lemma StoredOnce(es: seq<TidyError>, unique: seq<TidyError>, i: nat) returns (j: nat, first: nat)
    requires UniqueErrors(es, unique) && i < |es|
    ensures j < |unique| && unique[j].message == es[i].message
    ensures forall k :: 0 <= k < |unique| && unique[k].message == es[i].message ==> k == j
    ensures first <= i && unique[j] == es[first] && forall k :: 0 <= k < first ==> es[k].message != es[i].message
  {
    first := 0;
    while es[first].message != es[i].message
      invariant first <= i && forall k :: 0 <= k < first ==> es[k].message != es[i].message
      decreases i - first
    {
      first := first + 1;
    }
    assert FirstOf(es, es[first]);
    assert es[first] in unique;
    j :| j < |unique| && unique[j] == es[first];
    forall k | 0 <= k < |unique| && unique[k].message == es[i].message ensures k == j {
      LessOrder(unique[k].message, unique[k].message, unique[k].message);
    }
  }
}
