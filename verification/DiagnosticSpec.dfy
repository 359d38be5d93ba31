/** What a stream of diagnostics comes to, taken as a whole: the groups of a diagnostic
    with its notes, and which of them are displayed. */
module DiagnosticSpec {
  import opened Options

  datatype Level = Ignored | Note | Remark | Warning | Error | Fatal

  /** Where a diagnostic points: nowhere, or to a line of a file, which may be a virtual
      buffer without a name. */
  datatype Location =
    | NoLocation
    | At(systemHeader: bool, mainFile: bool, fileName: Option<string>, line: nat, offset: nat)

  datatype Message = Message(text: string, filePath: string, fileOffset: nat)

  type Replacement = nat

  datatype Diagnostic = Diagnostic(level: Level, warningOption: string, registeredName: string,
                                   text: string, location: Location, fixIts: seq<Replacement>)

  datatype TidyError = TidyError(checkName: string, isError: bool, message: Message,
                                 fix: set<Replacement>, notes: seq<Message>)

  datatype LineRange = LineRange(first: nat, last: nat)
  datatype FileFilter = FileFilter(name: string, lineRanges: seq<LineRange>)

  /** The context: which checks are enabled, which headers are wanted, and where. */
  datatype Context = Context(checkEnabled: string -> bool, headerWanted: string -> bool,
                             systemHeaders: bool, lineFilter: seq<FileFilter>)

  datatype Stats = Stats(displayed: nat, ignoredCheckFilter: nat, ignoredNonUserCode: nat, ignoredLineFilter: nat)

  const NO_STATS := Stats(0, 0, 0, 0)

  // ---------- one diagnostic ----------

  predicate IsError(d: Diagnostic) {
    d.level.Error? || d.level.Fatal?
  }

  function CheckName(d: Diagnostic): (name: string)
    ensures name != ""
  {
    if d.warningOption != "" then "clang-diagnostic-" + d.warningOption
    else if d.registeredName != "" then d.registeredName
    else match d.level
         case Error => "clang-diagnostic-error"
         case Fatal => "clang-diagnostic-error"
         case Warning => "clang-diagnostic-warning"
         case _ => "clang-diagnostic-unknown"
  }

  predicate EndsWith(s: string, suffix: string) {
    |suffix| <= |s| && s[|s| - |suffix|..] == suffix
  }

  /** The text without the name of the check that was appended to it. */
  function MessageOf(d: Diagnostic, checkName: string): Message {
    var suffix := " [" + checkName + "]";
    var text := if EndsWith(d.text, suffix) then d.text[..|d.text| - |suffix|] else d.text;
    match d.location
    case NoLocation => Message(text, "", 0)
    case At(_, _, fileName, _, offset) => Message(text, if fileName.Some? then fileName.value else "", offset)
  }

  /** The name that was appended when the diagnostic was made is gone again. */
  lemma NameRemoved(d: Diagnostic, text: string)
    requires d.text == text + " [" + CheckName(d) + "]"
    ensures MessageOf(d, CheckName(d)).text == text
  {
    var suffix := " [" + CheckName(d) + "]";
    assert d.text == text + suffix;
    assert d.text[|text|..] == suffix;
  }

  function FixesOf(d: Diagnostic): set<Replacement> {
    if d.location.NoLocation? then {} else set f | f in d.fixIts
  }

  predicate InRanges(ranges: seq<LineRange>, line: nat) {
    exists i :: 0 <= i < |ranges| && ranges[i].first <= line <= ranges[i].last
  }

  /** The first filter that fits the file decides; without filters every line passes. */
  predicate PassesFilters(filters: seq<FileFilter>, fileName: string, line: nat) {
    if filters == [] then false
    else if EndsWith(fileName, filters[0].name)
    then filters[0].lineRanges == [] || InRanges(filters[0].lineRanges, line)
    else PassesFilters(filters[1..], fileName, line)
  }

  predicate PassesLineFilter(ctx: Context, fileName: string, line: nat) {
    ctx.lineFilter == [] || PassesFilters(ctx.lineFilter, fileName, line)
  }

  /** The location is one that users care about. */
  predicate InUserCode(ctx: Context, d: Diagnostic) {
    match d.location
    case NoLocation => true
    case At(systemHeader, mainFile, fileName, _, _) =>
      (ctx.systemHeaders || !systemHeader) &&
      (fileName.None? || mainFile || ctx.headerWanted(fileName.value))
  }

  predicate OnWantedLine(ctx: Context, d: Diagnostic) {
    match d.location
    case NoLocation => true
    case At(systemHeader, _, fileName, line, _) =>
      (ctx.systemHeaders || !systemHeader) &&
      (fileName.None? || PassesLineFilter(ctx, fileName.value, line))
  }

  // ---------- groups ----------

  type Group = g: seq<Diagnostic> | g != []
    witness [Diagnostic(Warning, "", "", "", NoLocation, [])]

  /** A note joins the last group; any other diagnostic starts one. */
  function Grown(gs: seq<Group>, d: Diagnostic): seq<Group> {
    if d.level.Note? && gs != []
    then gs[..|gs| - 1] + [gs[|gs| - 1] + [d]]
    else gs + [[d]]
  }

  /** Each diagnostic that is not a note, with the notes that follow. */
  function Groups(ds: seq<Diagnostic>): (gs: seq<Group>)
    ensures ds != [] ==> gs != []
  {
    if ds == [] then [] else Grown(Groups(ds[..|ds| - 1]), ds[|ds| - 1])
  }

  function Flattened(gs: seq<Group>): seq<Diagnostic> {
    if gs == [] then [] else Flattened(gs[..|gs| - 1]) + gs[|gs| - 1]
  }

  /** A diagnostic that is not a note, and notes. */
  predicate ProperGroup(g: Group) {
    !g[0].level.Note? && forall i :: 0 < i < |g| ==> g[i].level.Note?
  }

  lemma GrownFlattened(gs: seq<Group>, d: Diagnostic)
    ensures Flattened(Grown(gs, d)) == Flattened(gs) + [d]
  {
    var all := Grown(gs, d);
    if d.level.Note? && gs != [] {
      assert all[..|all| - 1] == gs[..|gs| - 1];
    } else {
      assert all[..|all| - 1] == gs;
    }
  }

  lemma GrownProper(gs: seq<Group>, d: Diagnostic)
    requires (forall i :: 0 <= i < |gs| ==> ProperGroup(gs[i])) && (gs == [] ==> !d.level.Note?)
    ensures forall i :: 0 <= i < |Grown(gs, d)| ==> ProperGroup(Grown(gs, d)[i])
  {
    var all := Grown(gs, d);
    forall i | 0 <= i < |all| ensures ProperGroup(all[i]) {
      if i < |gs| { assert ProperGroup(gs[i]); }
    }
  }

  /** Grouping loses nothing, and every group is a diagnostic with its notes. */
  lemma {:induction false} GroupsPartition(ds: seq<Diagnostic>)
    requires ds == [] || !ds[0].level.Note?
    ensures Flattened(Groups(ds)) == ds
    ensures forall i :: 0 <= i < |Groups(ds)| ==> ProperGroup(Groups(ds)[i])
  {
    if ds != [] {
      var before, d := ds[..|ds| - 1], ds[|ds| - 1];
      GroupsPartition(before);
      GrownFlattened(Groups(before), d);
      GrownProper(Groups(before), d);
      assert ds == before + [d];
    }
  }

  function NoteMessages(notes: seq<Diagnostic>, checkName: string): seq<Message> {
    seq(|notes|, i requires 0 <= i < |notes| => MessageOf(notes[i], checkName))
  }

  function ErrorOf(g: Group): TidyError {
    var name := CheckName(g[0]);
    TidyError(name, IsError(g[0]), MessageOf(g[0], name),
              set d, f | d in g && f in FixesOf(d) :: f,
              NoteMessages(g[1..], name))
  }

  predicate EnabledGroup(ctx: Context, g: Group) {
    ctx.checkEnabled(CheckName(g[0])) || IsError(g[0])
  }

  predicate UserGroup(ctx: Context, g: Group) {
    exists i :: 0 <= i < |g| && (InUserCode(ctx, g[i]) || IsError(g[i]))
  }

  predicate WantedGroup(ctx: Context, g: Group) {
    exists i :: 0 <= i < |g| && (OnWantedLine(ctx, g[i]) || IsError(g[i]))
  }

  /** The group is displayed. */
  predicate Displayed(ctx: Context, g: Group) {
    EnabledGroup(ctx, g) && UserGroup(ctx, g) && WantedGroup(ctx, g)
  }

  function DisplayedErrors(ctx: Context, gs: seq<Group>): seq<TidyError> {
    if gs == [] then []
    else DisplayedErrors(ctx, gs[..|gs| - 1]) +
         if Displayed(ctx, gs[|gs| - 1]) then [ErrorOf(gs[|gs| - 1])] else []
  }

  /** What becomes of a group is counted once, under the first reason to ignore it. */
  function Count(ctx: Context, s: Stats, g: Group): Stats {
    if !EnabledGroup(ctx, g) then s.(ignoredCheckFilter := s.ignoredCheckFilter + 1)
    else if !UserGroup(ctx, g) then s.(ignoredNonUserCode := s.ignoredNonUserCode + 1)
    else if !WantedGroup(ctx, g) then s.(ignoredLineFilter := s.ignoredLineFilter + 1)
    else s.(displayed := s.displayed + 1)
  }

  function CountAll(ctx: Context, s: Stats, gs: seq<Group>): Stats {
    if gs == [] then s else Count(ctx, CountAll(ctx, s, gs[..|gs| - 1]), gs[|gs| - 1])
  }

  function Total(s: Stats): nat {
    s.displayed + s.ignoredCheckFilter + s.ignoredNonUserCode + s.ignoredLineFilter
  }

  /** Every group is displayed or counted as ignored, and displayed groups are those
      that pass. */
  lemma {:induction false} CountsAddUp(ctx: Context, s: Stats, gs: seq<Group>)
    ensures Total(CountAll(ctx, s, gs)) == Total(s) + |gs|
    ensures CountAll(ctx, s, gs).displayed == s.displayed + |DisplayedErrors(ctx, gs)|
  {
    if gs != [] { CountsAddUp(ctx, s, gs[..|gs| - 1]); }
  }

  // ---------- the order of errors ----------

  predicate Before(a: string, b: string) {
    b != "" && (a == "" || a[0] < b[0] || (a[0] == b[0] && Before(a[1..], b[1..])))
  }

  /** By file, then by offset, then by text. */
  predicate Less(a: Message, b: Message) {
    Before(a.filePath, b.filePath) ||
    (a.filePath == b.filePath &&
     (a.fileOffset < b.fileOffset || (a.fileOffset == b.fileOffset && Before(a.text, b.text))))
  }

  lemma {:induction false} BeforeTotal(a: string, b: string)
    ensures Before(a, b) || Before(b, a) || a == b
    ensures !(Before(a, b) && Before(b, a)) && !Before(a, a)
  {
    if a != "" && b != "" {
      BeforeTotal(a[1..], b[1..]);
      BeforeTotal(a[1..], a[1..]);
      if a[0] == b[0] && a[1..] == b[1..] { assert a == [a[0]] + a[1..] && b == [b[0]] + b[1..]; }
    } else if a != "" {
      BeforeTotal(a[1..], a[1..]);
    }
  }

  lemma {:induction false} BeforeTransitive(a: string, b: string, c: string)
    requires Before(a, b) && Before(b, c)
    ensures Before(a, c)
  {
    if a != "" && a[0] == b[0] && b[0] == c[0] { BeforeTransitive(a[1..], b[1..], c[1..]); }
  }

  lemma LessOrder(a: Message, b: Message, c: Message)
    ensures Less(a, b) || Less(b, a) || a == b
    ensures !(Less(a, b) && Less(b, a)) && !Less(a, a)
    ensures Less(a, b) && Less(b, c) ==> Less(a, c)
  {
    BeforeTotal(a.filePath, b.filePath);
    BeforeTotal(a.text, b.text);
    BeforeTotal(a.filePath, a.filePath);
    BeforeTotal(a.text, a.text);
    if Before(a.filePath, b.filePath) && Before(b.filePath, c.filePath) {
      BeforeTransitive(a.filePath, b.filePath, c.filePath);
    }
    if Before(a.text, b.text) && Before(b.text, c.text) { BeforeTransitive(a.text, b.text, c.text); }
  }

  ghost predicate Sorted(es: seq<TidyError>) {
    forall i, j :: 0 <= i < j < |es| ==> Less(es[i].message, es[j].message)
  }

  /** Of the errors with the same message, the first. */
  ghost predicate FirstOf(es: seq<TidyError>, e: TidyError) {
    exists i :: 0 <= i < |es| && es[i] == e && forall j :: 0 <= j < i ==> es[j].message != e.message
  }

  /** The errors, in order, without repetitions. */
  ghost predicate UniqueErrors(es: seq<TidyError>, unique: seq<TidyError>) {
    Sorted(unique) && forall e :: e in unique <==> FirstOf(es, e)
  }

  /** This determines the list. */
  lemma {:induction false} SortedOnce(p: seq<TidyError>, q: seq<TidyError>)
    requires Sorted(p) && Sorted(q) && forall e :: e in p <==> e in q
    ensures p == q
  {
    assert p == [] ==> q == [] by {
      assert q != [] ==> q[0] in q;
    }
    if p != [] {
      assert p[0] in q;
      assert q != [] && q[0] in p;
      LessOrder(p[0].message, q[0].message, p[0].message);
      assert p[0] == q[0];
      forall e | e in p[1..] ensures e in q[1..] { LessOrder(p[0].message, e.message, e.message); assert e in q; }
      forall e | e in q[1..] ensures e in p[1..] { LessOrder(q[0].message, e.message, e.message); assert e in p; }
      SortedOnce(p[1..], q[1..]);
    }
  }
}
