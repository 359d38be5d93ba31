/** The consumer of diagnostics, which decides about each error when the next one
    comes, and sorts what is left when it is told to finish. */
module Diagnostics {
  import opened DiagnosticSpec

  class Consumer {
    const context: Context
    var errors: seq<TidyError>
    var lastErrorRelatesToUserCode: bool
    var lastErrorPassesLineFilter: bool
    var stats: Stats
    /** The errors handed to the context. */
    var stored: seq<TidyError>
    /** The diagnostics since the last finish, and the counts at that time. */
    ghost var seen: seq<Diagnostic>
    ghost var base: Stats

    /** All groups but the last are decided; of the last one, what it has come to so
        far is at the back. */
    ghost predicate Valid()
      reads this
    {
      Decided(Groups(seen))
    }

    ghost predicate Decided(gs: seq<Group>)
      reads `errors, `lastErrorRelatesToUserCode, `lastErrorPassesLineFilter, `stats, `base
    {
      if gs == [] then
        errors == [] && !lastErrorRelatesToUserCode && !lastErrorPassesLineFilter && stats == base
      else
        var done, last := gs[..|gs| - 1], gs[|gs| - 1];
        && errors == DisplayedErrors(context, done) + [ErrorOf(last)]
        && lastErrorRelatesToUserCode == UserGroup(context, last)
        && lastErrorPassesLineFilter == WantedGroup(context, last)
        && stats == CountAll(context, base, done)
    }

    constructor (context: Context)
      ensures Valid() && this.context == context && seen == [] && stats == base == NO_STATS && stored == []
    {
      this.context := context;
      errors := [];
      lastErrorRelatesToUserCode := false;
      lastErrorPassesLineFilter := false;
      stats := NO_STATS;
      stored := [];
      seen := [];
      base := NO_STATS;
    }

    /** What is known of the last group decides what becomes of it. */
    lemma LastVerdict(gs: seq<Group>)
      requires Decided(gs)
      ensures errors == [] ==> DisplayedErrors(context, gs) == [] && CountAll(context, base, gs) == stats &&
                               !lastErrorRelatesToUserCode && !lastErrorPassesLineFilter
      ensures errors != [] ==>
                var error := errors[|errors| - 1];
                var filtered := !context.checkEnabled(error.checkName) && !error.isError;
                var shown := !filtered && lastErrorRelatesToUserCode && lastErrorPassesLineFilter;
                && DisplayedErrors(context, gs) == (if shown then errors else errors[..|errors| - 1])
                && CountAll(context, base, gs) ==
                   if filtered then stats.(ignoredCheckFilter := stats.ignoredCheckFilter + 1)
                   else if !lastErrorRelatesToUserCode then stats.(ignoredNonUserCode := stats.ignoredNonUserCode + 1)
                   else if !lastErrorPassesLineFilter then stats.(ignoredLineFilter := stats.ignoredLineFilter + 1)
                   else stats.(displayed := stats.displayed + 1)
    {
      hide DisplayedErrors;
      hide CountAll;
      hide UserGroup;
      hide WantedGroup;
      hide ErrorOf;
      LastDecided(context, base, gs);
    }

    /** Decides about the last error: it stays at the back or is removed. */
    method FinalizeLastError()
      requires Valid()
      modifies `errors, `lastErrorRelatesToUserCode, `lastErrorPassesLineFilter, `stats
      ensures errors == DisplayedErrors(context, Groups(seen))
      ensures stats == CountAll(context, base, Groups(seen))
      ensures !lastErrorRelatesToUserCode && !lastErrorPassesLineFilter
    {
      hide DisplayedErrors;
      hide CountAll;
      hide Decided;
      LastVerdict(Groups(seen));
      if errors != [] {
        var error := errors[|errors| - 1];
        if !context.checkEnabled(error.checkName) && !error.isError {
          stats := stats.(ignoredCheckFilter := stats.ignoredCheckFilter + 1);
          errors := errors[..|errors| - 1];
        } else if !lastErrorRelatesToUserCode {
          stats := stats.(ignoredNonUserCode := stats.ignoredNonUserCode + 1);
          errors := errors[..|errors| - 1];
        } else if !lastErrorPassesLineFilter {
          stats := stats.(ignoredLineFilter := stats.ignoredLineFilter + 1);
          errors := errors[..|errors| - 1];
        } else {
          stats := stats.(displayed := stats.displayed + 1);
        }
      }
      lastErrorRelatesToUserCode := false;
      lastErrorPassesLineFilter := false;
    }

    /** Notes may only follow an error. */
    method HandleDiagnostic(d: Diagnostic)
      requires Valid() && (d.level.Note? ==> errors != [])
      modifies this
      ensures Valid() && seen == old(seen) + [d] && base == old(base) && stored == old(stored)
    {
      hide Decided;
      if !d.level.Note? {
        FinalizeLastError();
        StartError(d);
        Proceed(d, errors[|errors| - 1].checkName, Groups(seen));
      } else {
        Proceed(d, errors[|errors| - 1].checkName, Groups(seen));
      }
      seen := seen + [d];
      assert seen[..|seen| - 1] == old(seen);
    }

    method StartError(d: Diagnostic)
      requires !d.level.Note? && !lastErrorRelatesToUserCode && !lastErrorPassesLineFilter
      modifies `errors, `lastErrorRelatesToUserCode, `lastErrorPassesLineFilter
      ensures errors == old(errors) + [TidyError(CheckName(d), IsError(d), Message("", "", 0), {}, [])]
      ensures lastErrorRelatesToUserCode == lastErrorPassesLineFilter == IsError(d)
    {
      var checkName := CheckName(d);
      var isError := false;
      if d.level.Error? || d.level.Fatal? {
        // Errors are reported regardless of filters and non-user code.
        isError := true;
        lastErrorRelatesToUserCode := true;
        lastErrorPassesLineFilter := true;
      }
      errors := errors + [TidyError(checkName, isError, Message("", "", 0), {}, [])];
    }

    /** The last error takes in the diagnostic. */
    method Proceed(d: Diagnostic, checkName: string, ghost gs: seq<Group>)
      requires errors != [] && checkName == errors[|errors| - 1].checkName
      requires d.level.Note? ==> Decided(gs)
      requires !d.level.Note? ==>
                 && errors == DisplayedErrors(context, gs) +
                                [TidyError(CheckName(d), IsError(d), Message("", "", 0), {}, [])]
                 && lastErrorRelatesToUserCode == lastErrorPassesLineFilter == IsError(d)
                 && stats == CountAll(context, base, gs)
      modifies `errors, `lastErrorRelatesToUserCode, `lastErrorPassesLineFilter
      ensures Decided(Grown(gs, d))
    {
      hide DisplayedErrors;
      hide CountAll;
      hide UserGroup;
      hide WantedGroup;
      hide InUserCode;
      hide OnWantedLine;
      hide ErrorOf;
      hide MessageOf;
      hide FixesOf;
      EmitDiagnostic(d, checkName);
      CheckFilters(d);
      if d.level.Note? {
        NoteAdded(context, gs[|gs| - 1], d);
        assert Grown(gs, d)[..|gs| - 1] == gs[..|gs| - 1];
        NameOf(gs[|gs| - 1]);
      } else {
        NewGroup(context, gs, d);
        assert {} + FixesOf(d) == FixesOf(d);
      }
    }

    /** Puts the text of a diagnostic and its fixes into the last error. */
    method EmitDiagnostic(d: Diagnostic, checkName: string)
      requires errors != [] && checkName == errors[|errors| - 1].checkName
      modifies `errors
      ensures var e := old(errors)[|old(errors)| - 1];
              var f := if d.level.Note? then e.(notes := e.notes + [MessageOf(d, checkName)])
                       else e.(message := MessageOf(d, checkName));
              errors == old(errors)[..|old(errors)| - 1] + [f.(fix := e.fix + FixesOf(d))]
    {
      var error := errors[|errors| - 1];
      var message := MessageOf(d, checkName);
      if d.level.Note? {
        error := error.(notes := error.notes + [message]);
      } else {
        error := error.(message := message);
      }
      if !d.location.NoLocation? {
        var i := 0;
        ghost var before := error;
        while i < |d.fixIts|
          invariant 0 <= i <= |d.fixIts| && error == before.(fix := before.fix + set f | f in d.fixIts[..i])
        {
          assert d.fixIts[..i + 1] == d.fixIts[..i] + [d.fixIts[i]];
          error := error.(fix := error.fix + {d.fixIts[i]});
          i := i + 1;
        }
        assert d.fixIts[..|d.fixIts|] == d.fixIts;
      }
      assert error.fix == errors[|errors| - 1].fix + FixesOf(d);
      errors := errors[..|errors| - 1] + [error];
    }

    method PassesLine(fileName: string, line: nat) returns (passes: bool)
      ensures passes == PassesLineFilter(context, fileName, line)
    {
      if |context.lineFilter| == 0 {
        return true;
      }
      var filters := context.lineFilter;
      assert filters[0..] == filters;
      for i := 0 to |filters|
        invariant PassesFilters(filters, fileName, line) == PassesFilters(filters[i..], fileName, line)
      {
        var filter := filters[i];
        assert filters[i..][1..] == filters[i + 1..];
        if EndsWith(fileName, filter.name) {
          if |filter.lineRanges| == 0 {
            return true;
          }
          for j := 0 to |filter.lineRanges|
            invariant forall k :: 0 <= k < j ==> !(filter.lineRanges[k].first <= line <= filter.lineRanges[k].last)
          {
            if filter.lineRanges[j].first <= line && line <= filter.lineRanges[j].last {
              return true;
            }
          }
          return false;
        }
      }
      return false;
    }

    method CheckFilters(d: Diagnostic)
      modifies `lastErrorRelatesToUserCode, `lastErrorPassesLineFilter
      ensures lastErrorRelatesToUserCode == (old(lastErrorRelatesToUserCode) || InUserCode(context, d))
      ensures lastErrorPassesLineFilter == (old(lastErrorPassesLineFilter) || OnWantedLine(context, d))
    {
      // An invalid location may mean a diagnostic about the command line.
      if d.location.NoLocation? {
        lastErrorRelatesToUserCode := true;
        lastErrorPassesLineFilter := true;
        return;
      }
      if !context.systemHeaders && d.location.systemHeader {
        return;
      }
      // Definitions on the command line are in a buffer that is not a file.
      if d.location.fileName.None? {
        lastErrorRelatesToUserCode := true;
        lastErrorPassesLineFilter := true;
        return;
      }
      var fileName := d.location.fileName.value;
      lastErrorRelatesToUserCode :=
        lastErrorRelatesToUserCode || d.location.mainFile || context.headerWanted(fileName);
      var passes := PassesLine(fileName, d.location.line);
      lastErrorPassesLineFilter := lastErrorPassesLineFilter || passes;
    }

    /** Hands the displayed errors to the context, in order and without repetitions. */
    method Finish()
      requires Valid()
      modifies this
      ensures Valid() && seen == [] && base == stats
      ensures stats == CountAll(context, old(base), Groups(old(seen)))
      ensures Total(stats) == Total(old(base)) + |Groups(old(seen))|
      ensures old(stored) <= stored
      ensures UniqueErrors(DisplayedErrors(context, Groups(old(seen))), stored[|old(stored)|..])
    {
      FinalizeLastError();
      CountsAddUp(context, base, Groups(seen));
      var unique := SortErrors(errors);
      stored := stored + unique;
      errors := [];
      seen := [];
      base := stats;
    }
  }

  method SortErrors(errors: seq<TidyError>) returns (unique: seq<TidyError>)
    ensures UniqueErrors(errors, unique)
  {
    unique := [];
    for i := 0 to |errors|
      invariant UniqueErrors(errors[..i], unique)
    {
      unique := InsertUnique(errors[..i], unique, errors[i]);
      assert errors[..i + 1] == errors[..i] + [errors[i]];
    }
    assert errors[..|errors|] == errors;
  }

  /** Inserts an error into the ordered list, unless one with its message is there. */
  method InsertUnique(ghost before: seq<TidyError>, unique: seq<TidyError>, e: TidyError) returns (r: seq<TidyError>)
    requires UniqueErrors(before, unique)
    ensures UniqueErrors(before + [e], r)
  {
    var n := 0;
    while n < |unique| && Less(unique[n].message, e.message)
      invariant 0 <= n <= |unique| && forall i :: 0 <= i < n ==> Less(unique[i].message, e.message)
    {
      n := n + 1;
    }
    if n < |unique| && !Less(e.message, unique[n].message) {
      LessOrder(unique[n].message, e.message, e.message);
      AlreadyThere(before, unique, e, n);
      return unique;
    }
    r := unique[..n] + [e] + unique[n..];
    InsertedSorted(unique, e, n);
    InsertedUnique(before, unique, e, n);
  }

  lemma AlreadyThere(before: seq<TidyError>, unique: seq<TidyError>, e: TidyError, n: nat)
    requires UniqueErrors(before, unique) && n < |unique| && unique[n].message == e.message
    ensures UniqueErrors(before + [e], unique)
  {
    assert FirstOf(before, unique[n]);
    var k :| 0 <= k < |before| && before[k] == unique[n];
    forall x ensures FirstOf(before + [e], x) <==> FirstOf(before, x) {
      FirstOfMore(before, e, x);
    }
  }

  lemma FirstOfMore(before: seq<TidyError>, e: TidyError, x: TidyError)
    ensures FirstOf(before + [e], x) <==>
            FirstOf(before, x) || (x == e && forall j :: 0 <= j < |before| ==> before[j].message != e.message)
  {
    var after := before + [e];
    if FirstOf(before, x) {
      var i :| 0 <= i < |before| && before[i] == x && forall j :: 0 <= j < i ==> before[j].message != x.message;
      assert after[i] == x;
    }
    if FirstOf(after, x) {
      var i :| 0 <= i < |after| && after[i] == x && forall j :: 0 <= j < i ==> after[j].message != x.message;
      assert i < |before| ==> before[i] == x;
      assert forall j :: 0 <= j < i ==> after[j] == before[j];
    }
    if x == e && forall j :: 0 <= j < |before| ==> before[j].message != e.message {
      assert after[|before|] == x;
    }
  }

  lemma InsertedSorted(unique: seq<TidyError>, e: TidyError, n: nat)
    requires Sorted(unique) && n <= |unique| && forall i :: 0 <= i < n ==> Less(unique[i].message, e.message)
    requires n < |unique| ==> Less(e.message, unique[n].message)
    ensures Sorted(unique[..n] + [e] + unique[n..])
    ensures forall i :: 0 <= i < |unique| ==> unique[i].message != e.message
  {
    var r := unique[..n] + [e] + unique[n..];
    forall i | n <= i < |unique| ensures Less(e.message, unique[i].message) {
      LessOrder(e.message, unique[n].message, unique[i].message);
    }
    LessOrder(e.message, e.message, e.message);
    forall i, j | 0 <= i < j < |r| ensures Less(r[i].message, r[j].message) {
      var i' := if i < n then i else i - 1;
      var j' := if j < n then j else j - 1;
      assert (i != n ==> r[i] == unique[i']) && (j != n ==> r[j] == unique[j']);
    }
  }

  lemma InsertedUnique(before: seq<TidyError>, unique: seq<TidyError>, e: TidyError, n: nat)
    requires UniqueErrors(before, unique) && n <= |unique| && Sorted(unique[..n] + [e] + unique[n..])
    requires forall i :: 0 <= i < |unique| ==> unique[i].message != e.message
    ensures UniqueErrors(before + [e], unique[..n] + [e] + unique[n..])
  {
    var r := unique[..n] + [e] + unique[n..];
    assert unique == unique[..n] + unique[n..];
    forall j | 0 <= j < |before| ensures before[j].message != e.message {
      NoneBefore(before, unique, e, j);
    }
    forall x ensures x in r <==> FirstOf(before + [e], x) {
      FirstOfMore(before, e, x);
      assert x in r <==> x in unique || x == e;
    }
  }

  lemma {:induction false} NoneBefore(before: seq<TidyError>, unique: seq<TidyError>, e: TidyError, j: nat)
    requires UniqueErrors(before, unique) && j < |before|
    requires forall i :: 0 <= i < |unique| ==> unique[i].message != e.message
    ensures before[j].message != e.message
  {
    if i :| 0 <= i < j && before[i].message == before[j].message {
      NoneBefore(before, unique, e, i);
    } else {
      assert FirstOf(before, before[j]);
      assert before[j] in unique;
    }
  }

  /** What a group has come to is settled by its diagnostics, one after the other. */
  lemma NoteAdded(context: Context, g: Group, d: Diagnostic)
    requires d.level.Note?
    ensures var h: Group := g + [d];
            && ErrorOf(h) == ErrorOf(g).(notes := ErrorOf(g).notes + [MessageOf(d, CheckName(g[0]))],
                                         fix := ErrorOf(g).fix + FixesOf(d))
            && UserGroup(context, h) == (UserGroup(context, g) || InUserCode(context, d))
            && WantedGroup(context, h) == (WantedGroup(context, g) || OnWantedLine(context, d))
  {
    hide ErrorOf;
    hide UserGroup;
    hide WantedGroup;
    NoteInError(g, d);
    NoteInUserCode(context, g, d);
    NoteOnWantedLine(context, g, d);
  }

  lemma NoteInError(g: Group, d: Diagnostic)
    requires d.level.Note?
    ensures var h: Group := g + [d];
            ErrorOf(h) == ErrorOf(g).(notes := ErrorOf(g).notes + [MessageOf(d, CheckName(g[0]))],
                                      fix := ErrorOf(g).fix + FixesOf(d))
  {
    var h: Group := g + [d];
    assert h[1..] == g[1..] + [d];
    assert h[|g|] == d && forall i :: 0 <= i < |g| ==> h[i] == g[i];
    assert ErrorOf(h).fix == ErrorOf(g).fix + FixesOf(d);
  }

  lemma NoteInUserCode(context: Context, g: Group, d: Diagnostic)
    requires d.level.Note?
    ensures var h: Group := g + [d];
            UserGroup(context, h) == (UserGroup(context, g) || InUserCode(context, d))
  {
    hide InUserCode;
    var h: Group := g + [d];
    assert h[|g|] == d && forall i :: 0 <= i < |g| ==> h[i] == g[i];
    if UserGroup(context, g) {
      var i :| 0 <= i < |g| && (InUserCode(context, g[i]) || IsError(g[i]));
      assert InUserCode(context, h[i]) || IsError(h[i]);
    }
  }

  lemma NoteOnWantedLine(context: Context, g: Group, d: Diagnostic)
    requires d.level.Note?
    ensures var h: Group := g + [d];
            WantedGroup(context, h) == (WantedGroup(context, g) || OnWantedLine(context, d))
  {
    hide OnWantedLine;
    var h: Group := g + [d];
    assert h[|g|] == d && forall i :: 0 <= i < |g| ==> h[i] == g[i];
    if WantedGroup(context, g) {
      var i :| 0 <= i < |g| && (OnWantedLine(context, g[i]) || IsError(g[i]));
      assert OnWantedLine(context, h[i]) || IsError(h[i]);
    }
  }

  lemma NameOf(g: Group)
    ensures ErrorOf(g).checkName == CheckName(g[0]) && ErrorOf(g).isError == IsError(g[0])
  {}

  lemma LastDecided(context: Context, base: Stats, gs: seq<Group>)
    ensures gs == [] ==> DisplayedErrors(context, gs) == [] && CountAll(context, base, gs) == base
    ensures gs != [] ==>
              var done, last := gs[..|gs| - 1], gs[|gs| - 1];
              && DisplayedErrors(context, gs) ==
                 DisplayedErrors(context, done) + (if Displayed(context, last) then [ErrorOf(last)] else [])
              && CountAll(context, base, gs) == Count(context, CountAll(context, base, done), last)
              && ErrorOf(last).checkName == CheckName(last[0]) && ErrorOf(last).isError == IsError(last[0])
  {}

  lemma NewGroup(context: Context, gs: seq<Group>, d: Diagnostic)
    requires !d.level.Note?
    ensures var g: Group := [d];
            && Grown(gs, d) == gs + [g] && (gs + [g])[..|gs|] == gs
            && ErrorOf(g) == TidyError(CheckName(d), IsError(d), MessageOf(d, CheckName(d)), FixesOf(d), [])
            && UserGroup(context, g) == (InUserCode(context, d) || IsError(d))
            && WantedGroup(context, g) == (OnWantedLine(context, d) || IsError(d))
  {
    var g: Group := [d];
    assert g[0] == d && g[1..] == [];
    assert ErrorOf(g).fix == FixesOf(d);
  }
}
