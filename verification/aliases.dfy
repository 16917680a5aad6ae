/** `updateAliases`: the symbol table of alias declarations (`name:`) and the list of
    alias usages (`:name`, `x:name`), with the three diagnostics they give rise to:
    a duplicated declaration, a usage of an undeclared name, and a declaration never
    used. Two versions exist: the budgeted one of server/src/validations.ts, which skips
    matches inside comments, and the older one of server/src/server.ts, which has no
    budget, no comment check and no unused-alias warning. */
module Aliases {
  import opened Options
  import opened Strings
  import opened Positions
  import opened Patterns
  import opened Utils
  import opened Diagnostics

  /** `AliasInfo`: where a name was written, and the name. */
  datatype Alias = Alias(range: Range, value: string)

  /** A declaration or usage found in the text: its `AliasInfo` and the matched text,
      which the duplicate message quotes. */
  datatype Found = Found(alias: Alias, matched: string)

  function AliasesOf(found: seq<Found>): (r: seq<Alias>)
    ensures |r| == |found| && forall i :: 0 <= i < |found| ==> r[i] == found[i].alias
  {
    seq(|found|, i requires 0 <= i < |found| => found[i].alias)
  }

  /** `aliases.find(a => a.value === name)`: the first entry with that name. */
  function FirstNamed(xs: seq<Alias>, name: string): (r: Option<Alias>)
    ensures r.Some? ==> r.value in xs && r.value.value == name
    ensures r.None? <==> forall i :: 0 <= i < |xs| ==> xs[i].value != name
  {
    if |xs| == 0 then None
    else if xs[0].value == name then Some(xs[0])
    else FirstNamed(xs[1..], name)
  }

  /** Looking up in a longer list finds the same entry, or else the new one. */
  lemma {:induction false} FirstNamedAppend(xs: seq<Alias>, a: Alias, name: string)
    ensures FirstNamed(xs + [a], name)
      == if FirstNamed(xs, name).Some? then FirstNamed(xs, name) else if a.value == name then Some(a) else None
  {
    if |xs| > 0 {
      FirstNamedAppend(xs[1..], a, name);
      assert (xs + [a])[1..] == xs[1..] + [a];
    }
  }

  /** No two entries share a name. */
  ghost predicate DistinctNames(xs: seq<Alias>) {
    forall i, j :: 0 <= i < j < |xs| ==> xs[i].value != xs[j].value
  }

  // ---------------------------------------------------------------------------------
  // Matches

  /** The text the comment check inspects: `getText` of the range from the start of the
      match's line to the end of the match. */
  function LineUpToMatch(text: string, m: Match): (r: string)
    requires m.start <= m.end <= |text|
    ensures r == text[LineStart(text, m.start)..m.end]
  {
    var range := RangeOf(text, m.start, m.end);
    var lineRange := Range(Position(range.start.line, 0), range.end);
    assert OffsetAt(text, lineRange.start) == LineStart(text, m.start);
    assert OffsetAt(text, lineRange.end) == m.end;
    GetText(text, lineRange)
  }

  /** The comment check: the matched text occurs in the code part (before any `;`) of its
      line, up to the end of the match. */
  predicate InCode(text: string, m: Match)
    requires m.start <= m.end <= |text|
  {
    Contains(RemoveComments(LineUpToMatch(text, m)), text[m.start..m.end])
  }

  /** A match with no `;` before it on its line, nor in it, passes the comment check. */
  lemma InCodeWithoutComment(text: string, m: Match)
    requires m.start <= m.end <= |text|
    requires ';' !in text[LineStart(text, m.start)..m.end]
    ensures InCode(text, m)
  {
    RemoveCommentsOfCode(LineUpToMatch(text, m));
    ContainsTail(text, LineStart(text, m.start), m.start, m.end);
  }

  /** A match behind a `;` on its line passes the comment check exactly when the same
      text also occurs in the code before that `;`. */
  lemma InCodeAfterComment(text: string, m: Match, f: nat)
    requires m.start <= m.end <= |text|
    requires var a := LineStart(text, m.start);
      a + f < m.start && text[a + f] == ';' && ';' !in text[a..a + f]
    ensures var a := LineStart(text, m.start);
      InCode(text, m) <==> Contains(text[a..a + f], text[m.start..m.end])
  {
    var line := LineUpToMatch(text, m);
    CommentInLine(text, m, f);
    RemoveCommentsAt(line, f);
  }

  lemma CommentInLine(text: string, m: Match, f: nat)
    requires m.start <= m.end <= |text|
    requires var a := LineStart(text, m.start);
      a + f < m.start && text[a + f] == ';' && ';' !in text[a..a + f]
    ensures var a := LineStart(text, m.start);
      var line := LineUpToMatch(text, m);
      f < |line| && line[f] == ';' && line[..f] == text[a..a + f]
  {
    SliceOfSlice(text, LineStart(text, m.start), m.end, f);
  }

  /** The `AliasInfo` of a match: its range and its text with the first `:` removed. In
      the budgeted version a match outside the code part of its line is skipped. */
  function FoundAt(text: string, m: Match, checkComments: bool): Option<Found>
    requires m.start <= m.end <= |text|
  {
    if checkComments && !InCode(text, m) then None
    else
      var matched := text[m.start..m.end];
      Some(Found(Alias(RangeOf(text, m.start, m.end), RemoveFirst(matched, ':')), matched))
  }

  /** What the loop sees for each match of `pat`, in document order. */
  function FoundAll(text: string, pat: Pattern, checkComments: bool): (r: seq<Option<Found>>)
    ensures |r| == |Matches(pat, text, 0)|
  {
    var ms := Matches(pat, text, 0);
    seq(|ms|, i requires 0 <= i < |ms| => FoundAt(text, ms[i], checkComments))
  }

  /** A word run followed by `:`: removing the first `:` removes that one. */
  lemma ColonAfterWord(text: string, m: Match, c: nat)
    requires m.start <= c < m.end <= |text| && text[c] == ':'
    requires forall k :: m.start <= k < c ==> IsWordChar(text[k])
    ensures RemoveFirst(text[m.start..m.end], ':') == text[m.start..c] + text[c + 1..m.end]
  {
    var matched := text[m.start..m.end];
    var i := c - m.start;
    assert matched[..i] == text[m.start..c];
    assert matched[i + 1..] == text[c + 1..m.end];
    forall k | 0 <= k < i
      ensures matched[..i][k] != ':'
    {
      assert matched[..i][k] == text[m.start + k];
      assert IsWordChar(text[m.start + k]);
    }
    assert ':' !in matched[..i];
    RemoveFirstAt(matched, ':', i);
  }

  /** A declaration `name:` is recorded under `name`, and its duplicate message quotes
      `name:`. */
  lemma DeclarationName(text: string, m: Match)
    requires IsMatch(Declaration, text, m)
    ensures m.start < m.end <= |text|
    ensures var matched := text[m.start..m.end];
      matched == RemoveFirst(matched, ':') + ":" && ':' !in RemoveFirst(matched, ':')
  {
    var c := RunEnd(text, m.start, IsWordChar);
    assert c == m.end - 1 && text[c] == ':';
    ColonAfterWord(text, m, c);
    assert text[c + 1..m.end] == [];
    assert text[m.start..m.end] == text[m.start..c] + ":";
  }

  /** A usage `x:name` is looked up under `xname`: only the `:` is dropped. */
  lemma UsageName(text: string, m: Match)
    requires IsMatch(Usage, text, m)
    ensures m.start < m.end <= |text|
    ensures exists c ::
      && m.start <= c < m.end && text[c] == ':'
      && RemoveFirst(text[m.start..m.end], ':') == text[m.start..c] + text[c + 1..m.end]
  {
    var c := RunEnd(text, m.start, IsWordChar);
    assert text[c] == ':';
    ColonAfterWord(text, m, c);
  }

  // ---------------------------------------------------------------------------------
  // Declarations

  /** The table the declaration loop builds, and the run it reports to. */
  datatype Table = Table(run: Run, values: seq<Alias>)

  /** The "Duplicated alias" error at the repeated declaration, pointing at the first
      one when the client supports related information. */
  function DuplicateError(found: Found, first: Alias, related: bool): Diagnostic {
    Diagnostic(found.alias.range, Error, "Duplicated alias " + found.matched, None,
      if related then Some(RelatedInformation(first.range, "First declared here")) else None)
  }

  /** One declaration: a name already in the table is reported, a new one is added. */
  function Declare(t: Table, related: bool, found: Found): Table {
    match FirstNamed(t.values, found.alias.value)
    case Some(first) => Table(t.run.Report(DuplicateError(found, first, related)), t.values)
    case None => Table(t.run, t.values + [found.alias])
  }

  /** The declaration loop without a budget (the older version). */
  function DeclareAll(t: Table, related: bool, found: seq<Found>): (r: Table)
    ensures Extends(r.run, t.run)
    decreases |found|
  {
    if |found| == 0 then t
    else
      var next := Declare(t, related, found[0]);
      var r := DeclareAll(next, related, found[1..]);
      ExtendsTransitive(t.run, next.run, r.run);
      r
  }

  /** The budgeted declaration loop: each iteration first checks `current < max`, and a
      skipped (commented-out) match changes nothing. */
  function DeclareGated(t: Table, related: bool, found: seq<Option<Found>>): (r: Table)
    ensures Extends(r.run, t.run)
    ensures var p := t.run.problems;
      r.run.problems.current <= if p.HasRoom() then p.max else p.current
    decreases |found|
  {
    if |found| == 0 || !t.run.problems.HasRoom() then t
    else
      var next := if found[0].Some? then Declare(t, related, found[0].value) else t;
      var r := DeclareGated(next, related, found[1..]);
      ExtendsTransitive(t.run, next.run, r.run);
      r
  }

  /** The reference for the duplicate errors: declaration `found[i]` is reported when an
      earlier declaration (any of `done`, then `found[..i]`) has its name, pointing at the
      first of those. */
  function Duplicates(related: bool, done: seq<Alias>, found: seq<Found>): seq<Diagnostic>
    decreases |found|
  {
    if |found| == 0 then []
    else
      (match FirstNamed(done, found[0].alias.value)
       case Some(first) => [DuplicateError(found[0], first, related)]
       case None => [])
      + Duplicates(related, done + [found[0].alias], found[1..])
  }

  /** The table answers each lookup as the list of all declarations seen would. */
  ghost predicate FirstWins(values: seq<Alias>, done: seq<Alias>) {
    && DistinctNames(values)
    && forall name :: FirstNamed(values, name) == FirstNamed(done, name)
  }

  /** One declaration keeps the table first-wins. */
  lemma DeclareKeepsFirstWins(t: Table, related: bool, done: seq<Alias>, found: Found)
    requires FirstWins(t.values, done)
    ensures FirstWins(Declare(t, related, found).values, done + [found.alias])
  {
    var a := found.alias;
    var values := Declare(t, related, found).values;
    forall name
      ensures FirstNamed(values, name) == FirstNamed(done + [a], name)
    {
      FirstNamedAppend(done, a, name);
      FirstNamedAppend(t.values, a, name);
    }
    if FirstNamed(t.values, a.value).None? {
      assert forall i :: 0 <= i < |t.values| ==> t.values[i].value != a.value;
    }
  }

  /** The declaration loop keeps the table first-wins and reports exactly the duplicates
      of the reference. */
  lemma {:induction false} DeclareAllFirstWins(t: Table, related: bool, done: seq<Alias>, found: seq<Found>)
    requires FirstWins(t.values, done)
    ensures var r := DeclareAll(t, related, found);
      && FirstWins(r.values, done + AliasesOf(found))
      && r.run == t.run.ReportAll(Duplicates(related, done, found))
    decreases |found|
  {
    if |found| > 0 {
      var next := Declare(t, related, found[0]);
      DeclareKeepsFirstWins(t, related, done, found[0]);
      DeclareAllFirstWins(next, related, done + [found[0].alias], found[1..]);
      assert done + [found[0].alias] + AliasesOf(found[1..]) == done + AliasesOf(found);
      DuplicatesStep(t, related, done, found);
    } else {
      assert done + AliasesOf(found) == done;
    }
  }

  /** Handling the first declaration, then reporting the rest's duplicates, reports the
      duplicates of the whole list. */
  lemma DuplicatesStep(t: Table, related: bool, done: seq<Alias>, found: seq<Found>)
    requires FirstWins(t.values, done) && |found| > 0
    ensures Declare(t, related, found[0]).run.ReportAll(Duplicates(related, done + [found[0].alias], found[1..]))
      == t.run.ReportAll(Duplicates(related, done, found))
  {
    var dups := Duplicates(related, done + [found[0].alias], found[1..]);
    assert FirstNamed(t.values, found[0].alias.value) == FirstNamed(done, found[0].alias.value);
    match FirstNamed(done, found[0].alias.value)
    case Some(first) =>
      var d := DuplicateError(found[0], first, related);
      assert t.run.diagnostics + [d] + dups == t.run.diagnostics + ([d] + dups);
    case None =>
      assert [] + dups == dups;
  }

  /** Built from scratch, the table holds one entry per declared name: the first
      declaration of that name. Every later declaration of a name is reported once. */
  lemma DeclarationsFirstWins(run: Run, related: bool, found: seq<Found>)
    ensures var r := DeclareAll(Table(run, []), related, found);
      && DistinctNames(r.values)
      && (forall name :: FirstNamed(r.values, name) == FirstNamed(AliasesOf(found), name))
      && (forall v :: v in r.values ==> v in AliasesOf(found))
      && r.run == run.ReportAll(Duplicates(related, [], found))
  {
    DeclareAllFirstWins(Table(run, []), related, [], found);
    assert [] + AliasesOf(found) == AliasesOf(found);
    var r := DeclareAll(Table(run, []), related, found);
    forall v | v in r.values
      ensures v in AliasesOf(found)
    {
      EntryIsDeclared(r.values, AliasesOf(found), v);
    }
  }

  /** Every declared name ends up in the table built from scratch. */
  lemma DeclaredNameTabled(run: Run, related: bool, found: seq<Found>, i: nat)
    requires i < |found|
    ensures FirstNamed(DeclareAll(Table(run, []), related, found).values, found[i].alias.value).Some?
  {
    DeclarationsFirstWins(run, related, found);
    assert AliasesOf(found)[i] == found[i].alias;
  }

  /** An entry of a table that answers lookups as `all` does is an entry of `all`. */
  lemma EntryIsDeclared(values: seq<Alias>, all: seq<Alias>, v: Alias)
    requires DistinctNames(values) && v in values
    requires forall name :: FirstNamed(values, name) == FirstNamed(all, name)
    ensures v in all
  {
    var i :| 0 <= i < |values| && values[i] == v;
    OnlyEntryNamed(values, i);
    assert FirstNamed(all, v.value) == Some(v);
  }

  /** In a table of distinct names, looking up an entry's name finds that entry. */
  lemma OnlyEntryNamed(xs: seq<Alias>, i: nat)
    requires DistinctNames(xs) && i < |xs|
    ensures FirstNamed(xs, xs[i].value) == Some(xs[i])
  {
    if i > 0 {
      assert xs[0].value != xs[i].value;
      assert DistinctNames(xs[1..]) && xs[1..][i - 1] == xs[i];
      OnlyEntryNamed(xs[1..], i - 1);
    }
  }

  /** The budget only cuts the declaration loop short: the gated loop builds the table of
      some first `k` matches, and stops early only with the budget spent. */
  lemma {:induction false} DeclareGatedIsPrefix(t: Table, related: bool, found: seq<Option<Found>>)
    ensures exists k ::
      && 0 <= k <= |found|
      && DeclareGated(t, related, found) == DeclareAll(t, related, Present(found[..k]))
      && (k < |found| ==> !DeclareGated(t, related, found).run.problems.HasRoom())
    decreases |found|
  {
    if |found| == 0 || !t.run.problems.HasRoom() {
      assert found[..0] == [];
      assert DeclareGated(t, related, found) == DeclareAll(t, related, Present(found[..0]));
    } else {
      var next := if found[0].Some? then Declare(t, related, found[0].value) else t;
      DeclareGatedIsPrefix(next, related, found[1..]);
      var k :| && 0 <= k <= |found[1..]|
        && DeclareGated(next, related, found[1..]) == DeclareAll(next, related, Present(found[1..][..k]))
        && (k < |found[1..]| ==> !DeclareGated(next, related, found[1..]).run.problems.HasRoom());
      DeclareAllStep(t, related, found, k);
      assert DeclareGated(t, related, found) == DeclareAll(t, related, Present(found[..k + 1]));
    }
  }

  /** Declaring the first `k + 1` matches is handling the first, then `k` more. */
  lemma DeclareAllStep(t: Table, related: bool, found: seq<Option<Found>>, k: nat)
    requires k < |found|
    ensures DeclareAll(t, related, Present(found[..k + 1]))
      == DeclareAll(if found[0].Some? then Declare(t, related, found[0].value) else t,
           related, Present(found[1..][..k]))
  {
    var rest := Present(found[1..][..k]);
    assert found[..k + 1][0] == found[0];
    assert found[..k + 1][1..] == found[1..][..k];
    if found[0].Some? {
      var f := found[0].value;
      assert Present(found[..k + 1]) == [f] + rest;
      assert ([f] + rest)[1..] == rest;
      assert DeclareAll(t, related, [f] + rest) == DeclareAll(Declare(t, related, f), related, rest);
    } else {
      assert Present(found[..k + 1]) == [] + rest == rest;
    }
  }

  /** Whatever the budget, the table never holds a name twice. */
  lemma DeclareGatedDistinct(t: Table, related: bool, found: seq<Option<Found>>)
    requires t.values == []
    ensures DistinctNames(DeclareGated(t, related, found).values)
  {
    DeclareGatedIsPrefix(t, related, found);
    var k :| && 0 <= k <= |found|
      && DeclareGated(t, related, found) == DeclareAll(t, related, Present(found[..k]));
    DeclarationsFirstWins(t.run, related, Present(found[..k]));
  }

  /** With no usage declared, every usage is reported, one error each, in order. */
  lemma {:induction false} UndeclaredErrorsWithoutTable(usages: seq<Alias>)
    ensures var ds := UndeclaredErrors([], usages);
      |ds| == |usages| && forall i :: 0 <= i < |usages| ==> ds[i] == UndeclaredError(usages[i])
  {
    if |usages| > 0 {
      UndeclaredErrorsWithoutTable(usages[1..]);
    }
  }

  /** So the table is complete whenever the budget has room left at the end. */
  lemma DeclareGatedWithRoom(t: Table, related: bool, found: seq<Option<Found>>)
    requires DeclareGated(t, related, found).run.problems.HasRoom()
    ensures DeclareGated(t, related, found) == DeclareAll(t, related, Present(found))
  {
    DeclareGatedIsPrefix(t, related, found);
    assert found[..|found|] == found;
  }

  // ---------------------------------------------------------------------------------
  // Usages and unused declarations

  function UndeclaredError(usage: Alias): Diagnostic {
    Plain(usage.range, Error, "Using alias before declaration")
  }

  function UnusedWarning(declaration: Alias): Diagnostic {
    Plain(declaration.range, Warning, "This alias is never used")
  }

  /** The usage loop's errors: one per usage whose name the table lacks, in order. */
  function UndeclaredErrors(values: seq<Alias>, usages: seq<Alias>): (ds: seq<Diagnostic>)
    ensures |ds| <= |usages|
  {
    if |usages| == 0 then []
    else
      (if FirstNamed(values, usages[0].value).None? then [UndeclaredError(usages[0])] else [])
      + UndeclaredErrors(values, usages[1..])
  }

  /** The unused loop's warnings: one per table entry no usage names, in order. */
  function UnusedWarnings(values: seq<Alias>, usages: seq<Alias>): (ds: seq<Diagnostic>)
    ensures |ds| <= |values|
  {
    if |values| == 0 then []
    else
      (if FirstNamed(usages, values[0].value).None? then [UnusedWarning(values[0])] else [])
      + UnusedWarnings(values[1..], usages)
  }

  /** A usage error is reported exactly for each usage whose name was never declared
      (forward references included: the whole table is built first). */
  lemma {:induction false} UndeclaredErrorsExactly(values: seq<Alias>, usages: seq<Alias>, d: Diagnostic)
    ensures d in UndeclaredErrors(values, usages) <==>
      exists u :: u in usages && (forall v :: v in values ==> v.value != u.value) && d == UndeclaredError(u)
  {
    if |usages| > 0 {
      UndeclaredErrorsExactly(values, usages[1..], d);
      assert usages == [usages[0]] + usages[1..];
      var u := usages[0];
      if FirstNamed(values, u.value).Some? {
        assert FirstNamed(values, u.value).value in values;
      }
    }
  }

  /** A warning is reported exactly for each declaration no usage names. */
  lemma {:induction false} UnusedWarningsExactly(values: seq<Alias>, usages: seq<Alias>, d: Diagnostic)
    ensures d in UnusedWarnings(values, usages) <==>
      exists v :: v in values && (forall u :: u in usages ==> u.value != v.value) && d == UnusedWarning(v)
  {
    if |values| > 0 {
      UnusedWarningsExactly(values[1..], usages, d);
      assert values == [values[0]] + values[1..];
      var v := values[0];
      if FirstNamed(usages, v.value).Some? {
        assert FirstNamed(usages, v.value).value in usages;
      }
    }
  }

  /** The positions, from `from` on, of the usages whose name no entry of `values` has. */
  ghost function UndeclaredFrom(values: seq<Alias>, usages: seq<Alias>, from: nat): set<nat> {
    set i: nat | from <= i < |usages| && (forall v :: v in values ==> v.value != usages[i].value)
  }

  /** The positions, from `from` on, of the entries no usage names. */
  ghost function UnusedFrom(values: seq<Alias>, usages: seq<Alias>, from: nat): set<nat> {
    set i: nat | from <= i < |values| && (forall u :: u in usages ==> u.value != values[i].value)
  }

  /** Exactly one error per undeclared usage: as many errors as such usages. */
  lemma UndeclaredErrorsCount(values: seq<Alias>, usages: seq<Alias>)
    ensures |UndeclaredErrors(values, usages)| == |UndeclaredFrom(values, usages, 0)|
  {
    UndeclaredErrorsCountFrom(values, usages, 0);
    assert usages[0..] == usages;
  }

  lemma {:induction false} UndeclaredErrorsCountFrom(values: seq<Alias>, usages: seq<Alias>, from: nat)
    requires from <= |usages|
    ensures |UndeclaredErrors(values, usages[from..])| == |UndeclaredFrom(values, usages, from)|
    decreases |usages| - from
  {
    if from < |usages| {
      UndeclaredErrorsCountFrom(values, usages, from + 1);
      assert usages[from..][1..] == usages[from + 1..];
      var rest := UndeclaredFrom(values, usages, from + 1);
      var u := usages[from];
      if FirstNamed(values, u.value).None? {
        assert UndeclaredFrom(values, usages, from) == {from} + rest;
      } else {
        assert FirstNamed(values, u.value).value in values;
        assert UndeclaredFrom(values, usages, from) == rest;
      }
    } else {
      assert UndeclaredFrom(values, usages, from) == {};
    }
  }

  /** Exactly one warning per unused entry: as many warnings as such entries. */
  lemma UnusedWarningsCount(values: seq<Alias>, usages: seq<Alias>)
    ensures |UnusedWarnings(values, usages)| == |UnusedFrom(values, usages, 0)|
  {
    UnusedWarningsCountFrom(values, usages, 0);
    assert values[0..] == values;
  }

  lemma {:induction false} UnusedWarningsCountFrom(values: seq<Alias>, usages: seq<Alias>, from: nat)
    requires from <= |values|
    ensures |UnusedWarnings(values[from..], usages)| == |UnusedFrom(values, usages, from)|
    decreases |values| - from
  {
    if from < |values| {
      UnusedWarningsCountFrom(values, usages, from + 1);
      assert values[from..][1..] == values[from + 1..];
      var rest := UnusedFrom(values, usages, from + 1);
      var v := values[from];
      if FirstNamed(usages, v.value).None? {
        assert UnusedFrom(values, usages, from) == {from} + rest;
      } else {
        assert FirstNamed(usages, v.value).value in usages;
        assert UnusedFrom(values, usages, from) == rest;
      }
    } else {
      assert UnusedFrom(values, usages, from) == {};
    }
  }

  // ---------------------------------------------------------------------------------
  // The two versions

  /** What `updateAliases` leaves behind: the run, and the tables it publishes with
      `setAliases` and `setAliasUse`. */
  datatype Tables = Tables(run: Run, aliases: seq<Alias>, usages: seq<Alias>)

  /** The budgeted `updateAliases` of server/src/validations.ts. Only the declaration loop
      is gated; the usage and unused loops always run, so `current` may pass `max`. */
  function UpdateAliases(run: Run, text: string, related: bool): (r: Tables)
    ensures Extends(r.run, run)
    ensures DistinctNames(r.aliases)
    ensures var p := run.problems;
      r.run.problems.current <= (if p.HasRoom() then p.max else p.current) + |r.usages| + |r.aliases|
  {
    DeclareGatedDistinct(Table(run, []), related, FoundAll(text, Declaration, true));
    var declared := DeclareGated(Table(run, []), related, FoundAll(text, Declaration, true));
    var usages := AliasesOf(Present(FoundAll(text, Usage, true)));
    var afterUsages := declared.run.ReportAll(UndeclaredErrors(declared.values, usages));
    var r := afterUsages.ReportAll(UnusedWarnings(declared.values, usages));
    ExtendsTransitive(run, declared.run, afterUsages);
    ExtendsTransitive(run, afterUsages, r);
    Tables(r, declared.values, usages)
  }

  /** The older `updateAliases` of server/src/server.ts: every match counts, nothing is
      budgeted, and no unused-alias warning exists. Its diagnostics are the duplicates,
      then the undeclared usages. */
  function LegacyUpdateAliases(text: string, related: bool): (r: Tables)
    ensures DistinctNames(r.aliases)
    ensures r.run.problems.current == |r.run.diagnostics|
  {
    DeclarationsFirstWins(Start(0), related, Present(FoundAll(text, Declaration, false)));
    var declared := DeclareAll(Table(Start(0), []), related, Present(FoundAll(text, Declaration, false)));
    var usages := AliasesOf(Present(FoundAll(text, Usage, false)));
    Tables(declared.run.ReportAll(UndeclaredErrors(declared.values, usages)), declared.values, usages)
  }

  /** The steps of `UpdateAliases`, one diagnostic list after the other. */
  lemma UpdateAliasesUnfold(run: Run, text: string, related: bool)
    ensures var declared := DeclareGated(Table(run, []), related, FoundAll(text, Declaration, true));
      var r := UpdateAliases(run, text, related);
      && r.aliases == declared.values
      && r.usages == AliasesOf(Present(FoundAll(text, Usage, true)))
      && r.run.diagnostics == declared.run.diagnostics
           + UndeclaredErrors(r.aliases, r.usages) + UnusedWarnings(r.aliases, r.usages)
  {
  }

  /** `d` is what the usage or the unused loop reports: an error for a usage whose name
      no entry of `values` has, or a warning for an entry no usage names. */
  ghost predicate UsageLoopDiagnostic(values: seq<Alias>, usages: seq<Alias>, d: Diagnostic) {
    || (exists u :: u in usages && (forall v :: v in values ==> v.value != u.value) && d == UndeclaredError(u))
    || (exists v :: v in values && (forall u :: u in usages ==> u.value != v.value) && d == UnusedWarning(v))
  }

  /** After the gated declaration loop, `updateAliases` records every usage in the code
      part of its line, declared or not, and adds exactly the usage-loop diagnostics of
      its table and usages, whatever the budget. */
  lemma UpdateAliasesAdds(run: Run, text: string, related: bool)
    ensures var declared := DeclareGated(Table(run, []), related, FoundAll(text, Declaration, true));
      var r := UpdateAliases(run, text, related);
      var n := |declared.run.diagnostics|;
      && r.aliases == declared.values
      && r.usages == AliasesOf(Present(FoundAll(text, Usage, true)))
      && n <= |r.run.diagnostics| && r.run.diagnostics[..n] == declared.run.diagnostics
      && forall d :: d in r.run.diagnostics[n..] <==> UsageLoopDiagnostic(r.aliases, r.usages, d)
    ensures var declared := DeclareGated(Table(run, []), related, FoundAll(text, Declaration, true));
      var r := UpdateAliases(run, text, related);
      ErrorsThenWarnings(r.run.diagnostics, |declared.run.diagnostics|, r.aliases, r.usages)
  {
    var declared := DeclareGated(Table(run, []), related, FoundAll(text, Declaration, true));
    var r := UpdateAliases(run, text, related);
    UpdateAliasesUnfold(run, text, related);
    ReportedAfterDeclarations(r.run.diagnostics, declared.run.diagnostics, r.aliases, r.usages);
    ReportedInOrder(r.run.diagnostics, declared.run.diagnostics, r.aliases, r.usages);
  }

  /** From index `n` on, `all` holds one "Using alias before declaration" error per
      undeclared usage, then one "This alias is never used" warning per unused entry. */
  ghost predicate ErrorsThenWarnings(all: seq<Diagnostic>, n: nat, values: seq<Alias>, usages: seq<Alias>) {
    var e := |UndeclaredFrom(values, usages, 0)|;
    && |all| == n + e + |UnusedFrom(values, usages, 0)|
    && (forall i :: n <= i < n + e ==> all[i].severity == Error && all[i].message == "Using alias before declaration")
    && (forall i :: n + e <= i < |all| ==> all[i].severity == Warning && all[i].message == "This alias is never used")
  }

  /** The usage errors come first, then the unused warnings, one for each. */
  lemma ReportedInOrder(all: seq<Diagnostic>, before: seq<Diagnostic>, values: seq<Alias>, usages: seq<Alias>)
    requires all == before + UndeclaredErrors(values, usages) + UnusedWarnings(values, usages)
    ensures ErrorsThenWarnings(all, |before|, values, usages)
  {
    UndeclaredErrorsCount(values, usages);
    UnusedWarningsCount(values, usages);
    UndeclaredErrorsAreErrors(values, usages);
    UnusedWarningsAreWarnings(values, usages);
    LaidOut(all, before, UndeclaredErrors(values, usages), UnusedWarnings(values, usages));
  }

  /** Where the entries of three appended lists land. */
  lemma LaidOut(all: seq<Diagnostic>, before: seq<Diagnostic>, errors: seq<Diagnostic>, warnings: seq<Diagnostic>)
    requires all == before + errors + warnings
    requires forall i :: 0 <= i < |errors| ==> errors[i].severity == Error && errors[i].message == "Using alias before declaration"
    requires forall i :: 0 <= i < |warnings| ==> warnings[i].severity == Warning && warnings[i].message == "This alias is never used"
    ensures |all| == |before| + |errors| + |warnings|
    ensures forall i :: |before| <= i < |before| + |errors| ==>
      all[i].severity == Error && all[i].message == "Using alias before declaration"
    ensures forall i :: |before| + |errors| <= i < |all| ==>
      all[i].severity == Warning && all[i].message == "This alias is never used"
  {
    assert forall i :: |before| <= i < |before| + |errors| ==> all[i] == errors[i - |before|];
    assert forall i :: |before| + |errors| <= i < |all| ==> all[i] == warnings[i - |before| - |errors|];
  }

  /** Every entry of the usage loop's list is a "Using alias before declaration" error. */
  lemma {:induction false} UndeclaredErrorsAreErrors(values: seq<Alias>, usages: seq<Alias>)
    ensures forall i :: 0 <= i < |UndeclaredErrors(values, usages)| ==>
      && UndeclaredErrors(values, usages)[i].severity == Error
      && UndeclaredErrors(values, usages)[i].message == "Using alias before declaration"
  {
    if |usages| > 0 {
      UndeclaredErrorsAreErrors(values, usages[1..]);
      assert forall i :: 0 <= i < |UndeclaredErrors(values, usages[1..])| ==> UndeclaredErrors(values, usages[1..])[i].severity == Error;
      assert forall i :: 0 <= i < |UndeclaredErrors(values, usages[1..])| ==> UndeclaredErrors(values, usages[1..])[i].message == "Using alias before declaration";
    }
  }

  /** Every entry of the unused loop's list is a "This alias is never used" warning. */
  lemma {:induction false} UnusedWarningsAreWarnings(values: seq<Alias>, usages: seq<Alias>)
    ensures forall i :: 0 <= i < |UnusedWarnings(values, usages)| ==>
      && UnusedWarnings(values, usages)[i].severity == Warning
      && UnusedWarnings(values, usages)[i].message == "This alias is never used"
  {
    if |values| > 0 {
      UnusedWarningsAreWarnings(values[1..], usages);
      assert forall i :: 0 <= i < |UnusedWarnings(values[1..], usages)| ==> UnusedWarnings(values[1..], usages)[i].severity == Warning;
      assert forall i :: 0 <= i < |UnusedWarnings(values[1..], usages)| ==> UnusedWarnings(values[1..], usages)[i].message == "This alias is never used";
    }
  }

  /** What follows the declaration loop's diagnostics: the usage errors and unused
      warnings, membership by membership. */
  lemma ReportedAfterDeclarations(all: seq<Diagnostic>, before: seq<Diagnostic>, values: seq<Alias>, usages: seq<Alias>)
    requires all == before + UndeclaredErrors(values, usages) + UnusedWarnings(values, usages)
    ensures |before| <= |all| && all[..|before|] == before
    ensures forall d :: d in all[|before|..] <==> UsageLoopDiagnostic(values, usages, d)
  {
    var errors := UndeclaredErrors(values, usages);
    var warnings := UnusedWarnings(values, usages);
    AfterPrefix(all, before, errors, warnings);
    forall d
      ensures d in all[|before|..] <==> UsageLoopDiagnostic(values, usages, d)
    {
      UndeclaredErrorsExactly(values, usages, d);
      UnusedWarningsExactly(values, usages, d);
    }
  }

  /** What follows `before` in `before + errors + warnings` is each entry of the two lists. */
  lemma AfterPrefix(all: seq<Diagnostic>, before: seq<Diagnostic>, errors: seq<Diagnostic>, warnings: seq<Diagnostic>)
    requires all == before + errors + warnings
    ensures |before| <= |all| && all[..|before|] == before
    ensures forall d :: d in all[|before|..] <==> d in errors || d in warnings
  {
    assert all[..|before|] == before;
    assert all[|before|..] == errors + warnings;
  }

  /** Without a budget every declaration is handled: the older version's table is the
      first-wins table of all declarations, and every usage is recorded. */
  lemma LegacyUpdateAliasesReports(text: string, related: bool)
    ensures var found := Present(FoundAll(text, Declaration, false));
      var r := LegacyUpdateAliases(text, related);
      && (forall name :: FirstNamed(r.aliases, name) == FirstNamed(AliasesOf(found), name))
      && DistinctNames(r.aliases)
      && r.usages == AliasesOf(Present(FoundAll(text, Usage, false)))
      && r.run.diagnostics == Duplicates(related, [], found) + UndeclaredErrors(r.aliases, r.usages)
  {
    var found := Present(FoundAll(text, Declaration, false));
    DeclarationsFirstWins(Start(0), related, found);
  }
}
