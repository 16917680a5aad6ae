/** The budgeted diagnostic passes of server/src/validations.ts: camel-case names, the
    literal arguments of `lambeu`, `comeu`, `fudeu`, `penetrou` and `chupou`, the
    parameter lines an instruction needs, and unknown keywords. Each pass is a
    `while ((m = pattern.exec(text)) && problems.current < problems.max)` loop; here it
    is the list of the pattern's matches, each turned into a `Step`, folded over the
    shared `Run` by `GatedScan`. */
module Validations {
  import opened Options
  import opened Strings
  import opened Positions
  import opened Patterns
  import opened Utils
  import opened Extension
  import opened Diagnostics
  import opened Aliases

  /** What one loop iteration does: push a diagnostic (and count it), `continue`, or
      `break`. */
  datatype Step = Emit(d: Diagnostic) | Skip | Stop

  /** The diagnostics an ungated loop would push: those of the steps before the first
      `Stop`. */
  function Emissions(steps: seq<Step>): (ds: seq<Diagnostic>)
    ensures |ds| <= |steps|
  {
    if |steps| == 0 then []
    else
      match steps[0]
      case Emit(d) => [d] + Emissions(steps[1..])
      case Skip => Emissions(steps[1..])
      case Stop => []
  }

  /** The budget-gated loop: every iteration first checks `current < max`. The run only
      grows, and a run whose budget is spent comes back unchanged. Since the budget test comes
      before every push, `current` never passes `max` unless it already had. */
  function GatedScan(run: Run, steps: seq<Step>): (r: Run)
    ensures Extends(r, run)
    ensures !run.problems.HasRoom() ==> r == run
    ensures r.problems.current <= if run.problems.HasRoom() then run.problems.max else run.problems.current
    decreases |steps|
  {
    if |steps| == 0 || !run.problems.HasRoom() then run
    else
      match steps[0]
      case Emit(d) => GatedScan(run.Report(d), steps[1..])
      case Skip => GatedScan(run, steps[1..])
      case Stop => run
  }

  /** The gated loop pushes exactly the first `Room()` diagnostics the ungated loop would:
      the budget truncates the list and changes nothing else. */
  lemma {:induction false} GatedScanTakesRoom(run: Run, steps: seq<Step>)
    ensures GatedScan(run, steps) == run.ReportAll(Take(Emissions(steps), run.problems.Room()))
    decreases |steps|
  {
    if |steps| > 0 && run.problems.HasRoom() {
      match steps[0]
      case Emit(d) =>
        var rest := Emissions(steps[1..]);
        GatedScanTakesRoom(run.Report(d), steps[1..]);
        var n := run.problems.Room();
        assert run.Report(d).problems.Room() == n - 1;
        var taken := Take([d] + rest, n);
        assert taken == [d] + Take(rest, n - 1);
        assert taken[1..] == Take(rest, n - 1);
      case Skip =>
        GatedScanTakesRoom(run, steps[1..]);
      case Stop =>
    }
  }

  // ---------------------------------------------------------------------------------
  // The passes

  /** The inputs the passes read besides the text: whether the client supports related
      information, and `parameterCount`, the number of parameter lines each opcode
      takes (an opcode without an entry takes none). */
  datatype Settings = Settings(related: bool, parameterCount: map<int, nat>)

  /** The loops of server/src/validations.ts, in the order `validateTextDocument` runs
      them, and the older `lambeu` loop of server/src/server.ts, whose pattern does not
      allow leading spaces. */
  datatype Pass = CamelCasePass | LambeuPass | ComeuPass | UnsignedPass | CommandPass | KeywordPass
    | LegacyLambeuPass

  function PatternOf(pass: Pass): Pattern {
    match pass
    case CamelCasePass => CamelCase
    case LambeuPass => SpacedLambeu
    case ComeuPass => Comeu
    case UnsignedPass => UnsignedArgument
    case CommandPass => Command
    case KeywordPass => UnknownKeyword
    case LegacyLambeuPass => Lambeu
  }

  /** The name `validateParams` reports for an unsigned-argument match, chosen by
      `includes` on `match.toString()` (the match, a comma, the keyword group) in the
      order fudeu, penetrou, chupou. */
  function UnsignedName(stringMatch: string): (name: string)
    ensures name in UnsignedKeywords
  {
    if Contains(stringMatch, "fudeu") then "fudeu"
    else if Contains(stringMatch, "penetrou") then "penetrou"
    else "chupou"
  }

  /** `match.toString()` of an unsigned-argument match: the match and its keyword group. */
  function UnsignedString(text: string, m: Match): string
    requires m.start <= m.end <= |text|
  {
    var keyword := match UnsignedKeywordAt(text, SpacesEnd(text, m.start)) case Some(w) => w case None => "";
    text[m.start..m.end] + "," + keyword
  }

  /** The passes that report every match they handle. */
  predicate ReportsEveryMatch(pass: Pass) {
    !pass.CommandPass? && !pass.KeywordPass?
  }

  /** The diagnostic such a pass pushes for match `m`:
      - `validateCamelCase`: a warning naming the word, from source `ex`, with the
        snake_case spelling as related information when the client supports it;
      - the three loops of `validateParams`: an error naming the instruction. */
  function MatchDiagnostic(text: string, settings: Settings, pass: Pass, m: Match): (d: Diagnostic)
    requires ReportsEveryMatch(pass) && m.start <= m.end <= |text|
    ensures d.range == RangeOf(text, m.start, m.end)
    ensures d.severity == Warning <==> pass.CamelCasePass?
    ensures pass.CamelCasePass? ==> && d.message == text[m.start..m.end] + " Has camel case"
                                    && d.source == Some("ex")
                                    && (d.related.Some? <==> settings.related)
    ensures pass.CamelCasePass? && settings.related ==>
              d.related == Some(RelatedInformation(d.range, "Write it as " + LowerAlias(text[m.start..m.end])))
    ensures !pass.CamelCasePass? ==> d.source.None? && d.related.None?
    ensures pass.LambeuPass? || pass.LegacyLambeuPass? ==> d.message == "Invalid alias for lambeu"
    ensures pass.ComeuPass? ==> d.message == "Invalid number for comeu"
    ensures pass.UnsignedPass? ==> exists w :: w in UnsignedKeywords && d.message == "Invalid number for " + w
  {
    var range := RangeOf(text, m.start, m.end);
    if pass.CamelCasePass? then
      var word := text[m.start..m.end];
      var hint := if settings.related then Some(RelatedInformation(range, "Write it as " + LowerAlias(word))) else None;
      Diagnostic(range, Warning, word + " Has camel case", Some("ex"), hint)
    else if pass.LambeuPass? || pass.LegacyLambeuPass? then Plain(range, Error, "Invalid alias for lambeu")
    else if pass.ComeuPass? then Plain(range, Error, "Invalid number for comeu")
    else Plain(range, Error, "Invalid number for " + UnsignedName(UnsignedString(text, m)))
  }

  /** The `i`-th parameter line after the instruction on line `line`: from the start of
      line `line + i + 1` to the start of the next one. */
  function ParameterRange(line: nat, i: nat): Range {
    Range(Position(line + i + 1, 0), Position(line + i + 2, 0))
  }

  /** The parameter line is empty once trimmed and stripped of its comment. */
  predicate IsBlankParameter(text: string, line: nat, i: nat) {
    RemoveComments(Trim(GetText(text, ParameterRange(line, i)))) == []
  }

  /** Which of the `needs` parameter lines after line `line` are blank. */
  function BlankLines(text: string, line: nat, needs: nat): (r: seq<bool>)
    ensures |r| == needs && forall j :: 0 <= j < needs ==> r[j] == IsBlankParameter(text, line, j)
  {
    seq(needs, (j: int) requires 0 <= j => IsBlankParameter(text, line, j))
  }

  /** The inner `for` loop of `validateCommands` over the blank flags: the first blank
      line at or after `i`, if any. */
  function FirstBlank(blank: seq<bool>, i: nat): (r: Option<nat>)
    requires i <= |blank|
    ensures r.Some? ==> i <= r.value < |blank| && blank[r.value]
    ensures r.Some? ==> forall j :: i <= j < r.value ==> !blank[j]
    ensures r.None? ==> forall j :: i <= j < |blank| ==> !blank[j]
    decreases |blank| - i
  {
    if i == |blank| then None
    else if blank[i] then Some(i)
    else FirstBlank(blank, i + 1)
  }

  /** The first blank line is the one blank line with none before it. */
  lemma FirstBlankIs(blank: seq<bool>, given: nat)
    requires given < |blank| && blank[given]
    requires forall j :: 0 <= j < given ==> !blank[j]
    ensures FirstBlank(blank, 0) == Some(given)
  {
  }

  /** `parameterCount[opcode]`; a missing entry runs the loop zero times. */
  function Needs(settings: Settings, opcode: int): nat {
    if opcode in settings.parameterCount then settings.parameterCount[opcode] else 0
  }

  /** The message of a missing parameter: the opcode's name, how many lines it needs and
      how many non-blank ones came before the blank one. */
  function MissingMessage(opcode: int, needs: nat, given: nat): string
    requires 1 <= opcode <= 12
  {
    "Missing parameters for " + Label(opcode) + ", needs " + NatToString(needs) + " given " + NatToString(given)
  }

  /** One iteration of `validateCommands`. */
  function CommandStep(text: string, settings: Settings, m: Match): Step
    requires m.start <= m.end <= |text|
  {
    CommandStepAt(text, settings, GetOpcode(text[m.start..m.end]), PositionAt(text, m.start).line)
  }

  /** The iteration for an instruction with `opcode` on line `line` (`getOpcode` never
      yields 0). */
  function CommandStepAt(text: string, settings: Settings, opcode: int, line: nat): Step
    requires opcode != 0
  {
    if opcode < 0 || opcode > 12 then Skip
    else
      var needs := Needs(settings, opcode);
      match FirstBlank(BlankLines(text, line, needs), 0)
      case None => Skip
      case Some(given) => Emit(Plain(ParameterRange(line, given), Error, MissingMessage(opcode, needs, given)))
  }

  /** One iteration of `invalidKeywords`: a blank line ends the loop; any other line is
      reported with `match.toString()`, which appends a comma for the (never set) group
      of the look-ahead. */
  function KeywordStep(text: string, m: Match): Step
    requires m.start <= m.end <= |text|
  {
    if Trim(text[m.start..m.end]) == [] then Stop else Emit(KeywordReport(text, m))
  }

  /** The error for an unknown keyword: on the matched line, quoting it. */
  function KeywordReport(text: string, m: Match): (d: Diagnostic)
    requires m.start <= m.end <= |text|
    ensures d.range == RangeOf(text, m.start, m.end) && d.severity == Error
    ensures d.message == "Unknown keyword " + text[m.start..m.end] + "," && d.source.None? && d.related.None?
  {
    Plain(RangeOf(text, m.start, m.end), Error, "Unknown keyword " + text[m.start..m.end] + ",")
  }

  function StepOf(text: string, settings: Settings, pass: Pass, m: Match): Step
    requires m.start <= m.end <= |text|
  {
    match pass
    case CommandPass => CommandStep(text, settings, m)
    case KeywordPass => KeywordStep(text, m)
    case _ => Emit(MatchDiagnostic(text, settings, pass, m))
  }

  /** The steps of one pass: one per match of its pattern, in document order. */
  function Steps(text: string, settings: Settings, pass: Pass): (steps: seq<Step>)
    ensures |steps| == |Matches(PatternOf(pass), text, 0)|
  {
    StepsOf(text, settings, pass, Matches(PatternOf(pass), text, 0))
  }

  function StepsOf(text: string, settings: Settings, pass: Pass, ms: seq<Match>): (steps: seq<Step>)
    requires forall i :: 0 <= i < |ms| ==> ms[i].start <= ms[i].end <= |text|
    ensures |steps| == |ms| && forall i :: 0 <= i < |ms| ==> steps[i] == StepOf(text, settings, pass, ms[i])
  {
    seq(|ms|, i requires 0 <= i < |ms| => StepOf(text, settings, pass, ms[i]))
  }

  /** One pass over the shared budget. */
  function RunPass(run: Run, text: string, settings: Settings, pass: Pass): (r: Run)
    ensures Extends(r, run)
    ensures !run.problems.HasRoom() ==> r == run
    ensures r.problems.current <= if run.problems.HasRoom() then run.problems.max else run.problems.current
  {
    GatedScan(run, Steps(text, settings, pass))
  }

  /** `validateParams`: the `lambeu`, `comeu` and unsigned loops, one after the other. */
  function ValidateParams(run: Run, text: string, settings: Settings): (r: Run)
    ensures Extends(r, run)
    ensures !run.problems.HasRoom() ==> r == run
    ensures r.problems.current <= if run.problems.HasRoom() then run.problems.max else run.problems.current
  {
    var afterLambeu := RunPass(run, text, settings, LambeuPass);
    var afterComeu := RunPass(afterLambeu, text, settings, ComeuPass);
    ExtendsTransitive(run, afterLambeu, afterComeu);
    var r := RunPass(afterComeu, text, settings, UnsignedPass);
    ExtendsTransitive(run, afterComeu, r);
    r
  }

  /** The part of `maxNumberOfProblems` the gated loops can use: none when it is not
      positive. */
  function Cap(maxProblems: int): nat {
    if maxProblems > 0 then maxProblems else 0
  }

  /** `validateTextDocument`: the five checks over one budget of `maxNumberOfProblems`,
      starting from `current == 0`, in the order camel case, literal arguments, aliases,
      parameter lines, unknown keywords. `current` counts every diagnostic. The gated
      loops together push at most `Cap(maxProblems)` of them; the alias usage and unused
      loops are not gated and add at most one per usage and one per declared name. */
  function ValidateTextDocument(text: string, settings: Settings, maxProblems: int): (r: Tables)
    ensures r.run.problems.current == |r.run.diagnostics|
    ensures |r.run.diagnostics| <= Cap(maxProblems) + |r.usages| + |r.aliases|
  {
    var afterCamel := RunPass(Start(maxProblems), text, settings, CamelCasePass);
    var afterParams := ValidateParams(afterCamel, text, settings);
    var tables := UpdateAliases(afterParams, text, settings.related);
    var afterCommands := RunPass(tables.run, text, settings, CommandPass);
    var r := RunPass(afterCommands, text, settings, KeywordPass);
    WithinBudget(afterParams.problems, tables.run.problems, afterCommands.problems, r.problems,
      Cap(maxProblems), |tables.usages| + |tables.aliases|);
    Tables(r, tables.aliases, tables.usages)
  }

  /** Once the gated loops have used at most `cap`, the ungated ones add at most `extra`,
      and the later gated loops stop at `max`. */
  lemma WithinBudget(a: Problems, b: Problems, c: Problems, d: Problems, cap: nat, extra: nat)
    requires a.current <= cap && a.max <= cap
    requires b.max == a.max && b.current <= (if a.HasRoom() then a.max else a.current) + extra
    requires c.max == b.max && c.current <= if b.HasRoom() then b.max else b.current
    requires d.max == c.max && d.current <= if c.HasRoom() then c.max else c.current
    ensures d.current <= cap + extra
  {
  }

  /** With no budget (`maxNumberOfProblems <= 0`) the gated loops report nothing and the
      alias table stays empty, yet the ungated usage loop still runs: every usage is then
      reported as used before its declaration, and nothing else is reported. */
  lemma WithoutBudgetEveryUsageIsUndeclared(text: string, settings: Settings, maxProblems: int)
    requires maxProblems <= 0
    ensures var r := ValidateTextDocument(text, settings, maxProblems);
      && r.aliases == []
      && |r.run.diagnostics| == |r.usages|
      && forall i :: 0 <= i < |r.usages| ==> r.run.diagnostics[i] == UndeclaredError(r.usages[i])
  {
    var start := Start(maxProblems);
    assert ValidateParams(RunPass(start, text, settings, CamelCasePass), text, settings) == start;
    var tables := UpdateAliases(start, text, settings.related);
    UpdateAliasesUnfold(start, text, settings.related);
    assert tables.aliases == [];
    UndeclaredErrorsWithoutTable(tables.usages);
    assert !tables.run.problems.HasRoom();
  }

  // ---------------------------------------------------------------------------------
  // What each pass reports

  /** When the first `n` steps push a diagnostic and step `n` ends the loop (or there is
      none), the ungated loop pushes exactly those `n` diagnostics. */
  lemma {:induction false} EmissionsUntilStop(steps: seq<Step>, n: nat)
    requires n <= |steps| && (n == |steps| || steps[n].Stop?)
    requires forall i :: 0 <= i < n ==> steps[i].Emit?
    ensures |Emissions(steps)| == n
    ensures forall i :: 0 <= i < n ==> Emissions(steps)[i] == steps[i].d
  {
    if n > 0 {
      EmissionsUntilStop(steps[1..], n - 1);
    }
  }

  /** The gated loop then pushes the diagnostics of the first `n` steps, or of as many
      as `Room()` allows, in order, after the diagnostics already there. */
  lemma GatedScanUntilStop(run: Run, steps: seq<Step>, n: nat)
    requires n <= |steps| && (n == |steps| || steps[n].Stop?)
    requires forall i :: 0 <= i < n ==> steps[i].Emit?
    ensures var r := GatedScan(run, steps);
      var k := if n <= run.problems.Room() then n else run.problems.Room();
      && |r.diagnostics| == |run.diagnostics| + k
      && r.diagnostics[..|run.diagnostics|] == run.diagnostics
      && forall i :: 0 <= i < k ==> r.diagnostics[|run.diagnostics| + i] == steps[i].d
  {
    EmissionsUntilStop(steps, n);
    GatedScanTakesRoom(run, steps);
    var taken := Take(Emissions(steps), run.problems.Room());
    assert GatedScan(run, steps).diagnostics == run.diagnostics + taken;
  }

  /** The camel-case pass and the three literal-argument loops report the first
      `Room()` matches of their pattern, in document order, one diagnostic each, after
      the diagnostics already pushed. */
  lemma ReportsFirstMatches(run: Run, text: string, settings: Settings, pass: Pass)
    requires ReportsEveryMatch(pass)
    ensures var ms := Matches(PatternOf(pass), text, 0);
      var r := RunPass(run, text, settings, pass);
      var n := if |ms| <= run.problems.Room() then |ms| else run.problems.Room();
      && |r.diagnostics| == |run.diagnostics| + n
      && r.diagnostics[..|run.diagnostics|] == run.diagnostics
      && (forall i :: 0 <= i < |ms| ==> ms[i].start <= ms[i].end <= |text|)
      && forall i :: 0 <= i < n ==> r.diagnostics[|run.diagnostics| + i] == MatchDiagnostic(text, settings, pass, ms[i])
  {
    StepsOfReportingPass(text, settings, pass);
    GatedScanUntilStop(run, Steps(text, settings, pass), |Matches(PatternOf(pass), text, 0)|);
  }

  lemma StepsOfReportingPass(text: string, settings: Settings, pass: Pass)
    requires ReportsEveryMatch(pass)
    ensures var ms := Matches(PatternOf(pass), text, 0);
      var steps := Steps(text, settings, pass);
      && (forall i :: 0 <= i < |ms| ==> ms[i].start <= ms[i].end <= |text|)
      && forall i :: 0 <= i < |ms| ==> steps[i] == Emit(MatchDiagnostic(text, settings, pass, ms[i]))
  {
  }

  /** A match of the unknown-keyword pattern that is blank once trimmed. */
  predicate BlankMatch(text: string, m: Match) {
    m.start <= m.end <= |text| && Trim(text[m.start..m.end]) == []
  }

  /** `invalidKeywords` reports every matched line before the first blank one (or all
      of them when none is blank), as many as `Room()` allows, in document order: an
      error on the line whose message quotes it followed by a comma. */
  lemma KeywordPassReportsUntilBlank(run: Run, text: string, settings: Settings, n: nat)
    requires var ms := Matches(UnknownKeyword, text, 0);
      && n <= |ms|
      && (forall i :: 0 <= i < n ==> !BlankMatch(text, ms[i]))
      && (n == |ms| || BlankMatch(text, ms[n]))
    ensures var ms := Matches(UnknownKeyword, text, 0);
      var r := RunPass(run, text, settings, KeywordPass);
      var k := if n <= run.problems.Room() then n else run.problems.Room();
      && (forall i :: 0 <= i < |ms| ==> ms[i].start <= ms[i].end <= |text|)
      && |r.diagnostics| == |run.diagnostics| + k
      && r.diagnostics[..|run.diagnostics|] == run.diagnostics
      && forall i :: 0 <= i < k ==> r.diagnostics[|run.diagnostics| + i] == KeywordReport(text, ms[i])
  {
    KeywordPassSteps(text, settings, n);
    GatedScanUntilStop(run, Steps(text, settings, KeywordPass), n);
  }

  /** The steps of the keyword pass: a report for each matched line before the first
      blank one, and a `Stop` at that one. */
  lemma KeywordPassSteps(text: string, settings: Settings, n: nat)
    requires var ms := Matches(UnknownKeyword, text, 0);
      && n <= |ms|
      && (forall i :: 0 <= i < n ==> !BlankMatch(text, ms[i]))
      && (n == |ms| || BlankMatch(text, ms[n]))
    ensures var ms := Matches(UnknownKeyword, text, 0);
      var steps := Steps(text, settings, KeywordPass);
      && n <= |steps| && (n == |steps| || steps[n].Stop?)
      && (forall i :: 0 <= i < |ms| ==> ms[i].start <= ms[i].end <= |text|)
      && forall i :: 0 <= i < n ==> steps[i] == Emit(KeywordReport(text, ms[i]))
  {
    var ms := Matches(UnknownKeyword, text, 0);
    assert Steps(text, settings, KeywordPass) == StepsOf(text, settings, KeywordPass, ms);
    KeywordStepsUntilBlank(text, settings, ms, n);
  }

  /** The keyword steps of matched lines: a report for each line before the first blank
      one, and a `Stop` at that one. */
  lemma KeywordStepsUntilBlank(text: string, settings: Settings, ms: seq<Match>, n: nat)
    requires forall i :: 0 <= i < |ms| ==> ms[i].start <= ms[i].end <= |text|
    requires n <= |ms| && (n == |ms| || BlankMatch(text, ms[n]))
    requires forall i :: 0 <= i < n ==> !BlankMatch(text, ms[i])
    ensures var steps := StepsOf(text, settings, KeywordPass, ms);
      && (n == |ms| || steps[n].Stop?)
      && forall i :: 0 <= i < n ==> steps[i] == Emit(KeywordReport(text, ms[i]))
  {
  }

  /** `validateCommands` on an instruction whose opcode is 1 to 12: when parameter line
      `given` is the first blank one among the `parameterCount[opcode]` lines after it,
      the error sits on that line and says how many lines were needed and how many
      non-blank ones came before it. */
  lemma CommandStepReportsFirstBlank(text: string, settings: Settings, opcode: int, line: nat, given: nat)
    requires 1 <= opcode <= 12 && given < Needs(settings, opcode)
    requires IsBlankParameter(text, line, given)
    requires forall j :: 0 <= j < given ==> !IsBlankParameter(text, line, j)
    ensures CommandStepAt(text, settings, opcode, line)
      == Emit(Plain(ParameterRange(line, given), Error, MissingMessage(opcode, Needs(settings, opcode), given)))
  {
    var blank := BlankLines(text, line, Needs(settings, opcode));
    assert blank[given] && forall j :: 0 <= j < given ==> !blank[j];
    FirstBlankIs(blank, given);
  }

  /** Otherwise `validateCommands` moves on without a diagnostic (it never ends the loop):
      an opcode outside 1 to 12, or no blank line among those it needs. */
  lemma CommandStepSkips(text: string, settings: Settings, opcode: int, line: nat)
    requires opcode != 0
    requires !(1 <= opcode <= 12) || forall j :: 0 <= j < Needs(settings, opcode) ==> !IsBlankParameter(text, line, j)
    ensures CommandStepAt(text, settings, opcode, line) == Skip
  {
    if 1 <= opcode <= 12 {
      var blank := BlankLines(text, line, Needs(settings, opcode));
      assert forall j :: 0 <= j < |blank| ==> !blank[j];
    }
  }

  /** `invalidKeywords` ends at the first line that matches and is blank once trimmed:
      the lines after it are not reported even when they hold unknown keywords. In a
      document that starts with an empty line ended by `\r\n`, the expression matches
      the empty text before the `\r` (a line terminator for `.` and `^`), so nothing in
      it is reported. */
  lemma KeywordsStopAtCarriageReturnLine(text: string, settings: Settings, rest: string)
    requires text == "\r\n" + rest
    ensures Emissions(Steps(text, settings, KeywordPass)) == []
  {
    assert UnknownKeywordAt(text, 0) == Some(0) by {
      assert !KnownLineStart(text, SpacesEnd(text, 0)) by {
        assert text[0] == '\r';
        assert SpacesEnd(text, 0) == 0;
        forall w | w in KnownKeywords
          ensures !OccursAt(text, w, 0)
        {
          assert w[0] != '\r';
        }
      }
    }
    assert NextMatch(UnknownKeyword, text, 0) == Some(Match(0, 0));
    var ms := Matches(UnknownKeyword, text, 0);
    assert ms[0] == Match(0, 0);
    assert Trim(text[0..0]) == [];
    assert Steps(text, settings, KeywordPass)[0] == Stop;
  }

  /** The unsigned-argument error names the instruction whenever no keyword of higher
      priority occurs in the match: every `fudeu` line is reported as `fudeu`, and a
      `penetrou` or `chupou` line unless its argument spells an earlier keyword. */
  lemma UnsignedNameNamesKeyword(line: string, keyword: string)
    requires keyword in UnsignedKeywords
    requires forall w :: w in UnsignedKeywords[..IndexOfKeyword(keyword)] ==> !Contains(line, w)
    ensures UnsignedName(line + "," + keyword) == keyword
  {
    var s := line + "," + keyword;
    assert OccursAt(s, keyword, |line| + 1);
    forall w | w in UnsignedKeywords[..IndexOfKeyword(keyword)]
      ensures !Contains(s, w)
    {
      NotInCommaKeyword(line, keyword, w);
    }
  }

  /** On a match of the unsigned-argument pattern whose text holds no keyword of
      higher priority than the one it starts with, the error names that keyword. */
  lemma UnsignedMessageNamesKeyword(text: string, settings: Settings, m: Match, w: string)
    requires IsMatch(UnsignedArgument, text, m) && m.end <= |text|
    requires w in UnsignedKeywords && OccursAt(text, w + " ", SpacesEnd(text, m.start))
    requires forall v :: v in UnsignedKeywords[..IndexOfKeyword(w)] ==> !Contains(text[m.start..m.end], v)
    ensures MatchDiagnostic(text, settings, UnsignedPass, m).message == "Invalid number for " + w
  {
    KeywordAtIs(text, SpacesEnd(text, m.start), w);
    UnsignedNameNamesKeyword(text[m.start..m.end], w);
  }

  /** The position of an unsigned keyword in the priority order. */
  function IndexOfKeyword(keyword: string): (i: nat)
    requires keyword in UnsignedKeywords
    ensures i < |UnsignedKeywords| && UnsignedKeywords[i] == keyword
  {
    if keyword == "fudeu" then 0 else if keyword == "penetrou" then 1 else 2
  }

  /** An earlier keyword occurs in `line,keyword` only inside `line`: no keyword holds a
      comma, and none starts with a letter of a later one. */
  lemma NotInCommaKeyword(line: string, keyword: string, w: string)
    requires keyword in UnsignedKeywords
    requires w in UnsignedKeywords[..IndexOfKeyword(keyword)] && !Contains(line, w)
    ensures !Contains(line + "," + keyword, w)
  {
    var s := line + "," + keyword;
    assert ',' !in w;
    assert w[0] !in keyword || |w| > |keyword|;
    assert s[|line|] == ',';
    assert forall k :: |line| < k < |s| ==> s[k] == keyword[k - |line| - 1];
    forall i: nat | i <= |s|
      ensures !OccursAt(s, w, i)
    {
      if OccursAt(s, w, i) && i + |w| <= |line| {
        assert s[i..i + |w|] == line[i..i + |w|];
        assert OccursAt(line, w, i);
      }
    }
  }

  /** The name is chosen from the whole line, so a `chupou` whose argument mentions
      `fudeu` is reported as an invalid `fudeu`. */
  lemma UnsignedNameFavoursEarlierKeyword(argument: string)
    ensures UnsignedName("chupou " + argument + "fudeu" + "," + "chupou") == "fudeu"
  {
    var s := "chupou " + argument + "fudeu" + "," + "chupou";
    assert OccursAt(s, "fudeu", 7 + |argument|);
  }
}
