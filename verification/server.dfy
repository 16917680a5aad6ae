/** The request handlers of server/src/server.ts over the tables the last validation
    published: go-to-definition from an alias usage, the completion list and its resolve
    step, the rename quick fix for camel case and the `re.name` command it runs. Also the
    older validation of that file: two budgeted loops, then the unbudgeted alias check.
    A handler that finds no open document for its request gets `docOpen == false`. */
module Server {
  import opened Options
  import opened Strings
  import opened Positions
  import opened Patterns
  import opened Utils
  import opened Diagnostics
  import opened Aliases
  import opened Validations

  // ---------------------------------------------------------------------------------
  // The older validateTextDocument

  /** `validateTextDocument` of server/src/server.ts: the camel-case loop and the
      `lambeu` loop (without leading spaces) share a counter capped by
      `maxNumberOfProblems`; the alias diagnostics are then appended without being
      counted. The result's `run` holds the counter and every diagnostic sent. */
  function LegacyValidate(text: string, related: bool, maxProblems: int): (r: Tables)
    ensures 0 <= r.run.problems.current <= Cap(maxProblems)
    ensures r.run.problems.current + |LegacyUpdateAliases(text, related).run.diagnostics| == |r.run.diagnostics|
    ensures r.run.diagnostics[r.run.problems.current..] == LegacyUpdateAliases(text, related).run.diagnostics
  {
    var settings := Settings(related, map[]);
    var afterCamel := RunPass(Start(maxProblems), text, settings, CamelCasePass);
    var counted := RunPass(afterCamel, text, settings, LegacyLambeuPass);
    ExtendsTransitive(Start(maxProblems), afterCamel, counted);
    var tables := LegacyUpdateAliases(text, related);
    assert counted.problems.current == |counted.diagnostics|;
    var all := counted.diagnostics + tables.run.diagnostics;
    assert all[|counted.diagnostics|..] == tables.run.diagnostics;
    Tables(Run(counted.problems, all), tables.aliases, tables.usages)
  }

  /** The alias diagnostics of the older version escape the budget: with none left, they
      are all that is sent, every duplicate and every undeclared usage. */
  lemma LegacyAliasesIgnoreBudget(text: string, related: bool, maxProblems: int)
    requires maxProblems <= 0
    ensures var r := LegacyValidate(text, related, maxProblems);
      r.run.diagnostics
        == Duplicates(related, [], Present(FoundAll(text, Declaration, false))) + UndeclaredErrors(r.aliases, r.usages)
  {
    var settings := Settings(related, map[]);
    assert RunPass(RunPass(Start(maxProblems), text, settings, CamelCasePass), text, settings, LegacyLambeuPass)
      == Start(maxProblems);
    LegacyUpdateAliasesReports(text, related);
  }

  // ---------------------------------------------------------------------------------
  // Go to definition

  /** The cursor is on usage `u`: on its start line, between its start and end
      characters, both ends included. */
  predicate Covers(u: Alias, pos: Position) {
    u.range.start.line == pos.line && u.range.start.character <= pos.character <= u.range.end.character
  }

  /** The selection loop from index `k` on: each covering usage replaces the selection. */
  function SelectFrom(usages: seq<Alias>, pos: Position, k: nat, selected: Option<Alias>): (r: Option<Alias>)
    requires k <= |usages|
    ensures r == selected || (r.Some? && r.value in usages[k..] && Covers(r.value, pos))
    decreases |usages| - k
  {
    if k == |usages| then selected
    else SelectFrom(usages, pos, k + 1, if Covers(usages[k], pos) then Some(usages[k]) else selected)
  }

  /** The index of the last covering usage among the first `n`. */
  function LastCovering(usages: seq<Alias>, pos: Position, n: nat): (r: Option<nat>)
    requires n <= |usages|
    ensures r.Some? ==> r.value < n && Covers(usages[r.value], pos)
    ensures r.Some? ==> forall j :: r.value < j < n ==> !Covers(usages[j], pos)
    ensures r.None? ==> forall j :: 0 <= j < n ==> !Covers(usages[j], pos)
  {
    if n == 0 then None
    else if Covers(usages[n - 1], pos) then Some(n - 1)
    else LastCovering(usages, pos, n - 1)
  }

  /** The selection loop ends on the last covering usage, and on nothing when no usage
      covers the cursor. */
  lemma {:induction false} SelectFromIsLast(usages: seq<Alias>, pos: Position, k: nat, selected: Option<Alias>)
    requires k <= |usages|
    ensures var last := LastCovering(usages, pos, |usages|);
      SelectFrom(usages, pos, k, selected)
        == if last.Some? && k <= last.value then Some(usages[last.value]) else selected
    decreases |usages| - k
  {
    if k < |usages| {
      var next := if Covers(usages[k], pos) then Some(usages[k]) else selected;
      SelectFromIsLast(usages, pos, k + 1, next);
    }
  }

  /** `onDefinition`: the declaration range of the name under the cursor. Nothing when
      the document is not open, no usage covers the cursor, or the name was never
      declared; otherwise the range of the first declaration with the name of the last
      covering usage. */
  function Definition(docOpen: bool, aliases: seq<Alias>, usages: seq<Alias>, pos: Position): (r: Option<Range>)
    ensures r.Some? ==> docOpen && exists a :: a in aliases && a.range == r.value
  {
    if !docOpen then None
    else
      match SelectFrom(usages, pos, 0, None)
      case None => None
      case Some(selected) =>
        match FirstNamed(aliases, selected.value)
        case None => None
        case Some(declaration) => Some(declaration.range)
  }

  /** On an open document, the definition is found exactly when some usage covers the
      cursor and the last such usage names a declared alias, and it is that
      declaration's range. */
  lemma DefinitionOfLastUsage(aliases: seq<Alias>, usages: seq<Alias>, pos: Position)
    ensures var last := LastCovering(usages, pos, |usages|);
      Definition(true, aliases, usages, pos)
        == if last.None? then None
           else match FirstNamed(aliases, usages[last.value].value)
             case None => None
             case Some(declaration) => Some(declaration.range)
  {
    SelectFromIsLast(usages, pos, 0, None);
  }

  /** In a table of distinct names, the definition of a usage is the range of the one
      declaration with its name. */
  lemma DefinitionOfDeclaredName(aliases: seq<Alias>, usages: seq<Alias>, pos: Position, i: nat, j: nat)
    requires DistinctNames(aliases) && j < |aliases|
    requires i < |usages| && Covers(usages[i], pos)
    requires forall k :: i < k < |usages| ==> !Covers(usages[k], pos)
    requires aliases[j].value == usages[i].value
    ensures Definition(true, aliases, usages, pos) == Some(aliases[j].range)
  {
    DefinitionOfLastUsage(aliases, usages, pos);
    OnlyEntryNamed(aliases, j);
  }

  // ---------------------------------------------------------------------------------
  // Completion

  datatype CompletionKind = TypeParameter | Keyword | Function

  /** A completion item; `data` tags the built-ins for the resolve step. */
  datatype CompletionItem = CompletionItem(
    labelText: string,
    kind: CompletionKind,
    data: Option<string>,
    detail: Option<string>,
    documentation: Option<string>)

  function BuiltIn(labelText: string, kind: CompletionKind, data: string): CompletionItem {
    CompletionItem(labelText, kind, Some(data), None, None)
  }

  /** The fixed items, tagged `b1` to `b6`: the five instructions, then `robson`. */
  const BuiltIns: seq<CompletionItem> := [
    BuiltIn("comeu", TypeParameter, "b1"),
    BuiltIn("fudeu", TypeParameter, "b2"),
    BuiltIn("penetrou", TypeParameter, "b3"),
    BuiltIn("chupou", TypeParameter, "b4"),
    BuiltIn("lambeu", TypeParameter, "b5"),
    BuiltIn("robson", Keyword, "b6")
  ]

  /** `onCompletion`: the built-ins, then one function item per declared alias, in
      table order. The cursor is not consulted. */
  function Completions(aliases: seq<Alias>): (r: seq<CompletionItem>)
    ensures |r| == |BuiltIns| + |aliases|
    ensures r[..|BuiltIns|] == BuiltIns
    ensures forall i :: 0 <= i < |aliases| ==>
      r[|BuiltIns| + i] == CompletionItem(aliases[i].value, Function, None, None, None)
  {
    BuiltIns + seq(|aliases|, i requires 0 <= i < |aliases| => CompletionItem(aliases[i].value, Function, None, None, None))
  }

  /** Every declared name is offered, and every offered function item is a declared
      name. */
  lemma CompletionsOfferDeclaredNames(aliases: seq<Alias>, name: string)
    ensures (exists item :: item in Completions(aliases) && item.kind == Function && item.labelText == name)
      <==> FirstNamed(aliases, name).Some?
  {
    if FirstNamed(aliases, name).Some? {
      DeclaredNameOffered(aliases, name);
    }
    if exists item :: item in Completions(aliases) && item.kind == Function && item.labelText == name {
      OfferedNameDeclared(aliases, name);
    }
  }

  lemma DeclaredNameOffered(aliases: seq<Alias>, name: string)
    requires FirstNamed(aliases, name).Some?
    ensures exists item :: item in Completions(aliases) && item.kind == Function && item.labelText == name
  {
    var r := Completions(aliases);
    var i :| 0 <= i < |aliases| && aliases[i] == FirstNamed(aliases, name).value;
    assert r[|BuiltIns| + i] in r;
  }

  lemma OfferedNameDeclared(aliases: seq<Alias>, name: string)
    requires exists item :: item in Completions(aliases) && item.kind == Function && item.labelText == name
    ensures FirstNamed(aliases, name).Some?
  {
    var r := Completions(aliases);
    var item :| item in r && item.kind == Function && item.labelText == name;
    var k :| 0 <= k < |r| && r[k] == item;
    FunctionItemIsAlias(aliases, k);
    assert aliases[k - |BuiltIns|] in aliases;
  }

  /** A function item of the list is the item of the alias at its place. */
  lemma FunctionItemIsAlias(aliases: seq<Alias>, k: nat)
    requires k < |Completions(aliases)| && Completions(aliases)[k].kind == Function
    ensures |BuiltIns| <= k && Completions(aliases)[k].labelText == aliases[k - |BuiltIns|].value
  {
    BuiltInsAreNotFunctions(aliases);
  }

  lemma BuiltInsAreNotFunctions(aliases: seq<Alias>)
    ensures forall k :: 0 <= k < |BuiltIns| ==> Completions(aliases)[k].kind != Function
  {
    var r := Completions(aliases);
    forall k | 0 <= k < |BuiltIns|
      ensures r[k].kind != Function
    {
      assert r[k] == r[..|BuiltIns|][k];
    }
  }

  /** Of the older version, which tables every declaration: each name declared anywhere
      in the document is offered. */
  lemma LegacyCompletionsOfferEveryDeclaration(text: string, related: bool, i: nat)
    requires i < |Present(FoundAll(text, Declaration, false))|
    ensures var name := Present(FoundAll(text, Declaration, false))[i].alias.value;
      exists item ::
        && item in Completions(LegacyUpdateAliases(text, related).aliases)
        && item.kind == Function && item.labelText == name
  {
    var found := Present(FoundAll(text, Declaration, false));
    var aliases := LegacyUpdateAliases(text, related).aliases;
    assert aliases == DeclareAll(Table(Start(0), []), related, found).values;
    DeclaredNameTabled(Start(0), related, found, i);
    DeclaredNameOffered(aliases, found[i].alias.value);
  }

  /** What `onCompletionResolve` fills in for tags `b1` to `b5`. */
  function ResolveEntry(data: string): Option<(string, string)> {
    if data == "b1" then Some(("comeu", "returns the raw number"))
    else if data == "b2" then Some(("fudeu", "return the value from the given address"))
    else if data == "b3" then Some(("penetrou", "return the value of the adress that the given address points to"))
    else if data == "b4" then Some(("chupou", "return the value inside of the by the given amount"))
    else if data == "b5" then Some(("lambeu", "return the line of the alias"))
    else None
  }

  /** `onCompletionResolve`: an item tagged `b1` to `b5` gets its keyword as `detail` and
      its documentation; any other item (`b6`, an alias, an empty tag) is returned as
      it came. Label, kind and tag never change. */
  function Resolve(item: CompletionItem): (r: CompletionItem)
    ensures r.labelText == item.labelText && r.kind == item.kind && r.data == item.data
    ensures r.detail != item.detail ==> r.detail.Some? && r.detail.value in UnsignedKeywords + ["comeu", "lambeu"]
    ensures (item.data.None? || item.data == Some([])) ==> r == item
    ensures item.data.Some? && item.data.value !in ["b1", "b2", "b3", "b4", "b5"] ==> r == item
    ensures item.data == Some("b1") ==> r.detail == Some("comeu") && r.documentation == Some("returns the raw number")
    ensures item.data == Some("b2") ==>
      r.detail == Some("fudeu") && r.documentation == Some("return the value from the given address")
    ensures item.data == Some("b3") ==>
      r.detail == Some("penetrou") && r.documentation == Some("return the value of the adress that the given address points to")
    ensures item.data == Some("b4") ==>
      r.detail == Some("chupou") && r.documentation == Some("return the value inside of the by the given amount")
    ensures item.data == Some("b5") ==> r.detail == Some("lambeu") && r.documentation == Some("return the line of the alias")
  {
    if item.data.Some? && item.data.value != [] then
      match ResolveEntry(item.data.value)
      case Some((detail, documentation)) => item.(detail := Some(detail), documentation := Some(documentation))
      case None => item
    else item
  }

  /** Resolving twice is resolving once. */
  lemma ResolveIdempotent(item: CompletionItem)
    ensures Resolve(Resolve(item)) == Resolve(item)
  {
  }

  /** Each of the five instruction items resolves to a detail naming its own label;
      `robson` and the alias items resolve to themselves. */
  lemma ResolvedCompletions(aliases: seq<Alias>, i: nat)
    requires i < |Completions(aliases)|
    ensures var item := Completions(aliases)[i];
      if i < 5 then Resolve(item).detail == Some(item.labelText) && Resolve(item).documentation.Some?
      else Resolve(item) == item
  {
    var r := Completions(aliases);
    if i < |BuiltIns| {
      assert r[i] == r[..|BuiltIns|][i] == BuiltIns[i];
    }
  }

  // ---------------------------------------------------------------------------------
  // Rename

  /** The quick fix `onCodeAction` offers: the `re.name` command on the request range. */
  datatype CodeAction = CodeAction(title: string, command: string, range: Range)

  function RenameAction(range: Range): CodeAction {
    CodeAction("Rename", "re.name", range)
  }

  /** `onCodeAction`: nothing for a document that is not open; otherwise one Rename fix
      when the first diagnostic of the request mentions camel case, and none else. */
  function CodeActions(docOpen: bool, diagnostics: seq<Diagnostic>, range: Range): (r: Option<seq<CodeAction>>)
    ensures r.None? <==> !docOpen
    ensures r.Some? ==> |r.value| <= 1
    ensures r.Some? && |r.value| == 1 <==>
      docOpen && |diagnostics| > 0 && Contains(diagnostics[0].message, "camel case")
  {
    if !docOpen then None
    else if |diagnostics| == 0 then Some([])
    else if Contains(diagnostics[0].message, "camel case") then Some([RenameAction(range)])
    else Some([])
  }

  /** A camel-case warning of the validation, first in the request, gets the fix. */
  lemma CamelWarningOffersRename(text: string, settings: Settings, m: Match, rest: seq<Diagnostic>, range: Range)
    requires m.start <= m.end <= |text|
    ensures CodeActions(true, [MatchDiagnostic(text, settings, CamelCasePass, m)] + rest, range)
      == Some([RenameAction(range)])
  {
    var word := text[m.start..m.end];
    var message := word + " Has camel case";
    assert message[|word| + 5..|word| + 15] == "camel case";
    assert OccursAt(message, "camel case", |word| + 5);
  }

  datatype TextEdit = TextEdit(range: Range, newText: string)

  /** The edit `re.name` applies: the range's text through `lowerAlias`. */
  function RenameEdit(text: string, range: Range): (e: TextEdit)
    ensures e.range == range
    ensures WithoutUnderscores(e.newText) == WithoutUnderscores(LowerAll(GetText(text, range)))
    ensures forall i :: 0 <= i < |e.newText| ==> !IsUpper(e.newText[i])
  {
    LowerAliasOnlyMovesUnderscores(GetText(text, range));
    TextEdit(range, LowerAlias(GetText(text, range)))
  }

  /** `onExecuteCommand`: `re.name` with a document that is open (`text`) and a range
      yields the rename edit; any other command, or missing arguments, does nothing. */
  function ExecuteCommand(command: string, text: Option<string>, range: Option<Range>): (r: Option<TextEdit>)
    ensures r.Some? <==> command == "re.name" && text.Some? && range.Some?
    ensures r.Some? ==> r.value.range == range.value
  {
    if command == "re.name" && text.Some? && range.Some? then Some(RenameEdit(text.value, range.value))
    else None
  }

  /** The note of a camel-case warning suggests exactly the text that `re.name` writes
      over the warning's range. */
  lemma CamelNoteSuggestsRename(text: string, settings: Settings, m: Match)
    requires m.start <= m.end <= |text| && settings.related
    ensures var d := MatchDiagnostic(text, settings, CamelCasePass, m);
      d.related.Some? && d.related.value.range == d.range
      && d.related.value.message == "Write it as " + RenameEdit(text, d.range).newText
  {
    GetTextOfRange(text, m.start, m.end);
  }

  /** The replacement text has no camel case left for the validation to flag. */
  lemma RenamedTextHasNoCamelCase(text: string, range: Range, p: nat)
    requires p <= |RenameEdit(text, range).newText|
    ensures CamelCaseAt(RenameEdit(text, range).newText, p).None?
  {
    CamelCaseNeedsUpper(RenameEdit(text, range).newText, p);
  }
}
