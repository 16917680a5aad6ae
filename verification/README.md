# Robson language server: analysis core

This is a Dafny model of the analysis engine behind the Robson language extension. Robson
is a small assembly-like language. Each instruction is a line of `robson` words, and
the number of words is the opcode. Parameter lines follow the instruction. Aliases
are declared as `name:` and used as `:name`.

The model covers four parts.

- String helpers:
  - `lowerAlias`, the camelCase to snake_case rewrite;
  - `getOpcode`, which counts the `robson` words of a line;
  - `getFileName`;
  - the table of opcode names.
- The alias symbol table (`updateAliases`) in its two versions:
  - the budgeted one in `server/src/validations.ts`;
  - the older unbudgeted one in `server/src/server.ts`.
- The budgeted diagnostic passes of `validateTextDocument`. They check camel-case
  names, the literal arguments of `lambeu`, `comeu`, `fudeu`, `penetrou` and
  `chupou`, missing parameter lines, and unknown keywords. All of them share one
  `{max, current}` problem counter.
- The editor queries:
  - go-to-definition;
  - the completion list and completion resolve;
  - the "Rename" code action and its `re.name` edit;
  - inlay hints that name each instruction's opcode.

Each regular expression of the source is a hand-written matcher, `Patterns.MatchAt`.
A `/g` `exec` loop is the list of successive leftmost matches (`Patterns.Matches`).
Each pass turns every match into a step (push a diagnostic, `continue` or `break`).
`Validations.GatedScan` then folds the steps over the run. The run is the problem
counter plus the diagnostics pushed so far, threaded through explicitly.

Positions follow `positionAt`, `offsetAt` and `getText(range)` of the text-document
library, with `'\n'` as the only line break (module `Positions`).

Files, one module each:

- `options.dfy`: `Option`.
- `strings.dfy`: character classes, `split`, `trim`, `replace` of the first occurrence.
- `positions.dfy`: positions and ranges.
- `utils.dfy`: `removeComments` and `lowerAlias`.
- `patterns.dfy`: the matchers.
- `diagnostics.dfy`: diagnostics and the problem budget.
- `extension.dfy`: the client-side helpers and inlay hints.
- `aliases.dfy`: both `updateAliases`.
- `validations.dfy`: the budgeted passes.
- `server.dfy`: the older validation and the queries.

## Model

| member | source | states |
|---|---|---|
| Utils.LowerAlias | server/src/utils.ts:1-13 | The result has no upper-case ASCII letter. Its length is the input length plus the upper-case count, minus at most two stripped underscores. Input with no upper-case letter that starts with neither `_` nor `:_` comes back unchanged. |
| Utils.Snake | server/src/utils.ts:2 | Each upper-case letter becomes `_` and its lower case: the length grows by the upper-case count, and no upper-case letter is left. |
| Utils.SnakeOnlyAddsUnderscores | server/src/utils.ts:2 | Apart from underscores, the rewrite is the lower-cased input. It adds exactly one underscore per upper-case letter. |
| Utils.LowerAliasOnlyMovesUnderscores | server/src/utils.ts:2-11 | Apart from underscores, `lowerAlias` is the lower-cased input: the slicing steps only ever drop an underscore. |
| Utils.SnakeAppend | server/src/utils.ts:2 | The global replace works letter by letter, so it distributes over concatenation. |
| Utils.LowerAliasExamples | server/src/utils.ts:2-11 | `fooBar`, `FooBar`, `:fooBar` and `:FooBar` all give `foo_bar` (with the `:` kept). `__x` gives `_x`: only one leading underscore is dropped. `_FooBar` gives `_foo_bar`. |
| Utils.LowerAliasOfUnderscores | server/src/utils.ts:3-5 | `lowerAlias("__x") == "_x"`: one leading underscore is dropped, not all. |
| Utils.RemoveComments | server/src/validations.ts:7 | The result is the prefix of the line before its first `;`: a prefix with no `;`, ending at a `;` or at the end. |
| Utils.RemoveCommentsAt | server/src/validations.ts:180-187 | With the first `;` at index `f`, the code part is exactly the first `f` characters. |
| Extension.GetOpcode | src/extension.ts:21-37 | The opcode is -1 or at least 1. It is never 0, because splitting always yields a token. |
| Extension.CountRobsonAll | src/extension.ts:28-35 | The counting loop reaches `opcode + tokens` exactly when every token, trimmed, is `robson`. |
| Extension.GetOpcodeCountsRobson | src/extension.ts:21-37 | The opcode is positive exactly when every token of the trimmed code part is `robson`, and it is then the token count. |
| Extension.OpcodeOfInstruction | src/extension.ts:23-35 | `k` words `robson` joined by single spaces, padded with whitespace and optionally followed by a `;` comment, have opcode `k`. |
| Extension.OpcodeIgnoresComment | src/extension.ts:23-26 | Everything after the first `;` is ignored. |
| Extension.DoubleSpaceIsInvalid | src/extension.ts:27-33 | Two spaces between `robson` words give an empty token, so the opcode is -1. |
| Extension.DoubleSpaceTokens | src/extension.ts:27 | Splitting `robson` followed by two spaces yields an empty second token. |
| Extension.OpcodeWithStrayToken | src/extension.ts:29-33 | Any token other than `robson` makes the opcode -1. |
| Extension.Label | src/extension.ts:39-52 | Every opcode 1..12 has a non-empty name. |
| Extension.GetFileName | src/extension.ts:7-19 | The result is a suffix of the path. The separator is `/` when the path has more `/` than `\` (ties go to `\`). The result holds no separator of that kind and follows one unless it is the whole path. A path with neither separator comes back unchanged. |
| Extension.InlayHintsNameCommands | src/extension.ts:101-131 | A hint is produced exactly when some command-line match has an opcode in 1..12. Its label is that opcode's name and its position is the match start plus the leading spaces. |
| Extension.InlayHintSound | src/extension.ts:107-129 | Every hint comes from a command match whose opcode is named. |
| Extension.InlayHintComplete | src/extension.ts:107-129 | Every command match with a named opcode yields its hint. |
| Extension.CommandHintOnRobson | src/extension.ts:101-122 | A command match's hint is placed where the first `robson` begins. |
| Extension.InlayHints | src/extension.ts:107-131 | There are no more hints than command matches. |
| Patterns.NextMatch | server/src/validations.ts:36 | One `exec` from `lastIndex`: a match of the pattern at or after the cursor, with no match anywhere between the cursor and it; none means no match from the cursor on. |
| Patterns.Matches | server/src/validations.ts:36 | The loop's matches lie in the text, in text order and without overlap. An empty list means the pattern matches nowhere from the cursor on. Otherwise no match starts before the first entry. |
| Patterns.MatchesAreLeftmost | server/src/validations.ts:36 | Between two consecutive matches the pattern matches nowhere: each search resumes where the previous match ended. |
| Patterns.MatchesAreMatches | server/src/validations.ts:36 | Every entry of the loop's list is a match of the pattern at its start. |
| Patterns.TransitionPrefixIffBothCases | server/src/validations.ts:74 | On a word of letters and digits, the camel-case alternation matches exactly when the word has both a lower-case and an upper-case letter. |
| Patterns.CamelCaseNeedsUpper | server/src/validations.ts:74 | Text without upper-case letters has no camel-case match. |
| Patterns.CamelCaseMatch | server/src/validations.ts:74 | A camel-case match holds a lower-case and an upper-case letter. It is a whole run of letters and digits starting with a letter, with `:` just before it or just after it. |
| Patterns.LambeuMatch | server/src/validations.ts:121 | A `lambeu` match starts and ends at word boundaries. After optional spaces it has `lambeu `, then a character other than `:`. It stays on one line and ends at the last boundary of that line. |
| Patterns.ComeuMatch | server/src/validations.ts:133 | A `comeu` match is the rest of a line whose first non-space text is `comeu `. |
| Patterns.ComeuArgument | server/src/validations.ts:133 | A line of spaces, `comeu ` and an argument is rejected exactly when the argument does not start with a digit, with `f` or `i` then a digit, or with `i-` then a digit. The match runs to the end of the argument's line. |
| Patterns.UnsignedKeywordAt | server/src/validations.ts:144 | The keyword group is `fudeu`, `penetrou` or `chupou` followed by a space; none means no such keyword there. |
| Patterns.UnsignedArgumentMatch | server/src/validations.ts:144 | An unsigned-argument match is the rest of a line whose first non-space text is `fudeu`, `penetrou` or `chupou` and a space. |
| Patterns.UnsignedArgument | server/src/validations.ts:144 | A line of spaces, one of the three keywords, a space and an argument is rejected exactly when the argument does not start with a digit. The match runs to the end of the argument's line. |
| Patterns.CommandMatch | server/src/validations.ts:32 | A command matches exactly at a line start whose first non-space text is `robson`, and the match is that whole line. |
| Patterns.UnknownKeywordMatch | server/src/validations.ts:104 | An unknown-keyword match is a whole line. After its spaces it starts with none of the six keywords, no `;` and no `\n`. |
| Patterns.KeywordLineIsKnown | server/src/validations.ts:104 | A line that starts, after spaces, with `robson`, `comeu`, `fudeu`, `penetrou`, `chupou` or `lambeu` is never an unknown keyword. |
| Patterns.DeclarationMatch | server/src/validations.ts:172 | A declaration matches exactly where word characters run up to a `:`, and it ends just after that `:`. |
| Patterns.UsageMatch | server/src/validations.ts:218 | A usage match is word characters, a `:`, then a whole non-empty run of word characters. |
| Diagnostics.Problems.Room | server/src/validations.ts:10-13 | The remaining budget is zero exactly when `current < max` fails. Otherwise pushing that many diagnostics brings `current` to `max`. |
| Diagnostics.Run.ReportAll | server/src/validations.ts:241-256 | Pushing a list of diagnostics one at a time appends the list and raises `current` by its length. |
| Diagnostics.ExtendsTransitive | server/src/validations.ts:17-25 | Runs that only append, with one increment per push, compose. |
| Validations.GatedScan | server/src/validations.ts:31-168 | A gated loop only appends diagnostics and counts each one. Once the budget is spent it changes nothing, and it never takes `current` past `max`. |
| Validations.GatedScanTakesRoom | server/src/validations.ts:31-168 | The gated loop pushes exactly the first `max - current` diagnostics the ungated loop would. The budget truncates and changes nothing else. |
| Validations.EmissionsUntilStop | server/src/validations.ts:107-118 | When the first `n` iterations push and the next one breaks, the unbudgeted loop pushes exactly those `n` diagnostics. |
| Validations.GatedScanUntilStop | server/src/validations.ts:31-168 | The budgeted loop then pushes the first `min(n, room)` of them, in order, after the diagnostics already there. |
| Validations.ReportsFirstMatches | server/src/validations.ts:73-168 | The camel-case, `lambeu`, `comeu` and unsigned loops report the first `min(matches, room)` matches, in order, each with its own diagnostic. Earlier diagnostics are untouched. |
| Validations.MatchDiagnostic | server/src/validations.ts:73-165 | Camel case: a warning `<word> Has camel case` from `ex`, with related information exactly when supported: `Write it as <lowerAlias(word)>` on the warning's own range. `lambeu`: the error `Invalid alias for lambeu`. `comeu`: `Invalid number for comeu`. The unsigned loop: `Invalid number for` one of the three keywords. Each sits on the match's range. |
| Validations.KeywordReport | server/src/validations.ts:107-118 | The unknown-keyword error sits on the matched line and says `Unknown keyword `, the line, then a comma. |
| Validations.KeywordPassReportsUntilBlank | server/src/validations.ts:104-118 | The unknown-keyword loop reports every matched line before the first blank one, as many as the budget allows, in order. Each report is that line's error. |
| Validations.CommandStepReportsFirstBlank | server/src/validations.ts:39-65 | For an opcode in 1..12, the command loop reports one "Missing parameters" error. It sits on the first blank line among the next `paramsCount` lines, and its message says `needs paramsCount given k`, where `k` is the number of lines before that one. |
| Validations.CommandStepSkips | server/src/validations.ts:39-70 | An opcode outside 1..12, or a command whose parameter lines are all present, reports nothing. |
| Validations.FirstBlankIs | server/src/validations.ts:45-65 | The first blank parameter line is the one before which no line is blank. |
| Validations.KeywordsStopAtCarriageReturnLine | server/src/validations.ts:104-110 | A document starting with `\r\n` reports no unknown keyword. The first match is the empty text before the `\r`, so the loop breaks at once. |
| Validations.UnsignedName | server/src/validations.ts:148-157 | The reported name is always one of the three keywords. |
| Validations.UnsignedNameNamesKeyword | server/src/validations.ts:149-157 | The name is the keyword of the match, unless an earlier keyword in the order fudeu, penetrou, chupou occurs in the matched line. |
| Validations.UnsignedNameFavoursEarlierKeyword | server/src/validations.ts:151-157 | A `chupou` line whose argument mentions `fudeu` is reported as `fudeu`. |
| Validations.UnsignedMessageNamesKeyword | server/src/validations.ts:144-157 | The unsigned error says `Invalid number for <keyword>` for the line's keyword, unless an earlier one of fudeu, penetrou, chupou occurs in the match. |
| Validations.RunPass | server/src/validations.ts:31-168 | Each pass only appends, counts each push, and leaves `current <= max` whenever it started below `max`. |
| Validations.ValidateParams | server/src/validations.ts:120-168 | The three literal loops together keep the same budget guarantees. |
| Validations.ValidateTextDocument | server/src/validations.ts:15-26 | Starting from `current == 0`, `current` equals the number of diagnostics. The gated loops push at most `max(maxNumberOfProblems, 0)` of them, and the ungated alias loops add at most one per usage and one per declared name. |
| Validations.WithoutBudgetEveryUsageIsUndeclared | server/src/validations.ts:171-245 | With `maxNumberOfProblems <= 0` the table stays empty, and every usage is reported as "Using alias before declaration", and nothing else. |
| Aliases.FirstNamed | server/src/validations.ts:191 | `values.find` by name: a hit carries that name and is in the table; a miss means no entry has the name. |
| Aliases.FirstNamedAppend | server/src/validations.ts:191-214 | Pushing an entry does not change an existing hit. |
| Aliases.LineUpToMatch | server/src/validations.ts:180-186 | The text from the start of the match's line to the match end. |
| Aliases.InCodeWithoutComment | server/src/validations.ts:180-189 | A match on a line with no `;` before it is kept. |
| Aliases.InCodeAfterComment | server/src/validations.ts:180-189 | Past a `;`, a match is kept exactly when its text occurs in the code part before the `;`. |
| Aliases.DeclarationName | server/src/validations.ts:172-178 | A declaration `name:` is recorded as `name`, with no colon left; the duplicate message quotes `name:`. |
| Aliases.UsageName | server/src/validations.ts:218-222 | Only the first `:` of a usage is dropped: `x:name` is looked up as `xname`. |
| Aliases.DeclareAll | server/src/server.ts:159-187 | The unbudgeted declaration loop only appends to the run and counts each push. |
| Aliases.DeclareGated | server/src/validations.ts:176-215 | The budgeted declaration loop only appends, and never takes `current` past `max`. |
| Aliases.DeclareAllFirstWins | server/src/validations.ts:191-214 | Each name is recorded at its first declaration. Every later one yields one "Duplicated alias" error, which points at the first declaration when related information is supported. |
| Aliases.DeclarationsFirstWins | server/src/server.ts:159-187 | The table has distinct names, and each name's entry is its first declaration. It holds nothing else, and the errors are exactly the duplicates. |
| Aliases.DeclaredNameTabled | server/src/server.ts:159-187 | Every declared name has a table entry. |
| Aliases.OnlyEntryNamed | server/src/validations.ts:191 | In a table of distinct names, lookup by an entry's name returns that entry. |
| Aliases.DeclareGatedIsPrefix | server/src/validations.ts:176 | The budgeted loop handles some prefix of the declarations exactly as the unbudgeted loop would. When it stops early, the budget is spent. |
| Aliases.DeclareGatedWithRoom | server/src/validations.ts:176 | If the budget is not spent at the end, every declaration was handled. |
| Aliases.DeclareGatedDistinct | server/src/validations.ts:191-214 | The budgeted table has distinct names. |
| Aliases.UndeclaredErrorsExactly | server/src/validations.ts:235-243 | An undeclared-usage error is reported exactly for each usage whose name has no declaration. |
| Aliases.UnusedWarningsExactly | server/src/validations.ts:247-258 | A "This alias is never used" warning is reported, at the declaration's range, exactly for each declaration with no usage of that name. |
| Aliases.UndeclaredErrorsCount | server/src/validations.ts:235-243 | There are exactly as many undeclared-usage errors as usages whose name has no declaration: one each. |
| Aliases.UnusedWarningsCount | server/src/validations.ts:247-258 | There are exactly as many unused-alias warnings as declarations no usage names: one each. |
| Aliases.UndeclaredErrorsWithoutTable | server/src/validations.ts:235-243 | With an empty table every usage gets its error, in order. |
| Aliases.UpdateAliases | server/src/validations.ts:171-261 | The table has distinct names. The run only appends and counts every push. `current` ends at most `max` (or where it was) plus one per usage and one per declaration. |
| Aliases.UpdateAliasesAdds | server/src/validations.ts:171-261 | The table is the declarations and the usages are the matches in code. After the declaration errors, a diagnostic is added exactly when it is the error of an undeclared usage or the warning of an unused declaration. There is one error per undeclared usage, and all of them come before the one warning per unused declaration. |
| Aliases.LegacyUpdateAliases | server/src/server.ts:154-212 | The older version keeps distinct names, and it starts from a count that matches its diagnostics. |
| Aliases.LegacyUpdateAliasesReports | server/src/server.ts:154-212 | The older version has first-wins lookup and records every usage. Its diagnostics are the duplicates, then the undeclared usages, with no comment filter and no unused warning. |
| Server.LegacyValidate | server/src/server.ts:214-270 | The camel-case and `lambeu` loops push at most `max(maxNumberOfProblems, 0)` diagnostics, counted once each. The alias diagnostics of the older `updateAliases` follow them, uncounted. |
| Server.LegacyAliasesIgnoreBudget | server/src/server.ts:214-266 | With no budget, the older validation still reports every duplicate and every undeclared usage. |
| Server.LastCovering | server/src/server.ts:285-292 | The selected usage is on the cursor line with `start <= character <= end`, and no later usage qualifies. |
| Server.SelectFromIsLast | server/src/server.ts:285-292 | The selection loop ends with the last usage that covers the cursor. |
| Server.Definition | server/src/server.ts:277-303 | A definition is only given for an open document, and it is the range of some declaration. |
| Server.DefinitionOfLastUsage | server/src/server.ts:283-302 | The result is the range of the first declaration named like the last covering usage. It is nothing when no usage covers the cursor or no declaration has the name. |
| Server.DefinitionOfDeclaredName | server/src/server.ts:283-302 | When the last covering usage has a declaration, that declaration's range is returned. |
| Server.Completions | server/src/server.ts:312-351 | The six built-ins, in order, then one `Function` item per declared alias, in declaration order. |
| Server.CompletionsOfferDeclaredNames | server/src/server.ts:312-351 | A `Function` item with a given label is offered exactly when an alias of that name is declared. |
| Server.DeclaredNameOffered | server/src/server.ts:312-351 | Every declared name is offered as a `Function` item. |
| Server.OfferedNameDeclared | server/src/server.ts:312-351 | Every offered `Function` item names a declared alias. |
| Server.BuiltInsAreNotFunctions | server/src/server.ts:319-349 | None of the built-ins is of kind `Function`. |
| Server.LegacyCompletionsOfferEveryDeclaration | server/src/server.ts:312-351 | Every declaration found by the unbudgeted scan is offered as a completion. |
| Server.Resolve | server/src/server.ts:357-388 | Data `b1` to `b5` sets the detail to `comeu`, `fudeu`, `penetrou`, `chupou` or `lambeu` with that keyword's documentation. Any other data, or none, leaves the item unchanged. Label, kind and data never change. |
| Server.ResolveIdempotent | server/src/server.ts:381-386 | Resolving twice gives the same item as resolving once. |
| Server.ResolvedCompletions | server/src/server.ts:319-386 | The first five built-ins resolve to their own keyword as detail, with documentation. `robson` (`b6`) and the alias items are left unchanged. |
| Server.CodeActions | server/src/server.ts:391-406 | No document gives nothing. Otherwise at most one action is offered, and a "Rename" is offered exactly when the first diagnostic's message contains `camel case`. |
| Server.CamelWarningOffersRename | server/src/server.ts:396-404 | A camel-case warning in first place yields the "Rename" action. |
| Server.RenameEdit | server/src/server.ts:423-432 | `re.name` replaces the range. The new text has no upper-case letter and, apart from underscores, is the old text in lower case. |
| Server.CamelNoteSuggestsRename | server/src/validations.ts:86-95 | The note on a camel-case warning points at the warning's range and suggests exactly the text the `re.name` edit writes there. |
| Server.ExecuteCommand | server/src/server.ts:408-449 | An edit is produced exactly for `re.name` with a document and a range, and it targets that range. |
| Server.RenamedTextHasNoCamelCase | server/src/server.ts:423-432 | Renamed text has no camel-case match left. |
| Positions.PositionAt | server/src/validations.ts:262-267 | `offsetAt(positionAt(o))` is `o`, clamped to the text. |
| Positions.PositionAtOffsetAt | server/src/validations.ts:262-267 | `positionAt(offsetAt(p))` is `p` for every position inside its line. |
| Positions.GetTextOfRange | server/src/validations.ts:262-267 | `getText` of the range built from a match gives the matched text back. |
| Positions.LineStart | server/src/validations.ts:180-186 | Character 0 of a match's line is at the text start or just after a line break, at or before the match. |
| Positions.NoBreakInLine | server/src/validations.ts:180-186 | No line break lies between a line's start and any offset on it. |

## Left out

- The LSP connection, the initialisation capabilities, the settings cache and `sendDiagnostics`/`applyEdit` are I/O plumbing. `maxNumberOfProblems`, the related-information capability and whether the document is open are plain inputs.
- The alias tables that `setAliases`/`setAliasUse` and the module variables `aliases`/`aliasUse` hold between requests are passed to the queries as arguments.
- `async`/`Promise`: the passes are called without `await`, but none of them yields, so they run in call order. They are modelled as ordinary functions applied in that order.
- Extension activation, the language client, the task provider and the `console.log` calls are editor and host plumbing.
- `positionAt`, `offsetAt` and `getText(range)` belong to the text-document library. They are modelled with `'\n'` as the only line break. The library also breaks lines at `'\r'` and `'\r\n'`, so line numbers of CR-only text differ.
- Columns and offsets count characters, not UTF-16 code units, so text outside the Basic Multilingual Plane is placed differently.
- `toLocaleLowerCase` is modelled for ASCII letters only, and so are `[A-Z]`, `\w` and `\b`. `trim` uses the JavaScript whitespace set.
- General regular-expression semantics (backtracking, `lastIndex` after an empty match) are not modelled. Each pattern is a hand-written matcher for its own language. `.` and `^` treat `\n`, `\r`, U+2028 and U+2029 as line terminators. An empty match can only happen for the unknown-keyword pattern: at the end of a text that is empty or ends in a line terminator, or on an empty line ended by a terminator other than `\n`. The match list ends at the first empty match, where the loop would see it forever. The source loop breaks there anyway, because the match is blank.
- `parameterCount` and `removeComments` are imported from a version of `server/src/utils.ts` that is not part of this model. `parameterCount` is a table in the settings, and an opcode without an entry needs no parameter lines. `removeComments` is the part of a line before its first `;`. `getOpcode` and `labels` are taken from `src/extension.ts`.
- In completion resolve, an item whose data names an inherited property of a JavaScript object (`"toString"`, say) would call that property. The model treats it like any other unknown data.
- Utils.LowerAlias: the length bound allows up to two stripped underscores rather than naming which ones. The examples and `LowerAliasOnlyMovesUnderscores` pin down the rest.
- Server.Definition: its own contract only says the result is a declaration's range. The exact choice is stated by `DefinitionOfLastUsage`.
- Validations.ValidateTextDocument: the bound counts every usage and every declared name, not only the undeclared and unused ones. The exact lists are stated by `UpdateAliasesAdds`.

## Where the code and its documentation differ

The model follows the code in each of these cases:

- "Using alias before declaration" is checked against the whole declaration table, which is built before usages are scanned. A usage above its declaration is therefore accepted.
- The budgeted declaration loop stops collecting once the budget is spent, so go-to-definition and completion can miss aliases. With `maxNumberOfProblems <= 0` the table is empty, and every usage is reported as undeclared.
- The usage and unused-alias loops are not gated, so `current` can end above `max`.
- `lowerAlias("_FooBar")` is `"_foo_bar"`: one underscore is dropped from `"__foo_bar"`.
- `validateTextDocument` runs camel case, literal arguments, aliases, parameter lines and unknown keywords, in that order.
- The older validation in `server/src/server.ts` has no comment filter and no unused-alias warning. It does not count alias diagnostics against its budget, and its `lambeu` pattern allows no leading spaces.
- The unknown-keyword loop stops at the first whitespace-only line it meets, such as a line holding only `'\r'` in a CRLF document.
- The unsigned-argument loop names the keyword by `includes` on the whole matched line, with priority fudeu, then penetrou, then chupou.
- `replace(":", "")` removes only the first colon, so the usage `x:name` is looked up as `xname`.
- The unknown-keyword message quotes `match.toString()`, which appends the undefined lookahead group after a comma.
