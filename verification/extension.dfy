/** The pure part of the editor extension (src/extension.ts): the opcode of an
    instruction line, the opcode names, the file name shown for a task, and the
    inlay hints that name each instruction. */
module Extension {
  import opened Options
  import opened Strings
  import opened Positions
  import opened Patterns

  /** A token that counts towards the opcode: `token.trim() === "robson"`. */
  predicate IsRobson(token: string) {
    Trim(token) == "robson"
  }

  /** The `for … of` loop over the tokens: each token that trims to `robson` adds one to
      `opcode`; the first other token sets it to -1 and ends the loop. */
  function CountRobson(tokens: seq<string>, opcode: int): (r: int)
    ensures r == -1 || r == opcode + |tokens|
    decreases |tokens|
  {
    if |tokens| == 0 then opcode
    else if IsRobson(tokens[0]) then CountRobson(tokens[1..], opcode + 1)
    else -1
  }

  /** From a non-negative start the loop adds the token count exactly when every token is
      `robson`. */
  lemma {:induction false} CountRobsonAll(tokens: seq<string>, opcode: int)
    requires opcode >= 0
    ensures CountRobson(tokens, opcode) == opcode + |tokens| <==>
              forall i :: 0 <= i < |tokens| ==> IsRobson(tokens[i])
    decreases |tokens|
  {
    if |tokens| > 0 && IsRobson(tokens[0]) {
      CountRobsonAll(tokens[1..], opcode + 1);
      assert forall i :: 1 <= i < |tokens| ==> tokens[i] == tokens[1..][i - 1];
    }
  }

  /** The tokens `getOpcode` inspects: the part before the first `;`, trimmed, split on
      single spaces. */
  function OpcodeTokens(line: string): seq<string> {
    Split(Trim(Split(line, ';')[0]), ' ')
  }

  /** `getOpcode`: the number of tokens when every one of them is `robson`, and -1
      otherwise. Splitting always yields a token, so 0 never comes out. */
  function GetOpcode(line: string): (r: int)
    ensures r == -1 || r >= 1
  {
    CountRobson(OpcodeTokens(line), 0)
  }

  /** The opcode is positive exactly when every token is `robson`, and it then counts them. */
  lemma GetOpcodeCountsRobson(line: string)
    ensures GetOpcode(line) >= 1 <==> forall i :: 0 <= i < |OpcodeTokens(line)| ==> IsRobson(OpcodeTokens(line)[i])
    ensures GetOpcode(line) >= 1 ==> GetOpcode(line) == |OpcodeTokens(line)|
  {
    CountRobsonAll(OpcodeTokens(line), 0);
  }

  /** `k` copies of `w` separated by single spaces. */
  function Repeated(w: string, k: nat): (s: string)
    requires k >= 1
  {
    if k == 1 then w else w + " " + Repeated(w, k - 1)
  }

  /** Splitting `k` space-separated copies of a word without spaces gives them back. */
  lemma {:induction false} SplitRepeated(w: string, k: nat)
    requires k >= 1 && ' ' !in w
    ensures |Split(Repeated(w, k), ' ')| == k
    ensures forall i :: 0 <= i < k ==> Split(Repeated(w, k), ' ')[i] == w
  {
    if k > 1 {
      SplitRepeated(w, k - 1);
      SplitRepeatedStep(w, k);
    } else {
      SplitWithout(w, ' ');
    }
  }

  lemma SplitRepeatedStep(w: string, k: nat)
    requires k > 1 && ' ' !in w
    ensures Split(Repeated(w, k), ' ') == [w] + Split(Repeated(w, k - 1), ' ')
  {
    SplitAfterFirst(w, ' ', Repeated(w, k - 1));
    assert Repeated(w, k) == w + [' '] + Repeated(w, k - 1);
  }

  /** The copies fill the text from its first character to its last, and only spaces are
      added between them. */
  lemma {:induction false} RepeatedShape(w: string, k: nat)
    requires k >= 1 && w != []
    ensures var s := Repeated(w, k); |s| >= |w| && s[0] == w[0] && s[|s| - 1] == w[|w| - 1]
    ensures forall c :: c != ' ' && c !in w ==> c !in Repeated(w, k)
  {
    if k > 1 {
      RepeatedShape(w, k - 1);
      assert Repeated(w, k) == w + " " + Repeated(w, k - 1);
    }
  }

  /** `k` words `robson` separated by single spaces: the instruction with opcode `k`. */
  function RobsonWords(k: nat): string
    requires k >= 1
  {
    Repeated("robson", k)
  }

  lemma RobsonIsRobson()
    ensures IsRobson("robson")
  {
    TrimPadded([], "robson", []);
    assert [] + "robson" + [] == "robson";
  }

  /** A line of `k` words `robson`, with blank padding and an optional `;` comment,
      has opcode `k`: the comment and the padding are ignored. */
  lemma OpcodeOfInstruction(k: nat, lead: string, trail: string, comment: string)
    requires k >= 1
    requires forall i :: 0 <= i < |lead| ==> IsWhitespace(lead[i])
    requires forall i :: 0 <= i < |trail| ==> IsWhitespace(trail[i])
    ensures GetOpcode(lead + RobsonWords(k) + trail) == k
    ensures GetOpcode(lead + RobsonWords(k) + trail + ";" + comment) == k
  {
    var code := lead + RobsonWords(k) + trail;
    PaddedWordsHaveNoComment(k, lead, trail);
    OpcodeIgnoresComment(code, comment);
    SplitWithout(code, ';');
    RepeatedShape("robson", k);
    TrimPadded(lead, RobsonWords(k), trail);
    OpcodeOfRobsonWords(k, code);
  }

  lemma PaddedWordsHaveNoComment(k: nat, lead: string, trail: string)
    requires k >= 1
    requires forall i :: 0 <= i < |lead| ==> IsWhitespace(lead[i])
    requires forall i :: 0 <= i < |trail| ==> IsWhitespace(trail[i])
    ensures ';' !in lead + RobsonWords(k) + trail
  {
    RepeatedShape("robson", k);
    assert ';' !in RobsonWords(k);
    assert forall i :: 0 <= i < |lead| ==> lead[i] != ';';
    assert forall i :: 0 <= i < |trail| ==> trail[i] != ';';
  }

  /** A line whose code part trims to `k` words `robson` has opcode `k`. */
  lemma OpcodeOfRobsonWords(k: nat, line: string)
    requires k >= 1 && Trim(Split(line, ';')[0]) == RobsonWords(k)
    ensures GetOpcode(line) == k
  {
    SplitRepeated("robson", k);
    RobsonIsRobson();
    GetOpcodeCountsRobson(line);
  }

  /** Text after the first `;` never changes the opcode. */
  lemma OpcodeIgnoresComment(code: string, comment: string)
    requires ';' !in code
    ensures GetOpcode(code + ";" + comment) == GetOpcode(code)
  {
    SplitWithout(code, ';');
    SplitAfterFirst(code, ';', comment);
    assert code + ";" + comment == code + [';'] + comment;
  }

  /** Two spaces in a row leave an empty token, which is not `robson`, so the line is
      not an instruction. */
  lemma DoubleSpaceIsInvalid(k: nat)
    requires k >= 1
    ensures GetOpcode("robson" + "  " + RobsonWords(k)) == -1
  {
    var line := "robson" + "  " + RobsonWords(k);
    RepeatedShape("robson", k);
    assert ';' !in line;
    assert line[0] == 'r' && line[|line| - 1] == 'n';
    TokensOfBareCode(line);
    DoubleSpaceTokens(k);
    EmptyIsNotRobson();
    OpcodeWithStrayToken(line, 1);
  }

  /** A line with no comment and no padding is split as it stands. */
  lemma TokensOfBareCode(line: string)
    requires ';' !in line && line != [] && !IsWhitespace(line[0]) && !IsWhitespace(line[|line| - 1])
    ensures OpcodeTokens(line) == Split(line, ' ')
  {
    SplitWithout(line, ';');
    TrimPadded([], line, []);
    assert [] + line + [] == line;
  }

  lemma EmptyIsNotRobson()
    ensures !IsRobson([])
  {
    assert Trim([]) == [];
  }

  /** One token that is not `robson` makes the opcode -1. */
  lemma OpcodeWithStrayToken(line: string, i: nat)
    requires i < |OpcodeTokens(line)| && !IsRobson(OpcodeTokens(line)[i])
    ensures GetOpcode(line) == -1
  {
    GetOpcodeCountsRobson(line);
  }

  lemma DoubleSpaceTokens(k: nat)
    requires k >= 1
    ensures Split("robson" + "  " + RobsonWords(k), ' ')[1] == []
  {
    var rest := RobsonWords(k);
    assert "robson" + "  " + rest == "robson" + [' '] + ([] + [' '] + rest);
    SplitAfterFirst("robson", ' ', [] + [' '] + rest);
    SplitAfterFirst([], ' ', rest);
  }

  /** `labels`: the name shown for each opcode. */
  function Label(opcode: int): (name: string)
    requires 1 <= opcode <= 12
    ensures name != []
  {
    match opcode
    case 1 => "operation"
    case 2 => "if lower"
    case 3 => "push"
    case 4 => "if equal"
    case 5 => "vstack"
    case 6 => "input"
    case 7 => "print"
    case 8 => "pnumber"
    case 9 => "jump"
    case 10 => "set"
    case 11 => "pop"
    case _ => "load"
  }

  /** `getFileName`: the last `/`-separated piece when the path has more `/` than `\`,
      and otherwise the last `\`-separated piece (so a path with neither comes back
      whole). The result is a suffix of the path and holds no separator of the kind
      chosen. (The source's `splited.length === 0` case cannot arise: `split` always
      yields a piece.) */
  function GetFileName(path: string): (r: string)
    ensures IsSuffix(r, path)
    ensures '/' !in path && '\\' !in path ==> r == path
    ensures var c := if Count(path, '/') > Count(path, '\\') then '/' else '\\';
      c !in r && (|r| < |path| ==> path[|path| - |r| - 1] == c)
  {
    var splited := Split(path, '/');
    var windowsSplited := Split(path, '\\');
    var c := if |splited| > |windowsSplited| then '/' else '\\';
    LastPiece(path, c)
  }

  /** The last piece of `path.split(c)`: a suffix with no `c`, preceded by `c` unless it
      is the whole path. */
  function LastPiece(path: string, c: char): (r: string)
    ensures IsSuffix(r, path) && c !in r
    ensures |r| < |path| ==> path[|path| - |r| - 1] == c
    ensures c !in path ==> r == path
  {
    SplitLast(path, c);
    Split(path, c)[|Split(path, c)| - 1]
  }

  /** An inlay hint: the opcode's name shown at a position. */
  datatype InlayHint = InlayHint(labelText: string, position: Position)

  /** The hint for one command line, when its opcode has a name: placed after the
      line's leading spaces. */
  function HintFor(text: string, m: Match): Option<InlayHint>
    requires m.start <= m.end <= |text|
  {
    var opcode := GetOpcode(text[m.start..m.end]);
    if opcode < 1 || opcode > 12 then None
    else Some(InlayHint(Label(opcode), PositionAt(text, m.start + LeadingSpaces(text[m.start..m.end]))))
  }

  /** The `n_for_robson` loop: the number of leading spaces. */
  function LeadingSpaces(s: string): (n: nat)
    ensures n <= |s| && (forall i :: 0 <= i < n ==> s[i] == ' ') && (n < |s| ==> s[n] != ' ')
  {
    if |s| > 0 && s[0] == ' ' then 1 + LeadingSpaces(s[1..]) else 0
  }

  /** The hint of each line of `ms`, in order. */
  function LineHints(text: string, ms: seq<Match>): (r: seq<Option<InlayHint>>)
    requires forall i :: 0 <= i < |ms| ==> ms[i].start <= ms[i].end <= |text|
    ensures |r| == |ms| && forall i :: 0 <= i < |ms| ==> r[i] == HintFor(text, ms[i])
  {
    seq(|ms|, i requires 0 <= i < |ms| => HintFor(text, ms[i]))
  }

  /** `provideInlayHints`: the hints of the command lines, in document order. */
  function InlayHints(text: string): (r: seq<InlayHint>)
    ensures |r| <= |Matches(Command, text, 0)|
  {
    Present(LineHints(text, Matches(Command, text, 0)))
  }

  /** Hint `h` names the opcode of line `m`, placed after the line's leading spaces. */
  ghost predicate NamesLine(text: string, m: Match, h: InlayHint) {
    && m.start <= m.end <= |text|
    && var line := text[m.start..m.end];
    && 1 <= GetOpcode(line) <= 12
    && h.labelText == Label(GetOpcode(line))
    && h.position == PositionAt(text, m.start + LeadingSpaces(line))
  }

  /** Hint `h` names the opcode of command line `m` and sits on its first `robson`. */
  ghost predicate NamesCommandLine(text: string, m: Match, h: InlayHint) {
    && NamesLine(text, m, h)
    && OccursAt(text, "robson", m.start + LeadingSpaces(text[m.start..m.end]))
  }

  /** Every hint names the opcode of a command line, placed on that line's first
      `robson`; and every command line whose opcode is 1 to 12 gets its hint. */
  lemma InlayHintsNameCommands(text: string, h: InlayHint)
    ensures h in InlayHints(text) <==> exists m :: m in Matches(Command, text, 0) && NamesCommandLine(text, m, h)
  {
    if h in InlayHints(text) {
      InlayHintSound(text, h);
    }
    if m :| m in Matches(Command, text, 0) && NamesCommandLine(text, m, h) {
      InlayHintComplete(text, m, h);
    }
  }

  lemma InlayHintSound(text: string, h: InlayHint)
    requires h in InlayHints(text)
    ensures exists m :: m in Matches(Command, text, 0) && NamesCommandLine(text, m, h)
  {
    var ms := Matches(Command, text, 0);
    var lines := LineHints(text, ms);
    PresentMembers(lines, h);
    var i :| 0 <= i < |ms| && lines[i] == Some(h);
    var m := ms[i];
    MatchesAreMatches(Command, text, 0, i);
    CommandHintOnRobson(text, m);
    HintForNamesLine(text, m, h);
    assert m in ms && NamesCommandLine(text, m, h);
  }

  lemma InlayHintComplete(text: string, m: Match, h: InlayHint)
    requires m in Matches(Command, text, 0) && NamesCommandLine(text, m, h)
    ensures h in InlayHints(text)
  {
    var ms := Matches(Command, text, 0);
    var lines := LineHints(text, ms);
    var i :| 0 <= i < |ms| && ms[i] == m;
    MatchesAreMatches(Command, text, 0, i);
    CommandHintOnRobson(text, m);
    HintForNamesLine(text, m, h);
    assert lines[i] == Some(h);
    PresentMembers(lines, h);
  }

  /** The hint of a line is exactly the one naming it. */
  lemma HintForNamesLine(text: string, m: Match, h: InlayHint)
    requires m.start <= m.end <= |text|
    ensures HintFor(text, m) == Some(h) <==> NamesLine(text, m, h)
  {
  }

  /** The leading spaces of a command line lead to its first `robson`. */
  lemma CommandHintOnRobson(text: string, m: Match)
    requires IsMatch(Command, text, m)
    ensures m.start <= m.end <= |text|
    ensures OccursAt(text, "robson", m.start + LeadingSpaces(text[m.start..m.end]))
  {
    var k := SpacesEnd(text, m.start);
    var line := text[m.start..m.end];
    var n := LeadingSpaces(line);
    assert m.end >= k + 6;
    assert forall i :: 0 <= i < k - m.start ==> line[i] == ' ';
    assert OccursAt(text, "robson", k) && text[k..k + 6][0] == text[k];
    assert line[k - m.start] == text[k] == 'r';
    assert n == k - m.start;
  }
}
