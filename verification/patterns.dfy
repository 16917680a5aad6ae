/** The regular expressions of the analyser, each replaced by a hand-written matcher
    `MatchAt(pat, text, p)`: where the expression, tried at index `p`, ends its match
    (or `None`). `NextMatch` is one `exec` call of a global (`/g`) expression, and
    `Matches` is the sequence of matches a `while (m = pattern.exec(text))` loop sees.
    Each matcher's comment says how the expression's greedy and backtracking choices
    collapse to the one end it computes. */
module Patterns {
  import opened Options
  import opened Strings

  datatype Pattern =
    | CamelCase        // /:[A-Za-z](X)[A-Za-z0-9]*|[A-Za-z](X)[A-Za-z0-9]*:/g
    | SpacedLambeu     // /\b *lambeu [^:].*\b/g
    | Lambeu           // /\blambeu [^:].*\b/g
    | Comeu            // / *comeu (?!([0-9]|f[0-9]|i-?[0-9])).*/g
    | UnsignedArgument // / *(fudeu|penetrou|chupou) (?![0-9]).*/g
    | Command          // /^ *?robson *.*/gm
    | UnknownKeyword   // /^(?! *(robson|comeu|fudeu|penetrou|chupou|lambeu|;|\w+:|\n)).*/gm
    | Declaration      // /\w+\b:/g
    | Usage            // /\w*:\b\w+/g

  /** A match occupies `text[start..end]`. */
  datatype Match = Match(start: nat, end: nat)

  predicate CharAt(text: string, i: nat, c: char) { i < |text| && text[i] == c }
  predicate DigitAt(text: string, i: nat) { i < |text| && IsDigit(text[i]) }
  predicate WordAt(text: string, i: int) { 0 <= i < |text| && IsWordChar(text[i]) }

  /** `\b` at index `q`: exactly one of the characters around it is a word character. */
  predicate IsBoundary(text: string, q: nat) { WordAt(text, q - 1) != WordAt(text, q) }

  /** `^` in multiline mode: the start of the text or just after a line terminator. */
  predicate IsLineStart(text: string, p: nat) { p == 0 || (p <= |text| && IsLineTerminator(text[p - 1])) }

  /** `e` ends a line: it is the end of the text or holds a line terminator. */
  predicate AtLineEnd(text: string, e: nat) { e == |text| || (e < |text| && IsLineTerminator(text[e])) }

  /** `text[a..b]` lies within one line: no line terminator in it. */
  predicate WithinLine(text: string, a: nat, b: nat) {
    b <= |text| && forall k :: a <= k < b ==> !IsLineTerminator(text[k])
  }

  /** Where `.*` started at `i` stops: the next line terminator, or the end of the text. */
  function LineEnd(text: string, i: nat): (e: nat)
    requires i <= |text|
    ensures i <= e && AtLineEnd(text, e) && WithinLine(text, i, e)
  {
    RunEnd(text, i, NotLineTerminator)
  }

  /** `.*` stops at the first line end: any `e` ending a line with none before it. */
  lemma LineEndUnique(text: string, i: nat, e: nat)
    requires i <= e && AtLineEnd(text, e) && WithinLine(text, i, e)
    ensures LineEnd(text, i) == e
  {
  }

  /** `.*` started where a suffix `s` of the text begins runs as it would over `s`. */
  lemma LineEndShift(text: string, i: nat, s: string)
    requires i + |s| == |text| && text[i..] == s
    ensures LineEnd(text, i) == i + LineEnd(s, 0)
  {
    assert forall j :: 0 <= j < |s| ==> text[i + j] == s[j];
    LineEndUnique(text, i, i + LineEnd(s, 0));
  }

  /** Where ` *` started at `i` stops. */
  function SpacesEnd(text: string, i: nat): (e: nat)
    requires i <= |text|
    ensures i <= e <= |text| && WithinLine(text, i, e)
    ensures forall k :: i <= k < e ==> text[k] == ' '
    ensures e < |text| ==> text[e] != ' '
  {
    RunEnd(text, i, IsSpace)
  }

  // ---------------------------------------------------------------------------------
  // Camel case: X = [A-Z0-9]*[a-z][a-z0-9]*[A-Z]|[a-z0-9]*[A-Z][A-Z0-9]*[a-z]

  predicate HasLower(s: string) { exists k :: 0 <= k < |s| && IsLower(s[k]) }
  predicate HasUpper(s: string) { exists k :: 0 <= k < |s| && IsUpper(s[k]) }

  /** The first branch of X matches `s[..k + 1]` with its `[a-z]` at `j`. */
  predicate LowerThenUpper(s: string, j: nat, k: nat) {
    && j < k < |s|
    && (forall i :: 0 <= i < j ==> IsUpper(s[i]) || IsDigit(s[i]))
    && IsLower(s[j])
    && (forall i :: j < i < k ==> IsLower(s[i]) || IsDigit(s[i]))
    && IsUpper(s[k])
  }

  /** The second branch of X matches `s[..k + 1]` with its `[A-Z]` at `j`. */
  predicate UpperThenLower(s: string, j: nat, k: nat) {
    && j < k < |s|
    && (forall i :: 0 <= i < j ==> IsLower(s[i]) || IsDigit(s[i]))
    && IsUpper(s[j])
    && (forall i :: j < i < k ==> IsUpper(s[i]) || IsDigit(s[i]))
    && IsLower(s[k])
  }

  /** X matches some prefix of `s`. */
  ghost predicate TransitionPrefix(s: string) {
    exists j: nat, k: nat :: LowerThenUpper(s, j, k) || UpperThenLower(s, j, k)
  }

  /** Within a run of letters and digits, X matches a prefix exactly when the run holds
      both a lower-case and an upper-case letter; `CamelCaseAt` uses the latter test. */
  lemma TransitionPrefixIffBothCases(s: string)
    requires forall i :: 0 <= i < |s| ==> IsAlnum(s[i])
    ensures TransitionPrefix(s) <==> HasLower(s) && HasUpper(s)
  {
    if HasLower(s) && HasUpper(s) {
      var f := FirstLetter(s, 0);
      if IsLower(s[f]) {
        var k := FirstUpperFrom(s, f + 1);
        assert LowerThenUpper(s, f, k);
      } else {
        var k := FirstLowerFrom(s, f + 1);
        assert UpperThenLower(s, f, k);
      }
    }
  }

  /** The first letter at or after `i`. */
  function FirstLetter(s: string, i: nat): (f: nat)
    requires i <= |s| && exists k :: i <= k < |s| && IsLetter(s[k])
    ensures i <= f < |s| && IsLetter(s[f])
    ensures forall k :: i <= k < f ==> !IsLetter(s[k])
    decreases |s| - i
  {
    if IsLetter(s[i]) then i else FirstLetter(s, i + 1)
  }

  /** The first upper-case letter at or after `i`, when one exists there. */
  function FirstUpperFrom(s: string, i: nat): (f: nat)
    requires i <= |s| && exists k :: i <= k < |s| && IsUpper(s[k])
    ensures i <= f < |s| && IsUpper(s[f])
    ensures forall k :: i <= k < f ==> !IsUpper(s[k])
    decreases |s| - i
  {
    if IsUpper(s[i]) then i else FirstUpperFrom(s, i + 1)
  }

  /** The first lower-case letter at or after `i`, when one exists there. */
  function FirstLowerFrom(s: string, i: nat): (f: nat)
    requires i <= |s| && exists k :: i <= k < |s| && IsLower(s[k])
    ensures i <= f < |s| && IsLower(s[f])
    ensures forall k :: i <= k < f ==> !IsLower(s[k])
    decreases |s| - i
  {
    if IsLower(s[i]) then i else FirstLowerFrom(s, i + 1)
  }

  /** Both branches of the camel-case expression consume the whole run of letters and
      digits (X and the greedy `[A-Za-z0-9]*` cannot stop earlier), so: a `:` then a
      letter whose run after that letter has both cases; or a letter whose run after it
      has both cases and is followed by `:`. */
  function CamelCaseAt(text: string, p: nat): (r: Option<nat>)
    requires p <= |text|
    ensures r.Some? ==> p < r.value <= |text|
  {
    if CharAt(text, p, ':') then
      if p + 1 < |text| && IsLetter(text[p + 1]) then
        var e := RunEnd(text, p + 1, IsAlnum);
        if HasLower(text[p + 2..e]) && HasUpper(text[p + 2..e]) then Some(e) else None
      else None
    else if p < |text| && IsLetter(text[p]) then
      var e := RunEnd(text, p, IsAlnum);
      if HasLower(text[p + 1..e]) && HasUpper(text[p + 1..e]) && CharAt(text, e, ':') then Some(e + 1)
      else None
    else None
  }

  /** A camel-case match holds both cases and is a whole run of letters and digits,
      either preceded by `:` or followed by it. */
  lemma CamelCaseMatch(text: string, p: nat)
    requires p <= |text|
    ensures var r := CamelCaseAt(text, p);
      r.Some? ==>
        && HasLower(text[p..r.value]) && HasUpper(text[p..r.value])
        && ((text[p] == ':' && LetterRun(text, p + 1, r.value))
            || (text[r.value - 1] == ':' && LetterRun(text, p, r.value - 1)))
  {
    if CharAt(text, p, ':') && p + 1 < |text| && IsLetter(text[p + 1]) {
      WidenCases(text, p + 2, RunEnd(text, p + 1, IsAlnum), p, RunEnd(text, p + 1, IsAlnum));
    } else if p < |text| && IsLetter(text[p]) && CharAt(text, RunEnd(text, p, IsAlnum), ':') {
      WidenCases(text, p + 1, RunEnd(text, p, IsAlnum), p, RunEnd(text, p, IsAlnum) + 1);
    }
  }

  /** `text[a..b]` is a whole run of letters and digits that starts with a letter. */
  predicate LetterRun(text: string, a: nat, b: nat) {
    && a < b <= |text|
    && IsLetter(text[a])
    && (forall k :: a <= k < b ==> IsAlnum(text[k]))
    && (b == |text| || !IsAlnum(text[b]))
  }

  /** Letters of both cases in a slice are also in any slice around it. */
  lemma WidenCases(text: string, a: nat, b: nat, a': nat, b': nat)
    requires a' <= a <= b <= b' <= |text|
    ensures HasLower(text[a..b]) ==> HasLower(text[a'..b'])
    ensures HasUpper(text[a..b]) ==> HasUpper(text[a'..b'])
  {
    assert forall k :: 0 <= k < b - a ==> text[a..b][k] == text[a'..b'][k + a - a'];
  }

  /** A text without upper-case letters has no camel case anywhere. */
  lemma CamelCaseNeedsUpper(text: string, p: nat)
    requires p <= |text|
    requires forall i :: 0 <= i < |text| ==> !IsUpper(text[i])
    ensures CamelCaseAt(text, p).None?
  {
    if CharAt(text, p, ':') && p + 1 < |text| && IsLetter(text[p + 1]) {
      var e := RunEnd(text, p + 1, IsAlnum);
      NoUpperInSlice(text, p + 2, e);
    } else if p < |text| && IsLetter(text[p]) {
      var e := RunEnd(text, p, IsAlnum);
      NoUpperInSlice(text, p + 1, e);
    }
  }

  lemma NoUpperInSlice(text: string, a: nat, b: nat)
    requires a <= b <= |text|
    requires forall i :: 0 <= i < |text| ==> !IsUpper(text[i])
    ensures !HasUpper(text[a..b])
  {
    assert forall k :: 0 <= k < b - a ==> text[a..b][k] == text[a + k];
  }

  // ---------------------------------------------------------------------------------
  // lambeu with a non-alias argument

  /** The largest `q` in `[lo, hi]` with a word boundary, scanning down from `hi`. */
  function LastBoundary(text: string, lo: nat, hi: nat): (r: Option<nat>)
    requires lo <= hi <= |text|
    ensures r.Some? ==> lo <= r.value <= hi && IsBoundary(text, r.value)
    ensures r.Some? ==> forall q :: r.value < q <= hi ==> !IsBoundary(text, q)
    ensures r.None? ==> forall q :: lo <= q <= hi ==> !IsBoundary(text, q)
    decreases hi
  {
    if IsBoundary(text, hi) then Some(hi)
    else if hi == lo then None
    else LastBoundary(text, lo, hi - 1)
  }

  /** `\b *lambeu [^:].*\b` (or without ` *`): only the full run of spaces can reach
      `lambeu`; the `[^:]` character may be a line break; the greedy `.*` then gives
      back characters until a word boundary, so the match ends at the last boundary
      of the rest of that line. */
  function LambeuAt(text: string, p: nat, spaced: bool): (r: Option<nat>)
    requires p <= |text|
    ensures r.Some? ==> p < r.value <= |text|
  {
    var k := if spaced then SpacesEnd(text, p) else p;
    if IsBoundary(text, p) && OccursAt(text, "lambeu ", k) && k + 7 < |text| && text[k + 7] != ':' then
      LastBoundary(text, k + 8, LineEnd(text, k + 8))
    else None
  }

  /** A `lambeu` match starts and ends at word boundaries; after `lambeu `, a character
      other than `:`, it stays on one line, and no later boundary on that line exists. */
  lemma LambeuMatch(text: string, p: nat, spaced: bool)
    requires p <= |text|
    ensures var r := LambeuAt(text, p, spaced);
      var k := if spaced then SpacesEnd(text, p) else p;
      r.Some? ==>
        && IsBoundary(text, p) && IsBoundary(text, r.value)
        && OccursAt(text, "lambeu ", k) && k + 8 <= r.value && text[k + 7] != ':'
        && WithinLine(text, k + 8, r.value)
        && forall q :: r.value < q <= |text| && WithinLine(text, k + 8, q) ==> !IsBoundary(text, q)
  {
  }

  // ---------------------------------------------------------------------------------
  // Literal arguments

  /** The look-ahead `([0-9]|f[0-9]|i-?[0-9])` at index `a`. */
  predicate NumberLiteralStart(text: string, a: nat) {
    || DigitAt(text, a)
    || (CharAt(text, a, 'f') && DigitAt(text, a + 1))
    || (CharAt(text, a, 'i') && DigitAt(text, a + 1))
    || (CharAt(text, a, 'i') && CharAt(text, a + 1, '-') && DigitAt(text, a + 2))
  }

  /** ` *comeu (?!…).*`: a `comeu ` whose argument does not start like a number. */
  function ComeuAt(text: string, p: nat): (r: Option<nat>)
    requires p <= |text|
    ensures r.Some? ==> p < r.value <= |text|
  {
    var k := SpacesEnd(text, p);
    if OccursAt(text, "comeu ", k) && !NumberLiteralStart(text, k + 6) then Some(LineEnd(text, k + 6))
    else None
  }

  /** A `comeu` match is the rest of a line whose first non-space text is `comeu `. */
  lemma ComeuMatch(text: string, p: nat)
    requires p <= |text|
    ensures var r := ComeuAt(text, p);
      r.Some? ==>
        && OccursAt(text, "comeu ", SpacesEnd(text, p))
        && AtLineEnd(text, r.value) && WithinLine(text, p, r.value)
  {
    var k := SpacesEnd(text, p);
    if ComeuAt(text, p).Some? {
      WordWithinLine(text, "comeu ", k);
      WithinLineJoin(text, p, k, k + 6);
      WithinLineJoin(text, p, k + 6, LineEnd(text, k + 6));
    }
  }

  /** A word without line terminators occurring at `k` lies within one line. */
  lemma WordWithinLine(text: string, t: string, k: nat)
    requires OccursAt(text, t, k) && forall i :: 0 <= i < |t| ==> !IsLineTerminator(t[i])
    ensures WithinLine(text, k, k + |t|)
  {
    assert forall i :: k <= i < k + |t| ==> text[i] == t[i - k];
  }

  lemma WithinLineJoin(text: string, a: nat, b: nat, c: nat)
    requires a <= b && WithinLine(text, a, b) && WithinLine(text, b, c)
    ensures WithinLine(text, a, c)
  {
  }

  /** A line of spaces, `comeu ` and an argument is matched exactly when the argument
      starts with none of: a digit, `f` or `i` then a digit, `i-` then a digit. The
      match then runs to the end of the argument's first line. */
  lemma ComeuArgument(lead: string, arg: string)
    requires forall i :: 0 <= i < |lead| ==> lead[i] == ' '
    ensures var text := lead + "comeu " + arg;
      && (ComeuAt(text, 0).None? <==>
        || (|arg| >= 1 && IsDigit(arg[0]))
        || (|arg| >= 2 && (arg[0] == 'f' || arg[0] == 'i') && IsDigit(arg[1]))
        || (|arg| >= 3 && arg[0] == 'i' && arg[1] == '-' && IsDigit(arg[2])))
      && (ComeuAt(text, 0).Some? ==> ComeuAt(text, 0).value == |lead| + 6 + LineEnd(arg, 0))
  {
    var text := lead + "comeu " + arg;
    var k := |lead|;
    assert text[k] == 'c';
    assert SpacesEnd(text, 0) == k;
    assert text[k..k + 6] == "comeu ";
    assert text[k + 6..] == arg;
    assert forall j :: 0 <= j < |arg| ==> text[k + 6 + j] == arg[j];
    LineEndShift(text, k + 6, arg);
  }

  /** The keywords whose argument must be a plain unsigned number, in the order the
      alternation tries them. */
  const UnsignedKeywords: seq<string> := ["fudeu", "penetrou", "chupou"]

  /** The alternative of `(fudeu|penetrou|chupou) ` that matches at `k`. The three start
      with different letters, so at most one can. */
  function UnsignedKeywordAt(text: string, k: nat): (r: Option<string>)
    ensures r.Some? ==> r.value in UnsignedKeywords && OccursAt(text, r.value + " ", k)
    ensures r.None? ==> forall w :: w in UnsignedKeywords ==> !OccursAt(text, w + " ", k)
  {
    if OccursAt(text, "fudeu ", k) then Some("fudeu")
    else if OccursAt(text, "penetrou ", k) then Some("penetrou")
    else if OccursAt(text, "chupou ", k) then Some("chupou")
    else None
  }

  /** ` *` over leading spaces stops where the rest of the line begins. */
  lemma SpacesEndOfLead(lead: string, rest: string)
    requires forall i :: 0 <= i < |lead| ==> lead[i] == ' '
    requires |rest| > 0 && rest[0] != ' '
    ensures SpacesEnd(lead + rest, 0) == |lead|
  {
    var text := lead + rest;
    assert text[|lead|] == rest[0];
    assert forall i :: 0 <= i < |lead| ==> text[i] == ' ';
  }

  /** The alternative that matches is the keyword written there. */
  lemma KeywordAtIs(text: string, k: nat, w: string)
    requires w in UnsignedKeywords && OccursAt(text, w + " ", k)
    ensures UnsignedKeywordAt(text, k) == Some(w)
  {
    assert text[k] == w[0];
    if w != "fudeu" {
      assert text[k..k + 6][0] != 'f';
    }
    if w == "chupou" && k + 9 <= |text| {
      assert text[k..k + 9][0] != 'p';
    }
  }

  /** ` *(fudeu|penetrou|chupou) (?![0-9]).*`: the keyword, a space, then anything but a
      digit. */
  function UnsignedArgumentAt(text: string, p: nat): (r: Option<nat>)
    requires p <= |text|
    ensures r.Some? ==> p < r.value <= |text|
  {
    var k := SpacesEnd(text, p);
    match UnsignedKeywordAt(text, k)
    case Some(w) =>
      if !DigitAt(text, k + |w| + 1) then Some(LineEnd(text, k + |w| + 1)) else None
    case None => None
  }

  /** An unsigned-argument match is the rest of a line whose first non-space text is
      one of the three keywords and a space. */
  lemma UnsignedArgumentMatch(text: string, p: nat)
    requires p <= |text|
    ensures var r := UnsignedArgumentAt(text, p);
      r.Some? ==>
        && (exists w :: w in UnsignedKeywords && OccursAt(text, w + " ", SpacesEnd(text, p)))
        && AtLineEnd(text, r.value) && WithinLine(text, p, r.value)
  {
    var k := SpacesEnd(text, p);
    if UnsignedArgumentAt(text, p).Some? {
      var w := UnsignedKeywordAt(text, k).value;
      WordWithinLine(text, w + " ", k);
      WithinLineJoin(text, p, k, k + |w| + 1);
      WithinLineJoin(text, p, k + |w| + 1, LineEnd(text, k + |w| + 1));
    }
  }

  /** A line of spaces, `fudeu`, `penetrou` or `chupou`, a space and an argument is
      matched exactly when the argument does not start with a digit. The match then
      runs to the end of the argument's first line. */
  lemma UnsignedArgument(lead: string, w: string, arg: string)
    requires forall i :: 0 <= i < |lead| ==> lead[i] == ' '
    requires w in UnsignedKeywords
    ensures var text := lead + w + " " + arg;
      && (UnsignedArgumentAt(text, 0).None? <==> |arg| >= 1 && IsDigit(arg[0]))
      && (UnsignedArgumentAt(text, 0).Some? ==> UnsignedArgumentAt(text, 0).value == |lead| + |w| + 1 + LineEnd(arg, 0))
  {
    var text := lead + w + " " + arg;
    var k := |lead|;
    SpacesEndOfLead(lead, w + " " + arg);
    assert text == lead + (w + " " + arg);
    assert text[k..k + |w| + 1] == w + " ";
    KeywordAtIs(text, k, w);
    assert text[k + |w| + 1..] == arg;
    assert forall j :: 0 <= j < |arg| ==> text[k + |w| + 1 + j] == arg[j];
    LineEndShift(text, k + |w| + 1, arg);
  }

  // ---------------------------------------------------------------------------------
  // Whole lines

  /** `^ *?robson *.*`: a line whose first non-space text is `robson`; the match is the
      whole line. */
  function CommandAt(text: string, p: nat): (r: Option<nat>)
    requires p <= |text|
    ensures r.Some? ==> p < r.value <= |text|
  {
    var k := SpacesEnd(text, p);
    if IsLineStart(text, p) && OccursAt(text, "robson", k) then Some(LineEnd(text, k + 6)) else None
  }

  /** A command is matched exactly at the start of a line whose first non-space text
      is `robson`, and the match is that whole line. */
  lemma CommandMatch(text: string, p: nat)
    requires p <= |text|
    ensures var r := CommandAt(text, p);
      && (r.Some? <==> IsLineStart(text, p) && OccursAt(text, "robson", SpacesEnd(text, p)))
      && (r.Some? ==> AtLineEnd(text, r.value) && WithinLine(text, p, r.value))
  {
    var k := SpacesEnd(text, p);
    if CommandAt(text, p).Some? {
      WordWithinLine(text, "robson", k);
      WithinLineJoin(text, p, k, k + 6);
      WithinLineJoin(text, p, k + 6, LineEnd(text, k + 6));
    }
  }

  /** The words the unknown-keyword look-ahead accepts at the start of a line. */
  const KnownKeywords: seq<string> := ["robson", "comeu", "fudeu", "penetrou", "chupou", "lambeu"]

  /** The look-ahead alternatives `robson|…|lambeu|;|\w+:|\n` at index `k`. */
  predicate KnownLineStart(text: string, k: nat)
    requires k <= |text|
  {
    || (exists w :: w in KnownKeywords && OccursAt(text, w, k))
    || CharAt(text, k, ';')
    || DeclarationAt(text, k).Some?
    || CharAt(text, k, '\n')
  }

  /** `^(?! *(…)).*`: a line that, after its leading spaces, starts with none of the
      known forms; the match is the whole line. It is empty at the end of a text that
      is empty or ends with a line terminator, and on an empty line ended by a
      terminator other than `\n` (the `\r` of an empty line of `\r\n` text). */
  function UnknownKeywordAt(text: string, p: nat): (r: Option<nat>)
    requires p <= |text|
    ensures r.Some? ==> p <= r.value <= |text|
  {
    if IsLineStart(text, p) && !KnownLineStart(text, SpacesEnd(text, p)) then Some(LineEnd(text, p))
    else None
  }

  /** An unknown-keyword match is a whole line that, after its leading spaces, starts
      with no known keyword, no `;` and no line break. */
  lemma UnknownKeywordMatch(text: string, p: nat)
    requires p <= |text|
    ensures var r := UnknownKeywordAt(text, p);
      var k := SpacesEnd(text, p);
      r.Some? ==>
        && IsLineStart(text, p) && AtLineEnd(text, r.value) && WithinLine(text, p, r.value)
        && (forall w :: w in KnownKeywords ==> !OccursAt(text, w, k))
        && !CharAt(text, k, ';') && !CharAt(text, k, '\n')
  {
  }

  /** A line that starts, after spaces, with a known keyword is never an unknown one. */
  lemma KeywordLineIsKnown(lead: string, w: string, rest: string)
    requires forall i :: 0 <= i < |lead| ==> lead[i] == ' '
    requires w in KnownKeywords
    ensures UnknownKeywordAt(lead + w + rest, 0).None?
  {
    var text := lead + w + rest;
    assert text[..|lead|] == lead;
    assert SpacesEnd(text, 0) == |lead| by {
      assert w[0] != ' ';
      assert text[|lead|] == w[0];
    }
    assert text[|lead|..|lead| + |w|] == w;
  }

  // ---------------------------------------------------------------------------------
  // Aliases

  /** `\w+\b:`: a run of word characters followed by `:` (the `\b` only repeats that the
      run ends there). */
  function DeclarationAt(text: string, p: nat): (r: Option<nat>)
    requires p <= |text|
    ensures r.Some? ==> p < r.value <= |text|
  {
    var e := RunEnd(text, p, IsWordChar);
    if e > p && CharAt(text, e, ':') then Some(e + 1) else None
  }

  /** A declaration is matched exactly where word characters run up to a `:`, and the
      match ends just after that `:`. */
  lemma DeclarationMatch(text: string, p: nat)
    requires p <= |text|
    ensures var r := DeclarationAt(text, p);
      && (r.Some? ==> p + 1 < r.value && text[r.value - 1] == ':' && WordChars(text, p, r.value - 1))
      && (r.None? ==> forall e :: p < e < |text| && text[e] == ':' ==> !WordChars(text, p, e))
  {
  }

  /** `\w*:\b\w+`: word characters (possibly none), `:`, then a run of word characters
      (the `\b` only repeats that one follows). */
  function UsageAt(text: string, p: nat): (r: Option<nat>)
    requires p <= |text|
    ensures r.Some? ==> p < r.value <= |text|
  {
    var e := RunEnd(text, p, IsWordChar);
    if CharAt(text, e, ':') && e + 1 < |text| && IsWordChar(text[e + 1]) then Some(RunEnd(text, e + 1, IsWordChar))
    else None
  }

  /** A usage match is word characters, a `:`, then a whole run of at least one word
      character. */
  lemma UsageMatch(text: string, p: nat)
    requires p <= |text|
    ensures var r := UsageAt(text, p);
      r.Some? ==>
        && (exists c :: p <= c && c + 1 < r.value && text[c] == ':' && WordChars(text, p, c) && WordChars(text, c + 1, r.value))
        && (r.value == |text| || !IsWordChar(text[r.value]))
  {
    var e := RunEnd(text, p, IsWordChar);
    if UsageAt(text, p).Some? {
      assert text[e] == ':' && WordChars(text, p, e) && WordChars(text, e + 1, UsageAt(text, p).value);
    }
  }

  /** Every character of `text[a..b]` is a word character. */
  predicate WordChars(text: string, a: nat, b: nat) {
    b <= |text| && forall k :: a <= k < b ==> IsWordChar(text[k])
  }

  // ---------------------------------------------------------------------------------

  /** Where `pat`, tried at index `p`, ends its match. Only the unknown-keyword pattern
      can match the empty string, and only at the end of a line. */
  function MatchAt(pat: Pattern, text: string, p: nat): (r: Option<nat>)
    requires p <= |text|
    ensures r.Some? ==> p <= r.value <= |text|
    ensures r.Some? && r.value == p ==> pat == UnknownKeyword && AtLineEnd(text, p)
  {
    match pat
    case CamelCase => CamelCaseAt(text, p)
    case SpacedLambeu => LambeuAt(text, p, true)
    case Lambeu => LambeuAt(text, p, false)
    case Comeu => ComeuAt(text, p)
    case UnsignedArgument => UnsignedArgumentAt(text, p)
    case Command => CommandAt(text, p)
    case UnknownKeyword => UnknownKeywordAt(text, p)
    case Declaration => DeclarationAt(text, p)
    case Usage => UsageAt(text, p)
  }

  /** `m` is a match of `pat` in `text`. */
  predicate IsMatch(pat: Pattern, text: string, m: Match) {
    m.start <= |text| && MatchAt(pat, text, m.start) == Some(m.end)
  }

  /** One `exec` of a global expression whose `lastIndex` is `from`: the leftmost match
      starting at or after `from`. */
  function NextMatch(pat: Pattern, text: string, from: nat): (r: Option<Match>)
    requires from <= |text|
    ensures r.Some? ==> from <= r.value.start && IsMatch(pat, text, r.value)
    ensures r.Some? ==> forall q :: from <= q < r.value.start ==> MatchAt(pat, text, q).None?
    ensures r.None? ==> forall q :: from <= q <= |text| ==> MatchAt(pat, text, q).None?
    decreases |text| - from
  {
    var here := MatchAt(pat, text, from);
    if here.Some? then Some(Match(from, here.value))
    else if from == |text| then None
    else
      var r := NextMatch(pat, text, from + 1);
      assert r.Some? ==> forall q :: from < q < r.value.start ==> MatchAt(pat, text, q).None?;
      r
  }

  /** The matches a `while (m = pattern.exec(text))` loop sees from `lastIndex == from`:
      each search resumes where the previous match ended. After an empty match `exec`
      would return it forever, since `lastIndex` does not move; the sequence holds it
      once. */
  function Matches(pat: Pattern, text: string, from: nat): (r: seq<Match>)
    requires from <= |text|
    ensures forall i :: 0 <= i < |r| ==> from <= r[i].start <= r[i].end <= |text|
    ensures forall i :: 0 <= i < |r| - 1 ==> r[i].end <= r[i + 1].start
    ensures |r| > 0 ==> forall q :: from <= q < r[0].start ==> MatchAt(pat, text, q).None?
    ensures |r| == 0 ==> forall q :: from <= q <= |text| ==> MatchAt(pat, text, q).None?
    decreases |text| - from
  {
    match NextMatch(pat, text, from)
    case None => []
    case Some(m) => if m.end == m.start then [m] else [m] + Matches(pat, text, m.end)
  }

  /** Every match in the sequence starts where no earlier position after the previous
      match could start one: the sequence is exactly the leftmost-first scan. */
  lemma {:induction false} MatchesAreLeftmost(pat: Pattern, text: string, from: nat, i: nat)
    requires from <= |text|
    requires 0 < i < |Matches(pat, text, from)|
    ensures var ms := Matches(pat, text, from);
      forall q :: ms[i - 1].end <= q < ms[i].start ==> MatchAt(pat, text, q).None?
    decreases |text| - from
  {
    var m := NextMatch(pat, text, from).value;
    assert m.end > m.start;
    if i > 1 {
      MatchesAreLeftmost(pat, text, m.end, i - 1);
    }
  }

  /** Every element of the scan is a match of the pattern where it starts. */
  lemma {:induction false} MatchesAreMatches(pat: Pattern, text: string, from: nat, i: nat)
    requires from <= |text|
    requires i < |Matches(pat, text, from)|
    ensures IsMatch(pat, text, Matches(pat, text, from)[i])
    decreases |text| - from
  {
    var m := NextMatch(pat, text, from).value;
    if i > 0 {
      MatchesAreMatches(pat, text, m.end, i - 1);
    }
  }
}
