/** The JavaScript string operations the analyser relies on (`\w`, `trim`, `split`,
    `includes`, number formatting), restated over `seq<char>`. Character classes are
    ASCII, as in a regular expression without the `u` flag. */
module Strings {
  import opened Options

  predicate IsUpper(c: char) { 'A' <= c <= 'Z' }
  predicate IsLower(c: char) { 'a' <= c <= 'z' }
  predicate IsDigit(c: char) { '0' <= c <= '9' }
  predicate IsLetter(c: char) { IsUpper(c) || IsLower(c) }
  predicate IsAlnum(c: char) { IsLetter(c) || IsDigit(c) }

  /** The class `\w`. */
  predicate IsWordChar(c: char) { IsAlnum(c) || c == '_' }

  /** The one character positions treat as ending a line. */
  predicate IsLineBreak(c: char) { c == '\n' }
  predicate NotLineBreak(c: char) { !IsLineBreak(c) }
  predicate IsSpace(c: char) { c == ' ' }

  /** The line terminators of a regular expression: `.` does not match them and a
      multiline `^` matches right after them. */
  predicate IsLineTerminator(c: char) { c == '\n' || c == '\r' || c == '\U{2028}' || c == '\U{2029}' }
  predicate NotLineTerminator(c: char) { !IsLineTerminator(c) }

  /** The characters `String.prototype.trim` removes: white space and line terminators. */
  predicate IsWhitespace(c: char) {
    || c == ' ' || c == '\t' || c == '\n' || c == '\r' || c == '\U{000B}' || c == '\U{000C}'
    || c == '\U{00A0}' || c == '\U{1680}' || ('\U{2000}' <= c <= '\U{200A}')
    || c == '\U{2028}' || c == '\U{2029}' || c == '\U{202F}' || c == '\U{205F}'
    || c == '\U{3000}' || c == '\U{FEFF}'
  }

  /** ASCII `toLowerCase`: other characters are left as they are. */
  function ToLower(c: char): (r: char)
    ensures !IsUpper(r)
    ensures IsUpper(c) ==> IsLower(r)
    ensures !IsUpper(c) ==> r == c
  {
    if IsUpper(c) then (c as int - 'A' as int + 'a' as int) as char else c
  }

  /** The end of the run of characters satisfying `inRun` that starts at `i`. */
  function RunEnd(s: string, i: nat, inRun: char -> bool): (j: nat)
    requires i <= |s|
    ensures i <= j <= |s|
    ensures forall k :: i <= k < j ==> inRun(s[k])
    ensures j < |s| ==> !inRun(s[j])
    decreases |s| - i
  {
    if i < |s| && inRun(s[i]) then RunEnd(s, i + 1, inRun) else i
  }

  /** `t` appears in `s` starting at index `i`. */
  predicate OccursAt(s: string, t: string, i: nat) {
    i + |t| <= |s| && s[i..i + |t|] == t
  }

  /** `s.includes(t)`. */
  predicate Contains(s: string, t: string) {
    exists i: nat :: i <= |s| && OccursAt(s, t, i)
  }

  predicate IsPrefix(t: string, s: string) { |t| <= |s| && s[..|t|] == t }
  predicate IsSuffix(t: string, s: string) { |t| <= |s| && s[|s| - |t|..] == t }

  /** A text occurring inside a prefix of `s` occurs in `s`. */
  lemma ContainsInPrefix(s: string, n: nat, t: string)
    requires n <= |s| && Contains(s[..n], t)
    ensures Contains(s, t)
  {
    var i: nat :| i <= n && OccursAt(s[..n], t, i);
    assert s[..n][i..i + |t|] == s[i..i + |t|];
    assert OccursAt(s, t, i);
  }

  /** The first index of `c` in `s`, if any. */
  function FirstIndexOf(s: string, c: char): (r: Option<nat>)
    ensures r.Some? ==> r.value < |s| && s[r.value] == c && c !in s[..r.value]
    ensures r.None? <==> c !in s
  {
    if |s| == 0 then None
    else if s[0] == c then Some(0)
    else
      match FirstIndexOf(s[1..], c)
      case Some(i) =>
        assert s[..i + 1] == [s[0]] + s[1..][..i];
        Some(i + 1)
      case None =>
        assert s == [s[0]] + s[1..];
        None
  }

  /** The number of occurrences of `c` in `s`. */
  function Count(s: string, c: char): (n: nat)
    ensures n <= |s|
  {
    if |s| == 0 then 0 else (if s[0] == c then 1 else 0) + Count(s[1..], c)
  }

  lemma {:induction false} CountZero(s: string, c: char)
    ensures Count(s, c) == 0 <==> c !in s
  {
    if |s| > 0 {
      CountZero(s[1..], c);
      assert s == [s[0]] + s[1..];
    }
  }

  lemma {:induction false} CountAppend(a: string, b: string, c: char)
    ensures Count(a + b, c) == Count(a, c) + Count(b, c)
  {
    if |a| > 0 {
      CountAppend(a[1..], b, c);
      assert (a + b)[1..] == a[1..] + b;
    } else {
      assert a + b == b;
    }
  }

  /** `pieces.join(c)`. */
  function Join(pieces: seq<string>, c: char): string
    requires |pieces| >= 1
    decreases |pieces|
  {
    if |pieces| == 1 then pieces[0] else pieces[0] + [c] + Join(pieces[1..], c)
  }

  /** `s.split(c)` for a one-character separator: one more piece than there are
      separators, none of them holding a separator. */
  function Split(s: string, c: char): (r: seq<string>)
    ensures |r| >= 1
    ensures |r| == Count(s, c) + 1
    ensures forall i :: 0 <= i < |r| ==> Count(r[i], c) == 0
    decreases |s|
  {
    match FirstIndexOf(s, c)
    case None =>
      CountZero(s, c);
      [s]
    case Some(i) =>
      var rest := Split(s[i + 1..], c);
      CutAtSeparator(s, c, i);
      CountZero(s[..i], c);
      [s[..i]] + rest
  }

  /** Cutting `s` at a separator `i` splits its count of separators. */
  lemma CutAtSeparator(s: string, c: char, i: nat)
    requires i < |s| && s[i] == c && c !in s[..i]
    ensures Count(s, c) == Count(s[i + 1..], c) + 1
    ensures s == s[..i] + [c] + s[i + 1..]
  {
    assert s == s[..i] + [c] + s[i + 1..];
    CountAppend(s[..i] + [c], s[i + 1..], c);
    CountAppend(s[..i], [c], c);
    CountZero(s[..i], c);
  }

  /** Joining the pieces with the separator gives the text back. */
  lemma {:induction false} SplitJoin(s: string, c: char)
    ensures Join(Split(s, c), c) == s
    decreases |s|
  {
    match FirstIndexOf(s, c)
    case None =>
    case Some(i) =>
      SplitJoin(s[i + 1..], c);
      CutAtSeparator(s, c, i);
      var rest := Split(s[i + 1..], c);
      assert Split(s, c) == [s[..i]] + rest;
      assert ([s[..i]] + rest)[1..] == rest;
  }

  /** The first piece of a join starts it, followed by the separator when more follow. */
  lemma JoinFirst(pieces: seq<string>, c: char)
    requires |pieces| >= 1
    ensures IsPrefix(pieces[0], Join(pieces, c))
    ensures |pieces| > 1 ==> |pieces[0]| < |Join(pieces, c)| && Join(pieces, c)[|pieces[0]|] == c
  {
  }

  /** The last piece of a join ends it, preceded by the separator when more come before. */
  lemma {:induction false} JoinLast(pieces: seq<string>, c: char)
    requires |pieces| >= 1
    ensures var s, r := Join(pieces, c), pieces[|pieces| - 1];
      IsSuffix(r, s) && (|pieces| > 1 ==> |r| < |s| && s[|s| - |r| - 1] == c)
    decreases |pieces|
  {
    if |pieces| > 1 {
      JoinLast(pieces[1..], c);
      var t := Join(pieces[1..], c);
      var r := pieces[|pieces| - 1];
      assert Join(pieces, c) == (pieces[0] + [c]) + t;
      if |pieces| > 2 {
        assert Join(pieces, c)[|Join(pieces, c)| - |r| - 1] == t[|t| - |r| - 1];
      }
    }
  }

  /** The last piece of a split ends the text, holds no separator, and follows a
      separator unless it is the whole text. */
  lemma SplitLast(s: string, c: char)
    ensures var pieces := Split(s, c);
      var r := pieces[|pieces| - 1];
      && IsSuffix(r, s) && c !in r
      && (|r| < |s| ==> s[|s| - |r| - 1] == c)
      && (c !in s ==> r == s)
  {
    SplitLastSuffix(s, c);
    var pieces := Split(s, c);
    CountZero(pieces[|pieces| - 1], c);
    SplitWithout(s, c);
  }

  lemma {:induction false} SplitLastSuffix(s: string, c: char)
    ensures var pieces := Split(s, c);
      var r := pieces[|pieces| - 1];
      IsSuffix(r, s) && (|r| < |s| ==> s[|s| - |r| - 1] == c)
  {
    SplitJoin(s, c);
    LastOfJoin(Split(s, c), c, s);
  }

  /** `JoinLast` for a join known to give `s`. */
  lemma LastOfJoin(pieces: seq<string>, c: char, s: string)
    requires |pieces| >= 1 && Join(pieces, c) == s
    ensures var r := pieces[|pieces| - 1];
      IsSuffix(r, s) && (|r| < |s| ==> s[|s| - |r| - 1] == c)
  {
    JoinLast(pieces, c);
  }

  /** A slice contains each of its own suffixes. */
  lemma ContainsTail(s: string, a: nat, b: nat, e: nat)
    requires a <= b <= e <= |s|
    ensures Contains(s[a..e], s[b..e])
  {
    assert s[a..e][b - a..e - a] == s[b..e];
    assert OccursAt(s[a..e], s[b..e], b - a);
  }

  /** Indexing into a slice is indexing into the text. */
  lemma SliceOfSlice(s: string, a: nat, e: nat, f: nat)
    requires a + f < e <= |s|
    ensures s[a..e][f] == s[a + f] && s[a..e][..f] == s[a..a + f]
  {
  }

  /** Splitting a text that has no separator yields the text itself. */
  lemma SplitWithout(s: string, c: char)
    ensures c !in s ==> Split(s, c) == [s]
  {
  }

  /** Splitting `a + [c] + b` where `a` has no separator peels `a` off. */
  lemma SplitAfterFirst(a: string, c: char, b: string)
    requires c !in a
    ensures Split(a + [c] + b, c) == [a] + Split(b, c)
  {
    var s := a + [c] + b;
    assert s[|a|] == c;
    assert s[..|a|] == a;
    assert c !in s[..|a|];
    assert s[|a| + 1..] == b;
  }

  /** `s.replace(c, "")` with a one-character string pattern: only the first `c` goes. */
  function RemoveFirst(s: string, c: char): (r: string)
    ensures c !in s ==> r == s
    ensures c in s ==> |r| == |s| - 1 && Count(r, c) == Count(s, c) - 1
  {
    match FirstIndexOf(s, c)
    case None => s
    case Some(i) =>
      CutAtSeparator(s, c, i);
      CountAppend(s[..i], s[i + 1..], c);
      CountZero(s[..i], c);
      s[..i] + s[i + 1..]
  }

  /** With the first `c` at index `i`, removing it leaves the text around it. */
  lemma RemoveFirstAt(s: string, c: char, i: nat)
    requires i < |s| && s[i] == c && c !in s[..i]
    ensures RemoveFirst(s, c) == s[..i] + s[i + 1..]
  {
    var a, b := s[..i], s[i + 1..];
    assert s == a + [c] + b;
    assert s[|a|] == c && s[..|a|] == a && s[|a| + 1..] == b;
  }

  /** The index of the first character at or after `i` that is not white space. */
  function SkipWhitespace(s: string, i: nat): (j: nat)
    requires i <= |s|
    ensures i <= j <= |s|
    ensures forall k :: i <= k < j ==> IsWhitespace(s[k])
    ensures j < |s| ==> !IsWhitespace(s[j])
    decreases |s| - i
  {
    if i < |s| && IsWhitespace(s[i]) then SkipWhitespace(s, i + 1) else i
  }

  /** Moving back from `j`, but not below `lo`, over white space. */
  function BackOverWhitespace(s: string, lo: nat, j: nat): (k: nat)
    requires lo <= j <= |s|
    ensures lo <= k <= j
    ensures forall m :: k <= m < j ==> IsWhitespace(s[m])
    ensures k > lo ==> !IsWhitespace(s[k - 1])
    decreases j
  {
    if j > lo && IsWhitespace(s[j - 1]) then BackOverWhitespace(s, lo, j - 1) else j
  }

  /** `s.trim()`. */
  function Trim(s: string): (r: string)
    ensures |r| <= |s|
    ensures r == [] <==> forall k :: 0 <= k < |s| ==> IsWhitespace(s[k])
    ensures r != [] ==> !IsWhitespace(r[0]) && !IsWhitespace(r[|r| - 1])
  {
    var i := SkipWhitespace(s, 0);
    var j := BackOverWhitespace(s, i, |s|);
    assert i < |s| ==> j > i;
    s[i..j]
  }

  /** Trimming removes exactly the white space padding around a word. */
  lemma TrimPadded(lead: string, w: string, trail: string)
    requires forall k :: 0 <= k < |lead| ==> IsWhitespace(lead[k])
    requires forall k :: 0 <= k < |trail| ==> IsWhitespace(trail[k])
    requires w != [] && !IsWhitespace(w[0]) && !IsWhitespace(w[|w| - 1])
    ensures Trim(lead + w + trail) == w
  {
    var s := lead + w + trail;
    SkipLead(s, 0, |lead|);
    var i := SkipWhitespace(s, 0);
    assert i == |lead|;
    BackTrail(s, i, |lead| + |w|, |s|);
    assert s[|lead|..|lead| + |w|] == w;
  }

  lemma SkipLead(s: string, i: nat, n: nat)
    requires i <= n < |s|
    requires forall k :: i <= k < n ==> IsWhitespace(s[k])
    requires !IsWhitespace(s[n])
    ensures SkipWhitespace(s, i) == n
    decreases n - i
  {
    if i < n {
      SkipLead(s, i + 1, n);
    }
  }

  lemma BackTrail(s: string, lo: nat, n: nat, j: nat)
    requires lo < n <= j <= |s|
    requires forall k :: n <= k < j ==> IsWhitespace(s[k])
    requires !IsWhitespace(s[n - 1])
    ensures BackOverWhitespace(s, lo, j) == n
    decreases j
  {
    if j > n {
      BackTrail(s, lo, n, j - 1);
    }
  }

  /** The decimal digit for `d`. */
  function DigitChar(d: nat): (c: char)
    requires d < 10
    ensures IsDigit(c)
  {
    ('0' as int + d) as char
  }

  /** JavaScript's decimal rendering of a non-negative integer. */
  function NatToString(n: nat): (r: string)
    ensures |r| >= 1
    ensures forall k :: 0 <= k < |r| ==> IsDigit(r[k])
    decreases n
  {
    if n < 10 then [DigitChar(n)] else NatToString(n / 10) + [DigitChar(n % 10)]
  }

  /** The first `n` elements of `s`, or all of them when there are fewer. */
  function Take<T>(s: seq<T>, n: nat): (r: seq<T>)
    ensures |r| == if n <= |s| then n else |s|
    ensures r == s[..|r|]
  {
    if n <= |s| then s[..n] else s
  }
}
