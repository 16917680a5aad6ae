/** Line/character positions in a document, as the text-document library computes them
    for `positionAt`, `offsetAt` and `getText(range)`, with '\n' as the line terminator. */
module Positions {
  import opened Strings

  /** Zero-based line and character within that line. */
  datatype Position = Position(line: nat, character: nat)

  datatype Range = Range(start: Position, end: Position)

  ghost predicate StrictlyIncreasing(s: seq<nat>) {
    forall a, b :: 0 <= a < b < |s| ==> s[a] < s[b]
  }

  /** One past every line break at or after `i`, in increasing order. */
  function BreaksFrom(text: string, i: nat): (r: seq<nat>)
    requires i <= |text|
    ensures forall j :: 0 <= j < |r| ==> i < r[j] <= |text| && IsLineBreak(text[r[j] - 1])
    decreases |text| - i
  {
    if i == |text| then []
    else if IsLineBreak(text[i]) then [i + 1] + BreaksFrom(text, i + 1)
    else BreaksFrom(text, i + 1)
  }

  /** The breaks after `i` come in increasing order. */
  lemma {:induction false} BreaksFromIncreasing(text: string, i: nat)
    requires i <= |text|
    ensures StrictlyIncreasing(BreaksFrom(text, i))
    decreases |text| - i
  {
    if i < |text| {
      BreaksFromIncreasing(text, i + 1);
      var rest := BreaksFrom(text, i + 1);
      if IsLineBreak(text[i]) {
        var r := [i + 1] + rest;
        assert forall j :: 0 < j < |r| ==> r[j] == rest[j - 1];
      }
    }
  }

  /** Every line break at or after `i` is listed. */
  lemma {:induction false} BreaksFromHas(text: string, i: nat, k: nat)
    requires i <= k < |text| && IsLineBreak(text[k])
    ensures k + 1 in BreaksFrom(text, i)
    decreases k - i
  {
    if i < k {
      BreaksFromHas(text, i + 1, k);
    }
  }

  /** The offset at which each line of `text` begins. */
  function LineOffsets(text: string): (r: seq<nat>)
    ensures |r| >= 1 && r[0] == 0
    ensures forall j :: 0 <= j < |r| ==> r[j] <= |text|
    ensures forall j :: 1 <= j < |r| ==> 0 < r[j] && IsLineBreak(text[r[j] - 1])
  {
    var r := [0] + BreaksFrom(text, 0);
    assert forall j :: 0 < j < |r| ==> r[j] == BreaksFrom(text, 0)[j - 1];
    r
  }

  /** Lines start in increasing order. */
  lemma LineOffsetsIncreasing(text: string)
    ensures StrictlyIncreasing(LineOffsets(text))
  {
    BreaksFromIncreasing(text, 0);
    var r := LineOffsets(text);
    assert forall j :: 0 < j < |r| ==> r[j] == BreaksFrom(text, 0)[j - 1];
  }

  /** A line break ends a line: the next line starts right after it. */
  lemma LineOfBreak(text: string, k: nat)
    requires k < |text|
    ensures IsLineBreak(text[k]) ==> exists j :: 0 <= j < |LineOffsets(text)| && LineOffsets(text)[j] == k + 1
  {
    if IsLineBreak(text[k]) {
      BreaksFromHas(text, 0, k);
      var b := BreaksFrom(text, 0);
      var i :| 0 <= i < |b| && b[i] == k + 1;
      assert LineOffsets(text)[i + 1] == k + 1;
    }
  }

  /** The last index at or below `j` whose line offset is at most `o`. */
  function LastLineAtMost(offsets: seq<nat>, o: nat, j: nat): (r: nat)
    requires j < |offsets| && offsets[0] <= o
    ensures r <= j && offsets[r] <= o
    ensures forall k :: r < k <= j ==> offsets[k] > o
    decreases j
  {
    if offsets[j] <= o then j else LastLineAtMost(offsets, o, j - 1)
  }

  /** `offsetAt`: a position clamped into its line (a line past the end maps to the end). */
  function OffsetAt(text: string, p: Position): (o: nat)
    ensures o <= |text|
  {
    var offsets := LineOffsets(text);
    if p.line >= |offsets| then |text|
    else
      var next := if p.line + 1 < |offsets| then offsets[p.line + 1] else |text|;
      if offsets[p.line] + p.character <= next then offsets[p.line] + p.character else next
  }

  /** `positionAt`: the line holding `offset` (clamped to the text) and the distance from
      that line's start. Mapping the position back gives the clamped offset again. */
  function PositionAt(text: string, offset: nat): (p: Position)
    ensures OffsetAt(text, p) == if offset <= |text| then offset else |text|
    ensures p.line < |LineOffsets(text)|
  {
    var o := if offset <= |text| then offset else |text|;
    var offsets := LineOffsets(text);
    var line := LastLineAtMost(offsets, o, |offsets| - 1);
    Position(line, o - offsets[line])
  }

  /** The offset at which the line holding offset `o` begins: the start of the text or
      just after a line break. It is also what `offsetAt` gives for character 0 of
      that line. */
  function LineStart(text: string, o: nat): (s: nat)
    requires o <= |text|
    ensures s <= o && (s == 0 || IsLineBreak(text[s - 1]))
    ensures s == OffsetAt(text, Position(PositionAt(text, o).line, 0))
  {
    var p := PositionAt(text, o);
    assert LineOffsets(text)[p.line] + p.character == o;
    o - p.character
  }

  /** No line break lies between the start of a line and any offset on it. */
  lemma NoBreakInLine(text: string, o: nat)
    requires o <= |text|
    ensures forall k :: LineStart(text, o) <= k < o ==> !IsLineBreak(text[k])
  {
    var offsets := LineOffsets(text);
    LineOffsetsIncreasing(text);
    var line := LastLineAtMost(offsets, o, |offsets| - 1);
    assert offsets[line] == LineStart(text, o);
    forall k | offsets[line] <= k < o
      ensures !IsLineBreak(text[k])
    {
      LineOfBreak(text, k);
    }
  }

  /** A position that names a character of its line, or the end of that line. */
  ghost predicate ValidPosition(text: string, p: Position) {
    var offsets := LineOffsets(text);
    && p.line < |offsets|
    && if p.line + 1 < |offsets| then offsets[p.line] + p.character < offsets[p.line + 1]
       else offsets[p.line] + p.character <= |text|
  }

  /** `positionAt` undoes `offsetAt` on valid positions. */
  lemma PositionAtOffsetAt(text: string, p: Position)
    requires ValidPosition(text, p)
    ensures PositionAt(text, OffsetAt(text, p)) == p
  {
    var offsets := LineOffsets(text);
    var o := OffsetAt(text, p);
    assert o == offsets[p.line] + p.character;
    LineOffsetsIncreasing(text);
    LastLineAtMostIs(offsets, o, |offsets| - 1, p.line);
  }

  /** In increasing offsets, the last line at or below `j` starting at most at `o` is the
      one after which every line starts past `o`. */
  lemma {:induction false} LastLineAtMostIs(offsets: seq<nat>, o: nat, j: nat, line: nat)
    requires j < |offsets| && offsets[0] <= o && StrictlyIncreasing(offsets)
    requires line <= j && offsets[line] <= o
    requires line + 1 < |offsets| ==> o < offsets[line + 1]
    ensures LastLineAtMost(offsets, o, j) == line
    decreases j
  {
    if j > line {
      assert offsets[line + 1] <= offsets[j];
      LastLineAtMostIs(offsets, o, j - 1, line);
    }
  }

  /** `getText(range)`: the text between the two clamped offsets (`substring` swaps them
      when the end comes first). */
  function GetText(text: string, r: Range): (s: string)
    ensures |s| <= |text|
  {
    var a := OffsetAt(text, r.start);
    var b := OffsetAt(text, r.end);
    if a <= b then text[a..b] else text[b..a]
  }

  /** `getText` of the range of a slice gives that slice back. */
  lemma GetTextOfRange(text: string, start: nat, end: nat)
    requires start <= end <= |text|
    ensures GetText(text, RangeOf(text, start, end)) == text[start..end]
  {
  }

  /** The range of `text[start..end]`. */
  function RangeOf(text: string, start: nat, end: nat): Range {
    Range(PositionAt(text, start), PositionAt(text, end))
  }
}
