/** The helpers of server/src/utils.ts: `lowerAlias`, the camelCase to snake_case
    rewrite offered by the rename action (lower-casing is ASCII only), and
    `removeComments`, which the passes import from the same module but whose body is
    not part of this model: it is taken to keep the text before the first `;`. */
module Utils {
  import opened Strings

  /** `removeComments`: the text before the first `;`. The result is a prefix of `s`
      without `;`, and it is all of `s` or stops right at a `;`. */
  function RemoveComments(s: string): (r: string)
    ensures IsPrefix(r, s) && ';' !in r
    ensures |r| == |s| || s[|r|] == ';'
  {
    var pieces := Split(s, ';');
    SplitJoin(s, ';');
    JoinFirst(pieces, ';');
    CountZero(pieces[0], ';');
    pieces[0]
  }

  /** A text without `;` is all code. */
  lemma RemoveCommentsOfCode(s: string)
    requires ';' !in s
    ensures RemoveComments(s) == s
  {
  }

  /** With the first `;` at `f`, the code is the text before it. */
  lemma RemoveCommentsAt(s: string, f: nat)
    requires f < |s| && s[f] == ';' && ';' !in s[..f]
    ensures RemoveComments(s) == s[..f]
  {
  }

  /** The number of ASCII upper-case letters in `s`. */
  function CountUpper(s: string): nat {
    if |s| == 0 then 0 else (if IsUpper(s[0]) then 1 else 0) + CountUpper(s[1..])
  }

  /** `s` lower-cased character by character. */
  function LowerAll(s: string): (r: string)
    ensures |r| == |s|
  {
    if |s| == 0 then [] else [ToLower(s[0])] + LowerAll(s[1..])
  }

  /** `s` with every `_` removed. */
  function WithoutUnderscores(s: string): string {
    if |s| == 0 then [] else (if s[0] == '_' then [] else [s[0]]) + WithoutUnderscores(s[1..])
  }

  /** `s.replace(/([A-Z])/g, "_$1").toLocaleLowerCase()`: every upper-case letter becomes
      `_` and its lower-case form; every other character is lower-cased. */
  function Snake(s: string): (r: string)
    ensures |r| == |s| + CountUpper(s)
    ensures forall i :: 0 <= i < |r| ==> !IsUpper(r[i])
  {
    if |s| == 0 then []
    else (if IsUpper(s[0]) then ['_', ToLower(s[0])] else [ToLower(s[0])]) + Snake(s[1..])
  }

  /** Drops one leading `_`. */
  function DropLeadingUnderscore(t: string): string {
    if |t| > 0 && t[0] == '_' then t[1..] else t
  }

  /** After a leading `:`, drops one `_`. */
  function DropUnderscoreAfterColon(t: string): string {
    if |t| > 0 && t[0] == ':' then
      var sliced := t[1..];
      if |sliced| > 0 && sliced[0] == '_' then [':'] + sliced[1..] else t
    else t
  }

  /** `lowerAlias`: the snake form with one leading `_` dropped, and then, after a leading
      `:`, one `_` dropped. The result has no upper-case letter, is as long as the input
      plus one per upper-case letter minus the (at most two) dropped underscores, and a
      text already in that form comes back unchanged. */
  function LowerAlias(s: string): (r: string)
    ensures forall i :: 0 <= i < |r| ==> !IsUpper(r[i])
    ensures |s| + CountUpper(s) - 2 <= |r| <= |s| + CountUpper(s)
    ensures CountUpper(s) == 0 && !IsPrefix("_", s) && !IsPrefix(":_", s) ==> r == s
  {
    SnakeOfLower(s);
    DropUnderscoreAfterColon(DropLeadingUnderscore(Snake(s)))
  }

  /** Without upper-case letters the snake form is the text itself. */
  lemma {:induction false} SnakeOfLower(s: string)
    ensures CountUpper(s) == 0 ==> Snake(s) == s
  {
    if |s| > 0 && CountUpper(s) == 0 {
      SnakeOfLower(s[1..]);
      assert s == [s[0]] + s[1..];
    }
  }

  lemma {:induction false} WithoutUnderscoresAppend(a: string, b: string)
    ensures WithoutUnderscores(a + b) == WithoutUnderscores(a) + WithoutUnderscores(b)
  {
    if |a| > 0 {
      WithoutUnderscoresAppend(a[1..], b);
      assert (a + b)[1..] == a[1..] + b;
    } else {
      assert a + b == b;
    }
  }

  /** The snake form differs from the lower-cased text only in underscores, and it adds one
      underscore per upper-case letter. */
  lemma {:induction false} SnakeOnlyAddsUnderscores(s: string)
    ensures WithoutUnderscores(Snake(s)) == WithoutUnderscores(LowerAll(s))
    ensures Count(Snake(s), '_') == Count(s, '_') + CountUpper(s)
  {
    if |s| > 0 {
      SnakeOnlyAddsUnderscores(s[1..]);
      var head := if IsUpper(s[0]) then ['_', ToLower(s[0])] else [ToLower(s[0])];
      WithoutUnderscoresAppend(head, Snake(s[1..]));
      WithoutUnderscoresAppend([ToLower(s[0])], LowerAll(s[1..]));
      assert s == [s[0]] + s[1..];
      assert Snake(s) == head + Snake(s[1..]);
      CountAppend(head, Snake(s[1..]), '_');
    }
  }

  /** Apart from underscores, `lowerAlias` only lower-cases: no other character is added,
      removed or moved. */
  lemma LowerAliasOnlyMovesUnderscores(s: string)
    ensures WithoutUnderscores(LowerAlias(s)) == WithoutUnderscores(LowerAll(s))
  {
    SnakeOnlyAddsUnderscores(s);
    DropsOnlyUnderscores(Snake(s));
  }

  lemma DropsOnlyUnderscores(t: string)
    ensures WithoutUnderscores(DropLeadingUnderscore(t)) == WithoutUnderscores(t)
    ensures WithoutUnderscores(DropUnderscoreAfterColon(DropLeadingUnderscore(t))) == WithoutUnderscores(t)
  {
    var d := DropLeadingUnderscore(t);
    if |t| > 0 && t[0] == '_' {
      assert t == ['_'] + d;
      WithoutUnderscoresAppend(['_'], d);
    }
    if |d| > 0 && d[0] == ':' {
      var sliced := d[1..];
      if |sliced| > 0 && sliced[0] == '_' {
        assert d == [':'] + (['_'] + sliced[1..]);
        WithoutUnderscoresAppend([':'], ['_'] + sliced[1..]);
        WithoutUnderscoresAppend(['_'], sliced[1..]);
        WithoutUnderscoresAppend([':'], sliced[1..]);
      }
    }
  }

  /** The snake form works character by character. */
  lemma {:induction false} SnakeAppend(a: string, b: string)
    ensures Snake(a + b) == Snake(a) + Snake(b)
  {
    if |a| > 0 {
      SnakeAppend(a[1..], b);
      assert (a + b)[1..] == a[1..] + b;
    } else {
      assert a + b == b;
    }
  }

  /** No letter of `s` is upper case. */
  predicate NoUpper(s: string) {
    forall i :: 0 <= i < |s| ==> !IsUpper(s[i])
  }

  lemma {:induction false} SnakeOfNoUpper(s: string)
    requires NoUpper(s)
    ensures Snake(s) == s
  {
    if CountUpper(s) != 0 {
      UpperCounted(s);
    }
    SnakeOfLower(s);
  }

  lemma {:induction false} UpperCounted(s: string)
    requires CountUpper(s) != 0
    ensures exists i :: 0 <= i < |s| && IsUpper(s[i])
  {
    if !IsUpper(s[0]) {
      UpperCounted(s[1..]);
      var i :| 0 <= i < |s[1..]| && IsUpper(s[1..][i]);
      assert s[i + 1] == s[1..][i];
    }
  }

  /** One upper-case letter between two runs without: the letter becomes `_` and its
      lower-case form. */
  lemma {:induction false} SnakeOfOneHump(a: string, u: char, b: string)
    requires NoUpper(a) && IsUpper(u) && NoUpper(b)
    ensures Snake(a + [u] + b) == a + ['_', ToLower(u)] + b
  {
    SnakeAppend(a + [u], b);
    SnakeAppend(a, [u]);
    SnakeOfNoUpper(a);
    SnakeOfNoUpper(b);
    assert Snake([u]) == ['_', ToLower(u)];
  }

  /** Two upper-case letters among runs without. */
  lemma {:induction false} SnakeOfTwoHumps(a: string, u: char, b: string, v: char, c: string)
    requires NoUpper(a) && IsUpper(u) && NoUpper(b) && IsUpper(v) && NoUpper(c)
    ensures Snake(a + [u] + b + [v] + c) == a + ['_', ToLower(u)] + b + ['_', ToLower(v)] + c
  {
    var left, right := a + [u] + b, [v] + c;
    SnakeAppend(left, right);
    SnakeOfOneHump(a, u, b);
    SnakeOfOneHump([], v, c);
    assert [] + [v] + c == right;
    assert left + right == a + [u] + b + [v] + c;
    var snakeLeft, snakeRight := a + ['_', ToLower(u)] + b, ['_', ToLower(v)] + c;
    assert [] + ['_', ToLower(v)] + c == snakeRight;
    assert snakeLeft + snakeRight == a + ['_', ToLower(u)] + b + ['_', ToLower(v)] + c;
  }

  /** The worked examples: camelCase and PascalCase both become snake_case, a leading `:`
      survives with the `_` after it dropped, and only one of several leading underscores
      is dropped (so `_FooBar` keeps one). */
  lemma {:induction false} LowerAliasExamples()
    ensures LowerAlias("fooBar") == "foo_bar"
    ensures LowerAlias("FooBar") == "foo_bar"
    ensures LowerAlias(":fooBar") == ":foo_bar"
    ensures LowerAlias(":FooBar") == ":foo_bar"
    ensures LowerAlias("__x") == "_x"
    ensures LowerAlias("_FooBar") == "_foo_bar"
  {
    LowerAliasOfCamel();
    LowerAliasOfPascal();
    LowerAliasOfColonCamel();
    LowerAliasOfColonPascal();
    LowerAliasOfUnderscores();
    LowerAliasOfUnderscorePascal();
  }

  lemma {:induction false} LowerAliasOfCamel()
    ensures LowerAlias("fooBar") == "foo_bar"
  {
    SnakeOfCamel();
    assert DropUnderscoreAfterColon(DropLeadingUnderscore("foo_bar")) == "foo_bar";
  }

  lemma {:induction false} LowerAliasOfPascal()
    ensures LowerAlias("FooBar") == "foo_bar"
  {
    SnakeOfPascal();
    assert DropUnderscoreAfterColon(DropLeadingUnderscore("_foo_bar")) == "foo_bar";
  }

  lemma {:induction false} LowerAliasOfColonCamel()
    ensures LowerAlias(":fooBar") == ":foo_bar"
  {
    SnakeOfColonCamel();
    assert DropUnderscoreAfterColon(DropLeadingUnderscore(":foo_bar")) == ":foo_bar";
  }

  lemma {:induction false} LowerAliasOfColonPascal()
    ensures LowerAlias(":FooBar") == ":foo_bar"
  {
    SnakeOfColonPascal();
    assert DropLeadingUnderscore(":_foo_bar") == ":_foo_bar";
    assert DropUnderscoreAfterColon(":_foo_bar") == ":foo_bar";
  }

  lemma {:induction false} LowerAliasOfUnderscorePascal()
    ensures LowerAlias("_FooBar") == "_foo_bar"
  {
    SnakeOfUnderscorePascal();
    assert DropLeadingUnderscore("__foo_bar") == "_foo_bar";
    assert DropUnderscoreAfterColon("_foo_bar") == "_foo_bar";
  }

  lemma {:induction false} SnakeOfCamel()
    ensures Snake("fooBar") == "foo_bar"
  {
    SnakeOfOneHump("foo", 'B', "ar");
    assert "foo" + ['B'] + "ar" == "fooBar";
    assert "foo" + ['_', 'b'] + "ar" == "foo_bar";
  }

  lemma {:induction false} SnakeOfPascal()
    ensures Snake("FooBar") == "_foo_bar"
  {
    SnakeOfTwoHumps("", 'F', "oo", 'B', "ar");
    assert "" + ['F'] + "oo" + ['B'] + "ar" == "FooBar";
    assert "" + ['_', 'f'] + "oo" + ['_', 'b'] + "ar" == "_foo_bar";
  }

  lemma {:induction false} SnakeOfColonCamel()
    ensures Snake(":fooBar") == ":foo_bar"
  {
    SnakeOfOneHump(":foo", 'B', "ar");
    assert ":foo" + ['B'] + "ar" == ":fooBar";
    assert ":foo" + ['_', 'b'] + "ar" == ":foo_bar";
  }

  lemma {:induction false} SnakeOfColonPascal()
    ensures Snake(":FooBar") == ":_foo_bar"
  {
    SnakeOfTwoHumps(":", 'F', "oo", 'B', "ar");
    assert ":" + ['F'] + "oo" + ['B'] + "ar" == ":FooBar";
    assert ":" + ['_', 'f'] + "oo" + ['_', 'b'] + "ar" == ":_foo_bar";
  }

  lemma {:induction false} SnakeOfUnderscorePascal()
    ensures Snake("_FooBar") == "__foo_bar"
  {
    SnakeOfTwoHumps("_", 'F', "oo", 'B', "ar");
    assert "_" + ['F'] + "oo" + ['B'] + "ar" == "_FooBar";
    assert "_" + ['_', 'f'] + "oo" + ['_', 'b'] + "ar" == "__foo_bar";
  }

  lemma {:induction false} LowerAliasOfUnderscores()
    ensures LowerAlias("__x") == "_x"
  {
    SnakeOfNoUpper("__x");
    assert DropLeadingUnderscore("__x") == "_x";
  }
}
