/** The cases of tests/Colors/ColorTest.php, restated against the model. */
module Scenarios {
  import opened Results
  import opened Chars
  import opened StyleTable
  import opened Themes
  import opened Stylizer
  import opened Escapes
  import opened Markup
  import opened Colors

  /** testConvertsAsString: the object prints its text; invoking it replaces the text. */
  lemma ConvertsAsString()
    ensures ToString(New("foo")) == "foo"
    ensures ToString(Invoke(New("foo"), "bar")) == "bar"
  {
  }

  /** The byte strings the tests compare against. */
  lemma TestBytes()
    ensures Wrap("31", "foo") == [ESC] + "[31mfoo" + [ESC] + "[0m"
    ensures Wrap("1", Wrap("37", "foo")) == [ESC] + "[1m" + [ESC] + "[37mfoo" + [ESC] + "[0m" + [ESC] + "[0m"
  {
  }

  /** testDecoratesString: red. */
  lemma DecoratesRed()
    ensures Acyclic(map[])
    ensures Apply(New("foo"), true, "red") == Step(Color("foo", Wrap("31", "foo"), map[]), None)
  {
    EmptyThemeAcyclic();
    ForegroundEntries();
    assert Lower("red") == "red";
    LiteralWinsOverTheme(map[], "red", "foo");
  }

  /** testDecoratesString: WHITE then bold; names are case-insensitive and the later call is outer. */
  lemma DecoratesStacked()
    ensures Acyclic(map[])
    ensures ApplyAll(New("foo"), true, ["WHITE", "bold"]).color.wrapped == Wrap("1", Wrap("37", "foo"))
  {
    EmptyThemeAcyclic();
    WhiteAndBoldCodes();
    LiteralChainNests(New("foo"), ["WHITE", "bold"]);
    LiteralCodesOfTwo("WHITE", "bold");
    WrapTwice("37", "1", "foo");
  }

  /** Any case of white, and bold. */
  lemma WhiteAndBoldCodes()
    ensures Lower("WHITE") == "white" && Lower("bold") == "bold"
    ensures "white" in Codes && Codes["white"] == "37" && "bold" in Codes && Codes["bold"] == "1"
  {
    WhiteAndBoldLower();
    StyleEntries();
    ForegroundEntries();
  }

  lemma WhiteAndBoldLower()
    ensures Lower("WHITE") == "white" && Lower("bold") == "bold"
  {
    assert Lower("WHITE") == [LowerChar('W')] + Lower("HITE");
  }

  /** The codes of two literal styles, in order. */
  lemma LiteralCodesOfTwo(x: string, y: string)
    requires Lower(x) in Codes && Lower(y) in Codes
    ensures LiteralCodes([x, y]) == [Codes[Lower(x)], Codes[Lower(y)]]
  {
    var cs := LiteralCodes([x, y]);
    assert cs[0] == Codes[Lower(x)] && cs[1] == Codes[Lower(y)];
  }

  /** Two codes applied in order: the second is the outer one. */
  lemma WrapTwice(a: string, b: string, text: string)
    ensures WrapAll([a, b], text) == Wrap(b, Wrap(a, text))
  {
    assert [a, b][0] == a && [a, b][1..] == [b];
    assert WrapAll([a, b], text) == WrapAll([b], Wrap(a, text));
    assert [b][0] == b && [b][1..] == [];
    assert WrapAll([b], Wrap(a, text)) == WrapAll([], Wrap(b, Wrap(a, text)));
  }

  /** testThrowsExceptionForInvalidStyle: "Invalid style foo", and the text is kept. */
  lemma ThrowsForInvalidStyle()
    ensures Acyclic(map[])
    ensures Apply(New("foo bar"), true, "foo") == Step(New("foo bar"), Some(InvalidStyle("foo")))
    ensures InvalidStyle("foo").Message() == "Invalid style foo"
  {
    assert InvalidStyle("foo").Message() == "Invalid style foo";
    EmptyThemeAcyclic();
    assert Lower("foo") == "foo";
    UnknownStyleFails(map[], "foo", "foo bar");
  }


  /** testHasShortcutDecorators: fg is the color, bg and highlight its background. */
  lemma HasShortcutDecorators()
    ensures Acyclic(map[])
    ensures Fg(New("Hello World!"), true, "blue") == Apply(New("Hello World!"), true, "blue")
    ensures Bg(New("Hello World!"), true, "blue") == Apply(New("Hello World!"), true, "bg_blue")
    ensures Highlight(New("Hello World!"), true, "blue") == Bg(New("Hello World!"), true, "blue")
  {
    assert "bg_" + "blue" == "bg_blue";
    EmptyThemeAcyclic();
    Shortcuts(New("Hello World!"), true, "blue", "");
  }


  /** testResetsDecoration. */
  lemma ResetsDecoration()
    ensures Acyclic(map[])
    ensures ToString(Reset(Apply(New("foo"), true, "blue").color)) == "foo"
  {
    EmptyThemeAcyclic();
  }

  /** The theme of testSupportsThemes, as the PHP array's pairs. */
  function TestThemePairs(): seq<(string, Entry)> {
    [("error", Single("red")), ("warning", Sequence(["bg_yellow", "white"])), ("white", Single("red"))]
  }

  /** The same theme once assigned. */
  function TestTheme(): Theme {
    map["error" := Single("red"), "warning" := Sequence(["bg_yellow", "white"]), "white" := Single("red")]
  }

  /** setTheme accepts the test theme and stores it. */
  lemma TestThemeIsSet(c: Color)
    ensures SetTheme(c, TestThemePairs()) == Step(c.(theme := TestTheme()), None)
  {
    TestPairsAreValid();
    TestPairsMakeTestTheme();
  }

  /** Every key of the test theme matches the style-name pattern. */
  lemma TestPairsAreValid()
    ensures forall i :: 0 <= i < |TestThemePairs()| ==> IsValidStyleName(TestThemePairs()[i].0)
  {
    var p := TestThemePairs();
    assert IsName(p[0].0) && IsName(p[1].0) && IsName(p[2].0);
  }

  /** The test theme's pairs have distinct keys, so the array holds each of them. */
  lemma TestPairsMakeTestTheme()
    ensures ToTheme(TestThemePairs()) == TestTheme()
  {
    var p := TestThemePairs();
    assert p[0].0 == "error" && p[1].0 == "warning" && p[2].0 == "white";
    ToThemeLastWins(p, 0);
    ToThemeLastWins(p, 1);
    ToThemeLastWins(p, 2);
    forall k
      ensures k in ToTheme(p) <==> k in TestTheme()
    {
      ToThemeKeys(p, k);
    }
  }

  /** The keys of the test theme. */
  lemma TestThemeKeys()
    ensures forall k :: k in TestTheme() ==> k == "error" || k == "warning" || k == "white"
  {
  }

  /** The entries of the test theme. */
  lemma TestThemeEntries()
    ensures "error" in TestTheme() && TestTheme()["error"] == Single("red")
    ensures "warning" in TestTheme() && TestTheme()["warning"] == Sequence(["bg_yellow", "white"])
    ensures "white" in TestTheme() && TestTheme()["white"] == Single("red")
  {
  }

  /** The aliases of the test theme are not literal styles. */
  lemma TestAliasesAreNotLiteral()
    ensures !IsLiteral("error") && !IsLiteral("warning")
  {
  }



  /** The styles the test theme points at are literal, lowercase, with these codes. */
  lemma TestThemeStyles()
    ensures IsLiteral("red") && IsLiteral("bg_yellow") && IsLiteral("white")
    ensures Codes["bg_yellow"] == "43" && Codes["white"] == "37"
    ensures Lower("red") == "red" && Lower("bg_yellow") == "bg_yellow" && Lower("white") == "white"
  {
    ForegroundEntries();
    BackgroundEntries();
    LiteralNamesAreLowercaseNames("red");
    LiteralNamesAreLowercaseNames("bg_yellow");
    LiteralNamesAreLowercaseNames("white");
  }

  /** The test theme only points at literal styles, so it is acyclic. */
  lemma TestThemeAcyclic()
    ensures Acyclic(TestTheme())
  {
    var t := TestTheme();
    TestThemeKeys();
    TestThemeEntries();
    TestThemeStyles();
    forall k, m | k in t && m in Members(t[k])
      ensures IsLiteral(Lower(m))
    {
      TestThemeMember(k, m);
    }
    LiteralMembersAcyclic(t);
  }

  /** Every member of every entry of the test theme is one of its three styles. */
  lemma TestThemeMember(k: string, m: string)
    requires k in TestTheme() && m in Members(TestTheme()[k])
    ensures m == "red" || m == "bg_yellow" || m == "white"
  {
    TestThemeKeys();
    TestThemeEntries();
  }

  /** testSupportsThemes: `error` is exactly red. */
  lemma ThemeAliasIsItsStyle(text: string)
    ensures Acyclic(TestTheme())
    ensures Stylize(TestTheme(), true, "error", text) == Stylize(TestTheme(), true, "red", text)
  {
    assert Lower("error") == "error";
    TestThemeAcyclic();
    TestThemeEntries();
    TestAliasesAreNotLiteral();
    AliasOfOneStyle(TestTheme(), "error", "red", text);
  }

  /** testSupportsThemes: `warning` is bg_yellow, then white around it. */
  lemma ThemeAliasFoldsInOrder(text: string)
    ensures Acyclic(TestTheme())
    ensures Stylize(TestTheme(), true, "warning", text) == Ok(Wrap("37", Wrap("43", text)))
  {
    TestThemeAcyclic();
    WarningIsAliasOfLiterals();
    AliasOfLiteralsFoldsLeft(TestTheme(), "warning", text);
    TestThemeStyles();
    LiteralCodesOfTwo("bg_yellow", "white");
    WrapTwice("43", "37", text);
  }

  /** `warning` is an alias whose members are all literal styles. */
  lemma WarningIsAliasOfLiterals()
    ensures !IsLiteral(Lower("warning")) && Lower("warning") in TestTheme()
    ensures var ms := Members(TestTheme()[Lower("warning")]);
            forall i :: 0 <= i < |ms| ==> IsLiteral(Lower(ms[i]))
  {
    WarningIsAlias();
    WarningMembersAreLiteral();
  }

  lemma WarningIsAlias()
    ensures !IsLiteral(Lower("warning")) && Lower("warning") in TestTheme()
    ensures Members(TestTheme()[Lower("warning")]) == ["bg_yellow", "white"]
  {
    assert Lower("warning") == "warning";
    TestThemeEntries();
    TestAliasesAreNotLiteral();
  }

  lemma WarningMembersAreLiteral()
    ensures var ms := ["bg_yellow", "white"];
            forall i :: 0 <= i < |ms| ==> IsLiteral(Lower(ms[i]))
  {
    TestThemeStyles();
  }

  /** testSupportsThemes: the theme key `white` does not override the literal style. */
  lemma ThemeDoesNotOverrideLiteral(text: string)
    ensures Acyclic(TestTheme())
    ensures Stylize(TestTheme(), true, "white", text) == Ok(Wrap("37", text))
  {
    TestThemeAcyclic();
    TestThemeStyles();
    LiteralWinsOverTheme(TestTheme(), "white", text);
  }

  /**
   * testCleansStyles and testStripsStyles, for any escape-free text and any chain of literal
   * styles: a new object made from the styled string cleans, and strips, back to the text.
   */
  lemma CleansStyles(text: string, styles: seq<string>)
    requires NoSgr(text)
    requires forall i :: 0 <= i < |styles| ==> Lower(styles[i]) in Codes
    ensures Acyclic(map[])
    ensures var s := ToString(ApplyAll(New(text), true, styles).color);
            ToString(CleanWrapped(New(s))) == text && ToString(Strip(New(s))) == text
  {
    EmptyThemeAcyclic();
    LiteralChainNests(New(text), styles);
    CleanUndoesChain(New(text), true, styles);
    CleanFixesExactlySgrFree(text);
  }

  /** The tests' instance: `color('foo')->red()->highlight('green')`, then clean() or strip(). */
  lemma CleansRedOnGreen()
    ensures Acyclic(map[])
    ensures var s := ToString(Highlight(Apply(New("foo"), true, "red").color, true, "green").color);
            ToString(CleanWrapped(New(s))) == "foo" && ToString(Strip(New(s))) == "foo"
  {
    assert "bg_" + "green" == "bg_green";
    EmptyThemeAcyclic();
    RedAndGreenAreLiteral();
    HighlightAfterLiteral(New("foo"), "red", "green");
    assert ["red", "bg_" + "green"] == ["red", "bg_green"];
    FooHasNoEscape();
    CleansStyles("foo", ["red", "bg_green"]);
  }

  /** A literal style followed by highlight() is the chain of that style and the "bg_" style. */
  lemma HighlightAfterLiteral(c: Color, style: string, color: string)
    requires Acyclic(c.theme)
    requires Lower(style) in Codes
    ensures Highlight(Apply(c, true, style).color, true, color) == ApplyAll(c, true, [style, "bg_" + color])
  {
    var s := Apply(c, true, style);
    var styles := [style, "bg_" + color];
    assert styles[0] == style && styles[1..] == ["bg_" + color];
    var t := Apply(s.color, true, "bg_" + color);
    assert ApplyAll(s.color, true, ["bg_" + color]) == t by {
      assert ["bg_" + color][1..] == [];
      if t.error.None? {
        assert ApplyAll(t.color, true, []) == Step(t.color, None);
      }
    }
  }

  lemma FooHasNoEscape()
    ensures NoSgr("foo")
  {
    forall i, j | 0 <= i <= j <= 3
      ensures !IsSgr("foo"[i..j])
    {
    }
  }

  lemma RedAndGreenAreLiteral()
    ensures Lower("red") in Codes && Lower("bg_green") in Codes
    ensures var styles := ["red", "bg_green"];
            forall i :: 0 <= i < |styles| ==> Lower(styles[i]) in Codes
  {
    ForegroundEntries();
    BackgroundEntries();
    LiteralNamesAreLowercaseNames("red");
    LiteralNamesAreLowercaseNames("bg_green");
  }

  /** testOnlyDecoratesWhenSupported: without terminal support the text is left alone. */
  lemma OnlyDecoratesWhenSupported(theme: Theme, style: string)
    ensures Apply(Color("foo bar", "foo bar", theme), false, style) == Step(Color("foo bar", "foo bar", theme), None)
  {
  }

  /** A theme whose second key fails the pattern is refused with that key, and the theme is kept. */
  lemma RejectsBadThemeKey(c: Color, good: string, bad: string, e1: Entry, e2: Entry)
    requires IsValidStyleName(good) && !IsValidStyleName(bad)
    ensures SetTheme(c, [(good, e1), (bad, e2)]) == Step(c, Some(InvalidStyleName(bad)))
  {
    var pairs := [(good, e1), (bad, e2)];
    assert !IsValidStyleName(pairs[1].0);
    assert IsValidStyleName(pairs[0].0);
  }

  /** "foo-bar" has a character outside the pattern. */
  lemma FooBarIsNotAStyleName()
    ensures IsValidStyleName("ok") && !IsValidStyleName("foo-bar")
  {
    assert IsName("ok");
    var s := "foo-bar";
    assert s[3] == '-' && !IsNameChar(s[3]);
    assert s[|s| - 1] == 'r';
  }

  /** `$` admits one final newline, so such a key passes the pattern. */
  lemma AcceptsKeyWithFinalNewline()
    ensures IsValidStyleName("foo\n")
    ensures !IsName("foo\n")
  {
    assert "foo\n"[..3] == "foo";
    assert !IsNameChar("foo\n"[3]);
  }

  /** A content without "<" holds no closing tag. */
  lemma NoLtMeansNoClose(content: string, name: string)
    requires forall i :: 0 <= i < |content| ==> content[i] != '<'
    ensures NoCloseIn(content, name)
  {
    forall j: nat, e: nat
      ensures !ClosesAt(content, name, j, e)
    {
      if j < e <= |content| {
        assert content[j..e][0] == content[j];
      }
    }
  }

  /** No byte of a name is "<", "/" or ">". */
  lemma NameBytes(name: string)
    requires IsName(name)
    ensures forall i :: 0 <= i < |name| ==> name[i] != '<' && name[i] != '/' && name[i] != '>'
  {
  }


  /**
   * A tag naming a literal style after plain text, as in the colorize example
   * "before <red>some text</red>": the content is wrapped in the style's codes.
   */
  lemma ColorizeTagAfterText(pre: string, name: string, content: string)
    requires IsLiteral(name)
    requires forall i :: 0 <= i < |pre| ==> pre[i] != '<'
    requires forall i :: 0 <= i < |content| ==> content[i] != '<'
    ensures Acyclic(map[])
    ensures Colorize(map[], true, pre + "<" + name + ">" + content + CloseTag(name))
            == Ok(pre + Wrap(Codes[name], content))
  {
    EmptyThemeAcyclic();
    LiteralNamesAreLowercaseNames(name);
    NoLtMeansNoClose(content, name);
    ColorizeOneTag(map[], true, pre, name, content, CloseTag(name), "");
    AppendEmpty(pre + "<" + name + ">" + content + CloseTag(name));
    LiteralWinsOverTheme(map[], name, content);
    assert Colorize(map[], true, content) == Ok(content);
    ColorizeEmpty();
    AppendEmpty(pre + Wrap(Codes[name], content));
  }

  /** Appending nothing leaves a text unchanged. */
  lemma AppendEmpty(s: string)
    ensures s + "" == s
  {
  }

  /** The only "<" of a "<inner>" b "</inner>" open and close `inner`, so no other name closes there. */
  lemma InnerTagClosesNoOther(outer: string, inner: string, a: string, b: string)
    requires IsName(outer) && IsName(inner) && outer != inner
    requires forall i :: 0 <= i < |a| ==> a[i] != '<'
    requires forall i :: 0 <= i < |b| ==> b[i] != '<'
    ensures NoCloseIn(a + "<" + inner + ">" + b + CloseTag(inner), outer)
  {
    forall j: nat, e: nat
      ensures !ClosesAt(a + "<" + inner + ">" + b + CloseTag(inner), outer, j, e)
    {
      InnerTagClosesNoOtherAt(outer, inner, a, b, j, e);
    }
  }

  lemma InnerTagClosesNoOtherAt(outer: string, inner: string, a: string, b: string, j: nat, e: nat)
    requires IsName(outer) && IsName(inner) && outer != inner
    requires forall i :: 0 <= i < |a| ==> a[i] != '<'
    requires forall i :: 0 <= i < |b| ==> b[i] != '<'
    ensures !ClosesAt(a + "<" + inner + ">" + b + CloseTag(inner), outer, j, e)
  {
    var content := a + "<" + inner + ">" + b + CloseTag(inner);
    var second := |a| + |inner| + 2 + |b|;
    NameBytes(inner);
    if j + 3 <= e <= |content| {
      var x := content[j..e];
      assert x[0] == content[j] && x[1] == content[j + 1];
      InnerTagLt(content, a, inner, b, j);
      if content[j] == '<' {
        if j == |a| {
          assert content[j + 1] == inner[0];
        } else {
          assert content[second..] == CloseTag(inner);
          assert x == CloseTag(inner)[..e - j];
          ClosingPrefix(outer, inner, x);
        }
      }
    }
  }

  /** Where a "<" can stand in a "<inner>" b "</inner>". */
  lemma InnerTagLt(content: string, a: string, inner: string, b: string, j: nat)
    requires IsName(inner)
    requires forall i :: 0 <= i < |a| ==> a[i] != '<'
    requires forall i :: 0 <= i < |b| ==> b[i] != '<'
    requires content == a + "<" + inner + ">" + b + CloseTag(inner)
    requires j < |content|
    ensures content[j] == '<' ==> j == |a| || j == |a| + |inner| + 2 + |b|
  {
    NameBytes(inner);
    var second := |a| + |inner| + 2 + |b|;
    var ci := CloseTag(inner);
    if j < |a| {
      assert content[j] == a[j];
    } else if |a| < j < |a| + 1 + |inner| {
      assert content[j] == inner[j - |a| - 1];
    } else if j == |a| + 1 + |inner| {
      assert content[j] == '>';
    } else if |a| + 1 + |inner| < j < second {
      assert content[j] == b[j - |a| - |inner| - 2];
    } else if j > second {
      assert content[j] == ci[j - second];
      if 2 <= j - second < |inner| + 2 {
        assert ci[j - second] == inner[j - second - 2];
      }
    }
  }

  /** A prefix of "</inner>" that is a closing tag for `outer` forces outer == inner. */
  lemma ClosingPrefix(outer: string, inner: string, x: string)
    requires IsName(outer) && IsName(inner)
    requires 3 <= |x| <= |CloseTag(inner)| && x == CloseTag(inner)[..|x|]
    ensures x == CloseTag(outer) || x == "</>" ==> outer == inner
  {
    NameBytes(inner);
    var ci := CloseTag(inner);
    assert x[2] == ci[2] == inner[0];
    var n := |outer|;
    assert forall k :: 0 <= k < |inner| ==> ci[k + 2] == inner[k];
    if x == CloseTag(outer) {
      assert x[n + 2] == '>' && x[n + 2] == ci[n + 2];
      assert n == |inner|;
      forall k | 0 <= k < n
        ensures outer[k] == inner[k]
      {
        assert x[k + 2] == outer[k];
        assert ci[k + 2] == inner[k];
      }
    }
  }

  /** A literal tag around a content holding no closing tag for it wraps the content's expansion. */
  lemma ColorizeLiteralAround(name: string, content: string, expanded: string)
    requires IsLiteral(name)
    requires NoCloseIn(content, name)
    requires Acyclic(map[]) && Colorize(map[], true, content) == Ok(expanded)
    ensures Colorize(map[], true, "<" + name + ">" + content + CloseTag(name)) == Ok(Wrap(Codes[name], expanded))
  {
    assert "" + "<" + name + ">" + content + CloseTag(name) + "" == "<" + name + ">" + content + CloseTag(name);
    var styled := Wrap(Codes[name], expanded);
    assert "" + styled + "" == styled;
    LiteralNamesAreLowercaseNames(name);
    ColorizeOneTag(map[], true, "", name, content, CloseTag(name), "");
    LiteralWinsOverTheme(map[], name, expanded);
    ColorizeEmpty();
    SpliceSucceeds(map[], true, "", name, content, "", expanded, styled, "");
  }

  /**
   * Nested tags, as in the example "<cyan>Hello <bold>World!</bold></cyan>": the inner tag
   * expands first, then the outer style wraps the result.
   */
  lemma ColorizeNested(outer: string, inner: string, a: string, b: string, content: string)
    requires IsLiteral(outer) && IsLiteral(inner) && outer != inner
    requires forall i :: 0 <= i < |a| ==> a[i] != '<'
    requires forall i :: 0 <= i < |b| ==> b[i] != '<'
    requires content == a + "<" + inner + ">" + b + CloseTag(inner)
    ensures Acyclic(map[])
    ensures Colorize(map[], true, "<" + outer + ">" + content + CloseTag(outer))
            == Ok(Wrap(Codes[outer], a + Wrap(Codes[inner], b)))
  {
    InnerTag(outer, inner, a, b);
    ColorizeLiteralAround(outer, content, a + Wrap(Codes[inner], b));
  }

  /** The inner tag of the nested example expands alone and closes no outer tag. */
  lemma InnerTag(outer: string, inner: string, a: string, b: string)
    requires IsLiteral(outer) && IsLiteral(inner) && outer != inner
    requires forall i :: 0 <= i < |a| ==> a[i] != '<'
    requires forall i :: 0 <= i < |b| ==> b[i] != '<'
    ensures Acyclic(map[])
    ensures NoCloseIn(a + "<" + inner + ">" + b + CloseTag(inner), outer)
    ensures Colorize(map[], true, a + "<" + inner + ">" + b + CloseTag(inner)) == Ok(a + Wrap(Codes[inner], b))
  {
    LiteralNamesAreLowercaseNames(outer);
    LiteralNamesAreLowercaseNames(inner);
    InnerTagClosesNoOther(outer, inner, a, b);
    ColorizeTagAfterText(a, inner, b);
  }


  /** Nothing to expand in the empty text. */
  lemma ColorizeEmpty()
    ensures Acyclic(map[])
    ensures Colorize(map[], true, "") == Ok("")
  {
    EmptyThemeAcyclic();
  }

  /** A tag naming no style throws Invalid style, whether it closes with its own name or with "</>". */
  lemma ColorizeUnknownTag(theme: Theme, name: string, content: string)
    requires Acyclic(theme)
    requires IsName(name) && IsUnknown(theme, name)
    requires forall i :: 0 <= i < |content| ==> content[i] != '<'
    ensures Colorize(theme, true, "<" + name + ">" + content + "</>") == Err(InvalidStyle(name))
    ensures Colorize(theme, true, "<" + name + ">" + content + CloseTag(name)) == Err(InvalidStyle(name))
  {
    UnknownTagClosedBy(theme, name, content, "</>");
    UnknownTagClosedBy(theme, name, content, CloseTag(name));
  }

  lemma UnknownTagClosedBy(theme: Theme, name: string, content: string, close: string)
    requires Acyclic(theme)
    requires IsName(name) && IsUnknown(theme, name)
    requires forall i :: 0 <= i < |content| ==> content[i] != '<'
    requires close == CloseTag(name) || close == "</>"
    ensures Colorize(theme, true, "<" + name + ">" + content + close) == Err(InvalidStyle(name))
  {
    assert "" + "<" + name + ">" + content + close + "" == "<" + name + ">" + content + close;
    NoLtMeansNoClose(content, name);
    ColorizeOneTag(theme, true, "", name, content, close, "");
    UnknownStyleFails(theme, name, content);
  }

}
