/** Color::_stylize: resolving a style name against the literal table and the theme. */
module Stylizer {
  import opened Results
  import opened Chars
  import opened StyleTable
  import opened Themes
  import opened Escapes

  /** The name _stylize reports for an unknown style: lowercased, neither literal nor a theme key. */
  predicate IsUnknown(theme: Theme, name: string) {
    Lower(name) == name && !IsLiteral(name) && name !in theme
  }

  /**
   * `_stylize($style, $text)`. With styling disabled the text comes back as is, whatever the
   * name. Otherwise the lowercased name is looked up in the literal table first, then in the
   * theme, whose members are applied in order to the text; any other name throws.
   */
  function Stylize(theme: Theme, enabled: bool, style: string, text: string): (r: Result<string>)
    requires enabled ==> Acyclic(theme)
    ensures !enabled ==> r == Ok(text)
    ensures r.Ok? ==> Clean(r.value) == Clean(text)
    ensures r.Err? ==> r.error.InvalidStyle? && IsUnknown(theme, r.error.style)
    decreases Measure(theme, style), 1
  {
    if !enabled then Ok(text)
    else
      var s := Lower(style);
      LowerIdempotent(style);
      if IsLiteral(s) then
        CodesAreDigits(s);
        CleanWrap(Codes[s], text);
        Ok(Wrap(Codes[s], text))
      else if s in theme then
        MembersBelow(theme, style);
        StylizeEach(theme, Members(theme[s]), text, Measure(theme, style))
      else
        Err(InvalidStyle(s))
  }

  /** The `foreach` over a theme entry: each style wraps the result of the previous one. */
  function StylizeEach(theme: Theme, styles: seq<string>, text: string, ghost bound: nat): (r: Result<string>)
    requires Acyclic(theme)
    requires forall i :: 0 <= i < |styles| ==> Measure(theme, styles[i]) < bound
    ensures r.Ok? ==> Clean(r.value) == Clean(text)
    ensures r.Err? ==> r.error.InvalidStyle? && IsUnknown(theme, r.error.style)
    decreases bound, 0, |styles|
  {
    if styles == [] then Ok(text)
    else
      var t :- Stylize(theme, true, styles[0], text);
      StylizeEach(theme, styles[1..], t, bound)
  }

  /**
   * Resolution on its own: the ordered list of SGR codes a style name stands for, the first
   * code innermost. An alias contributes its members' codes in member order.
   */
  function Resolve(theme: Theme, style: string): (r: Result<seq<string>>)
    requires Acyclic(theme)
    ensures r.Ok? ==> forall i :: 0 <= i < |r.value| ==> r.value[i] in Codes.Values
    ensures r.Err? ==> r.error.InvalidStyle? && IsUnknown(theme, r.error.style)
    decreases Measure(theme, style), 1
  {
    var s := Lower(style);
    LowerIdempotent(style);
    if IsLiteral(s) then Ok([Codes[s]])
    else if s in theme then
      MembersBelow(theme, style);
      ResolveEach(theme, Members(theme[s]), Measure(theme, style))
    else Err(InvalidStyle(s))
  }

  function ResolveEach(theme: Theme, styles: seq<string>, ghost bound: nat): (r: Result<seq<string>>)
    requires Acyclic(theme)
    requires forall i :: 0 <= i < |styles| ==> Measure(theme, styles[i]) < bound
    ensures r.Ok? ==> forall i :: 0 <= i < |r.value| ==> r.value[i] in Codes.Values
    ensures r.Err? ==> r.error.InvalidStyle? && IsUnknown(theme, r.error.style)
    decreases bound, 0, |styles|
  {
    if styles == [] then Ok([])
    else
      var first :- Resolve(theme, styles[0]);
      var rest :- ResolveEach(theme, styles[1..], bound);
      Ok(first + rest)
  }

  /** Wrap `text` in each code in turn: the first code ends up innermost. */
  function WrapAll(codes: seq<string>, text: string): (r: string)
    ensures (forall i :: 0 <= i < |codes| ==> IsCode(codes[i])) ==> Clean(r) == Clean(text)
    ensures |r| >= |text|
    decreases |codes|
  {
    if codes == [] then text
    else if IsCode(codes[0]) then
      CleanWrap(codes[0], text);
      WrapAll(codes[1..], Wrap(codes[0], text))
    else WrapAll(codes[1..], Wrap(codes[0], text))
  }

  /** Wrapping with a concatenation of code lists is wrapping with one list, then the other. */
  lemma {:induction false} WrapAllAppend(a: seq<string>, b: seq<string>, text: string)
    ensures WrapAll(a + b, text) == WrapAll(b, WrapAll(a, text))
    decreases |a|
  {
    if a != [] {
      assert (a + b)[1..] == a[1..] + b;
      WrapAllAppend(a[1..], b, Wrap(a[0], text));
    } else {
      assert a + b == b;
    }
  }

  /**
   * With styling enabled, _stylize is resolution followed by wrapping: it fails exactly when
   * resolution fails, with the same error, and otherwise wraps with the resolved codes.
   */
  lemma {:induction false} StylizeIsResolveThenWrap(theme: Theme, style: string, text: string)
    requires Acyclic(theme)
    ensures Resolve(theme, style).Ok? ==> Stylize(theme, true, style, text) == Ok(WrapAll(Resolve(theme, style).value, text))
    ensures Resolve(theme, style).Err? ==> Stylize(theme, true, style, text) == Err(Resolve(theme, style).error)
    decreases Measure(theme, style), 1
  {
    var s := Lower(style);
    if IsLiteral(s) {
      assert WrapAll([Codes[s]], text) == WrapAll([], Wrap(Codes[s], text));
    } else if s in theme {
      MembersBelow(theme, style);
      StylizeEachIsResolveThenWrap(theme, Members(theme[s]), text, Measure(theme, style));
    }
  }

  lemma {:induction false} StylizeEachIsResolveThenWrap(theme: Theme, styles: seq<string>, text: string, bound: nat)
    requires Acyclic(theme)
    requires forall i :: 0 <= i < |styles| ==> Measure(theme, styles[i]) < bound
    ensures ResolveEach(theme, styles, bound).Ok? ==>
              StylizeEach(theme, styles, text, bound) == Ok(WrapAll(ResolveEach(theme, styles, bound).value, text))
    ensures ResolveEach(theme, styles, bound).Err? ==>
              StylizeEach(theme, styles, text, bound) == Err(ResolveEach(theme, styles, bound).error)
    decreases bound, 0, |styles|
  {
    if styles != [] {
      StylizeIsResolveThenWrap(theme, styles[0], text);
      match Resolve(theme, styles[0])
      case Err(_) =>
      case Ok(first) =>
        var t := WrapAll(first, text);
        StylizeEachIsResolveThenWrap(theme, styles[1..], t, bound);
        match ResolveEach(theme, styles[1..], bound)
        case Err(_) =>
        case Ok(rest) =>
          WrapAllAppend(first, rest, text);
    }
  }

  /** The theme with no aliases. */
  lemma EmptyThemeAcyclic()
    ensures Acyclic(map[])
  {
    assert Ranked(map[], map[]);
  }

  /**
   * A name that lowercases to a literal style gives that style's template, whatever the
   * theme holds: a theme key such as `white` never overrides the literal `white`.
   */
  lemma LiteralWinsOverTheme(theme: Theme, style: string, text: string)
    requires Acyclic(theme)
    requires IsLiteral(Lower(style))
    ensures Stylize(theme, true, style, text) == Ok(Wrap(Codes[Lower(style)], text))
  {
  }

  /** Style names are case-insensitive: _stylize lowercases before every lookup. */
  lemma StylizeIgnoresCase(theme: Theme, enabled: bool, style: string, text: string)
    requires enabled ==> Acyclic(theme)
    ensures Stylize(theme, enabled, style, text) == Stylize(theme, enabled, Lower(style), text)
  {
    LowerIdempotent(style);
  }

  /**
   * Theme keys are stored as given but looked up lowercased, so a key holding an upper-case
   * letter is never the name looked up.
   */
  lemma UpperCaseKeyUnreachable(style: string, key: string)
    requires exists i :: 0 <= i < |key| && IsUpper(key[i])
    ensures Lower(style) != key
  {
  }

  /** A name neither literal nor in the theme throws "Invalid style <lowercased name>". */
  lemma UnknownStyleFails(theme: Theme, style: string, text: string)
    requires Acyclic(theme)
    requires !IsLiteral(Lower(style)) && Lower(style) !in theme
    ensures Stylize(theme, true, style, text) == Err(InvalidStyle(Lower(style)))
    ensures Stylize(theme, true, style, text).error.Message() == "Invalid style " + Lower(style)
  {
  }

  /** An alias to a single style behaves exactly like that style. */
  lemma AliasOfOneStyle(theme: Theme, alias: string, member: string, text: string)
    requires Acyclic(theme)
    requires !IsLiteral(Lower(alias)) && Lower(alias) in theme
    requires theme[Lower(alias)] == Single(member) || theme[Lower(alias)] == Sequence([member])
    ensures Stylize(theme, true, alias, text) == Stylize(theme, true, member, text)
  {
    MembersBelow(theme, alias);
    var ms := Members(theme[Lower(alias)]);
    var b := Measure(theme, alias);
    assert ms == [member];
    match Stylize(theme, true, member, text)
    case Err(_) =>
    case Ok(t) =>
      assert ms[1..] == [];
      assert StylizeEach(theme, ms[1..], t, b) == Ok(t);
  }

  /** The codes of a list of literal styles, in list order. */
  function LiteralCodes(styles: seq<string>): (r: seq<string>)
    requires forall i :: 0 <= i < |styles| ==> Lower(styles[i]) in Codes
    ensures |r| == |styles|
    ensures forall i :: 0 <= i < |styles| ==> r[i] == Codes[Lower(styles[i])]
  {
    if styles == [] then [] else [Codes[Lower(styles[0])]] + LiteralCodes(styles[1..])
  }

  /**
   * An alias whose members are literal styles applies them as a left fold: the first member
   * is the innermost wrap, the last the outermost.
   */
  lemma AliasOfLiteralsFoldsLeft(theme: Theme, alias: string, text: string)
    requires Acyclic(theme)
    requires !IsLiteral(Lower(alias)) && Lower(alias) in theme
    requires var ms := Members(theme[Lower(alias)]);
             forall i :: 0 <= i < |ms| ==> IsLiteral(Lower(ms[i]))
    ensures Stylize(theme, true, alias, text) == Ok(WrapAll(LiteralCodes(Members(theme[Lower(alias)])), text))
  {
    MembersBelow(theme, alias);
    var ms := Members(theme[Lower(alias)]);
    StylizeIsResolveThenWrap(theme, alias, text);
    ResolveEachOfLiterals(theme, ms, Measure(theme, alias));
  }

  lemma {:induction false} ResolveEachOfLiterals(theme: Theme, styles: seq<string>, bound: nat)
    requires Acyclic(theme)
    requires forall i :: 0 <= i < |styles| ==> Measure(theme, styles[i]) < bound
    requires forall i :: 0 <= i < |styles| ==> IsLiteral(Lower(styles[i]))
    ensures ResolveEach(theme, styles, bound) == Ok(LiteralCodes(styles))
    decreases |styles|
  {
    if styles != [] {
      ResolveEachOfLiterals(theme, styles[1..], bound);
    }
  }
}
