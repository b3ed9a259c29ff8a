/** The Color object of lib/Colors/Color.php: its state and its public operations. */
module Colors {
  import opened Results
  import opened Chars
  import opened StyleTable
  import opened Themes
  import opened Stylizer
  import opened Escapes
  import opened Markup

  /** `$_initial`, `$_wrapped` and `$_theme`. */
  datatype Color = Color(initial: string, wrapped: string, theme: Theme)

  /** The object after a call that may throw, and what it threw. */
  datatype Step = Step(color: Color, error: Option<Error>)

  /** `new Color($string)`: no theme yet. */
  function New(text: string): (r: Color)
    ensures r.initial == text && r.wrapped == text && r.theme == map[]
  {
    Color(text, text, map[])
  }

  /** `$color($string)`: the same object now holds a fresh, unstyled text; the theme stays. */
  function Invoke(c: Color, text: string): (r: Color)
    ensures r.initial == text && r.wrapped == text
    ensures r.theme == c.theme
  {
    c.(initial := text, wrapped := text)
  }

  /** `(string) $color`: the stored, possibly styled, text. */
  function ToString(c: Color): (r: string)
    ensures r == c.wrapped
  {
    c.wrapped
  }

  /**
   * `apply($style)` with no text: the current wrapped text is styled and stored. On an
   * exception `$_wrapped` is left as it was, since it is assigned only after _stylize returns.
   */
  function Apply(c: Color, enabled: bool, style: string): (r: Step)
    requires enabled ==> Acyclic(c.theme)
    ensures r.color.initial == c.initial && r.color.theme == c.theme
    ensures r.error.Some? ==> r.color == c && r.error.value.InvalidStyle?
    ensures !enabled ==> r == Step(c, None)
    ensures r.error.None? ==> Clean(r.color.wrapped) == Clean(c.wrapped)
  {
    match Stylize(c.theme, enabled, style, c.wrapped)
    case Ok(w) => Step(c.(wrapped := w), None)
    case Err(e) => Step(c, Some(e))
  }

  /** `apply($style, $text)`: the styled text is returned and the object is not touched. */
  function ApplyTo(c: Color, enabled: bool, style: string, text: string): (r: Result<string>)
    requires enabled ==> Acyclic(c.theme)
    ensures !enabled ==> r == Ok(text)
    ensures r.Ok? ==> Clean(r.value) == Clean(text)
    ensures r.Err? ==> r.error.InvalidStyle?
  {
    Stylize(c.theme, enabled, style, text)
  }

  /** `fg($color)`. */
  function Fg(c: Color, enabled: bool, color: string): (r: Step)
    requires enabled ==> Acyclic(c.theme)
    ensures r.color.initial == c.initial && r.color.theme == c.theme
    ensures r.error.Some? ==> r.color == c
    ensures !enabled ==> r == Step(c, None)
  {
    Apply(c, enabled, color)
  }

  /** `fg($color, $text)`. */
  function FgTo(c: Color, enabled: bool, color: string, text: string): (r: Result<string>)
    requires enabled ==> Acyclic(c.theme)
    ensures !enabled ==> r == Ok(text)
    ensures r.Ok? ==> Clean(r.value) == Clean(text)
  {
    ApplyTo(c, enabled, color, text)
  }

  /** `bg($color)`: the background style of the same color. */
  function Bg(c: Color, enabled: bool, color: string): (r: Step)
    requires enabled ==> Acyclic(c.theme)
    ensures r.color.initial == c.initial && r.color.theme == c.theme
    ensures r.error.Some? ==> r.color == c
    ensures !enabled ==> r == Step(c, None)
  {
    Apply(c, enabled, "bg_" + color)
  }

  /** `bg($color, $text)`. */
  function BgTo(c: Color, enabled: bool, color: string, text: string): (r: Result<string>)
    requires enabled ==> Acyclic(c.theme)
    ensures !enabled ==> r == Ok(text)
    ensures r.Ok? ==> Clean(r.value) == Clean(text)
  {
    ApplyTo(c, enabled, "bg_" + color, text)
  }

  /** `highlight($color)`. */
  function Highlight(c: Color, enabled: bool, color: string): (r: Step)
    requires enabled ==> Acyclic(c.theme)
    ensures r.color.initial == c.initial && r.color.theme == c.theme
    ensures r.error.Some? ==> r.color == c
    ensures !enabled ==> r == Step(c, None)
  {
    Bg(c, enabled, color)
  }

  /** `highlight($color, $text)`. */
  function HighlightTo(c: Color, enabled: bool, color: string, text: string): (r: Result<string>)
    requires enabled ==> Acyclic(c.theme)
    ensures !enabled ==> r == Ok(text)
    ensures r.Ok? ==> Clean(r.value) == Clean(text)
  {
    BgTo(c, enabled, color, text)
  }

  /** `reset()`: back to the text the object was given. */
  function Reset(c: Color): (r: Color)
    ensures r.wrapped == c.initial
    ensures r.initial == c.initial && r.theme == c.theme
  {
    c.(wrapped := c.initial)
  }

  /** `clean()` with no text: strip the escape sequences from the stored text. */
  function CleanWrapped(c: Color): (r: Color)
    ensures r.initial == c.initial && r.theme == c.theme
    ensures r.wrapped == Clean(c.wrapped)
    ensures r == c <==> NoSgr(c.wrapped)
  {
    CleanFixesExactlySgrFree(c.wrapped);
    c.(wrapped := Clean(c.wrapped))
  }

  /** `clean($text)`: the text without its escape sequences; the object is not touched. */
  function CleanTo(text: string): (r: string)
    ensures r == Clean(text)
    ensures r == text <==> NoSgr(text)
  {
    CleanFixesExactlySgrFree(text);
    Clean(text)
  }

  /** `strip()`, an alias of clean(). */
  function Strip(c: Color): (r: Color)
    ensures r.initial == c.initial && r.theme == c.theme
    ensures r.wrapped == Clean(c.wrapped)
  {
    CleanWrapped(c)
  }

  /** `strip($text)`, an alias of clean($text). */
  function StripTo(text: string): (r: string)
    ensures r == Clean(text)
  {
    CleanTo(text)
  }

  /**
   * `setTheme($theme)`: every key is checked against the style name pattern before the theme
   * is assigned, so a bad key throws and leaves the old theme; otherwise the new theme
   * replaces the old one whole.
   */
  function SetTheme(c: Color, pairs: seq<(string, Entry)>): (r: Step)
    ensures r.error.Some? <==> exists i :: 0 <= i < |pairs| && !IsValidStyleName(pairs[i].0)
    ensures r.error.Some? ==> r.color == c
    ensures r.error.Some? ==> exists i :: 0 <= i < |pairs| && r.error.value == InvalidStyleName(pairs[i].0)
                                           && !IsValidStyleName(pairs[i].0)
                                           && forall j :: 0 <= j < i ==> IsValidStyleName(pairs[j].0)
    ensures r.error.None? ==> r.color == c.(theme := ToTheme(pairs))
  {
    match FirstInvalidName(pairs)
    case Some(i) => Step(c, Some(InvalidStyleName(pairs[i].0)))
    case None => Step(c.(theme := ToTheme(pairs)), None)
  }

  /** `colorize()` with no text: expand the tags of the stored text; it is kept on an exception. */
  function ColorizeWrapped(c: Color, enabled: bool): (r: Step)
    requires enabled ==> Acyclic(c.theme)
    ensures r.color.initial == c.initial && r.color.theme == c.theme
    ensures Colorize(c.theme, enabled, c.wrapped).Ok? ==>
              r == Step(c.(wrapped := Colorize(c.theme, enabled, c.wrapped).value), None)
    ensures Colorize(c.theme, enabled, c.wrapped).Err? ==>
              r == Step(c, Some(Colorize(c.theme, enabled, c.wrapped).error))
    ensures r.error.Some? ==> r.error.value.InvalidStyle?
    ensures !enabled ==> r.error.None?
  {
    match Colorize(c.theme, enabled, c.wrapped)
    case Ok(w) => Step(c.(wrapped := w), None)
    case Err(e) => Step(c, Some(e))
  }

  /** `colorize($text)`. */
  function ColorizeTo(c: Color, enabled: bool, text: string): (r: Result<string>)
    requires enabled ==> Acyclic(c.theme)
    ensures !enabled ==> r.Ok?
    ensures r.Err? ==> r.error.InvalidStyle?
    ensures (forall i :: 0 <= i < |text| ==> text[i] != '<') ==> r == Ok(text)
  {
    Colorize(c.theme, enabled, text)
  }

  /** A chain `$color->s1()->s2()...`: each call wraps the previous result; the first throw ends it. */
  function ApplyAll(c: Color, enabled: bool, styles: seq<string>): (r: Step)
    requires enabled ==> Acyclic(c.theme)
    ensures r.color.theme == c.theme
    decreases |styles|
  {
    if styles == [] then Step(c, None)
    else
      var s := Apply(c, enabled, styles[0]);
      if s.error.Some? then s else ApplyAll(s.color, enabled, styles[1..])
  }

  /** However a chain of stateful calls ends, reset() gives back the original text. */
  lemma {:induction false} ResetRestoresInitial(c: Color, enabled: bool, styles: seq<string>)
    requires enabled ==> Acyclic(c.theme)
    ensures ApplyAll(c, enabled, styles).color.initial == c.initial
    ensures Reset(ApplyAll(c, enabled, styles).color).wrapped == c.initial
    decreases |styles|
  {
    if styles != [] {
      var s := Apply(c, enabled, styles[0]);
      if s.error.None? {
        ResetRestoresInitial(s.color, enabled, styles[1..]);
      }
    }
  }

  /** clean() undoes any successful chain of stateful styling calls. */
  lemma {:induction false} CleanUndoesChain(c: Color, enabled: bool, styles: seq<string>)
    requires enabled ==> Acyclic(c.theme)
    requires ApplyAll(c, enabled, styles).error.None?
    ensures Clean(ApplyAll(c, enabled, styles).color.wrapped) == Clean(c.wrapped)
    decreases |styles|
  {
    if styles != [] {
      var s := Apply(c, enabled, styles[0]);
      CleanUndoesChain(s.color, enabled, styles[1..]);
    }
  }

  /**
   * A chain of literal styles nests in call order: each later call is the outer layer, so
   * `->red()->bold()` gives bold(red(text)).
   */
  lemma {:induction false} LiteralChainNests(c: Color, styles: seq<string>)
    requires Acyclic(c.theme)
    requires forall i :: 0 <= i < |styles| ==> Lower(styles[i]) in Codes
    ensures ApplyAll(c, true, styles) == Step(c.(wrapped := WrapAll(LiteralCodes(styles), c.wrapped)), None)
    decreases |styles|
  {
    if styles != [] {
      var s := Apply(c, true, styles[0]);
      assert s.color == c.(wrapped := Wrap(Codes[Lower(styles[0])], c.wrapped));
      LiteralChainNests(s.color, styles[1..]);
    }
  }

  /** A stateful call and the explicit-text form style the text the same way. */
  lemma ApplyMatchesApplyTo(c: Color, enabled: bool, style: string)
    requires enabled ==> Acyclic(c.theme)
    ensures ApplyTo(c, enabled, style, c.wrapped).Ok? <==> Apply(c, enabled, style).error.None?
    ensures ApplyTo(c, enabled, style, c.wrapped).Ok? ==>
              ApplyTo(c, enabled, style, c.wrapped).value == ToString(Apply(c, enabled, style).color)
  {
  }

  /**
   * clean() on the object and clean($text) on its string agree, strip is clean under both
   * forms, and cleaning after a successful stateful call gives what cleaning before it gave.
   */
  lemma CleanMatchesCleanTo(c: Color, enabled: bool, style: string)
    requires enabled ==> Acyclic(c.theme)
    ensures ToString(CleanWrapped(c)) == CleanTo(ToString(c))
    ensures Strip(c) == CleanWrapped(c) && StripTo(ToString(c)) == CleanTo(ToString(c))
    ensures Apply(c, enabled, style).error.None? ==>
              ToString(CleanWrapped(Apply(c, enabled, style).color)) == ToString(CleanWrapped(c))
  {
  }

  /** A stateful colorize() and colorize($text) on the stored text expand it the same way. */
  lemma ColorizeMatchesColorizeTo(c: Color, enabled: bool)
    requires enabled ==> Acyclic(c.theme)
    ensures ColorizeTo(c, enabled, c.wrapped).Ok? <==> ColorizeWrapped(c, enabled).error.None?
    ensures ColorizeTo(c, enabled, c.wrapped).Ok? ==>
              ColorizeTo(c, enabled, c.wrapped).value == ToString(ColorizeWrapped(c, enabled).color)
    ensures ColorizeTo(c, enabled, c.wrapped).Err? ==>
              ColorizeWrapped(c, enabled) == Step(c, Some(ColorizeTo(c, enabled, c.wrapped).error))
  {
  }

  /**
   * The shortcuts: fg is apply; bg and highlight apply the "bg_" style of the color, which
   * for a color of the table is its background template.
   */
  lemma Shortcuts(c: Color, enabled: bool, color: string, text: string)
    requires enabled ==> Acyclic(c.theme)
    ensures FgTo(c, enabled, color, text) == ApplyTo(c, enabled, color, text)
    ensures Fg(c, enabled, color) == Apply(c, enabled, color)
    ensures BgTo(c, enabled, color, text) == ApplyTo(c, enabled, "bg_" + color, text)
    ensures Bg(c, enabled, color) == Apply(c, enabled, "bg_" + color)
    ensures HighlightTo(c, enabled, color, text) == BgTo(c, enabled, color, text)
    ensures Highlight(c, enabled, color) == Bg(c, enabled, color)
    ensures enabled && IsLiteral("bg_" + Lower(color)) ==>
              BgTo(c, enabled, color, text) == Ok(Wrap(Codes["bg_" + Lower(color)], text))
  {
    assert Lower("bg_" + color) == "bg_" + Lower(color);
  }
}
