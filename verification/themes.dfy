/** User themes: aliases that expand to one or more style names (Color::$_theme, setTheme). */
module Themes {
  import opened Results
  import opened Chars
  import opened StyleTable

  /** A theme value: a single style name, or an array of names applied in order. */
  datatype Entry = Single(style: string) | Sequence(styles: seq<string>)

  /** The style names an entry stands for: a single name is treated as a one-element array. */
  function Members(e: Entry): (r: seq<string>)
    ensures e.Single? ==> r == [e.style]
    ensures e.Sequence? ==> r == e.styles
  {
    match e
    case Single(s) => [s]
    case Sequence(ss) => ss
  }

  /** Keys are stored as given; lookups use the lowercased style name. */
  type Theme = map<string, Entry>

  /**
   * STYLE_NAME_PATTERN '/^[a-zA-Z_\x7f-\xff][a-zA-Z0-9_\x7f-\xff]*$/'. Without the D modifier
   * PCRE lets `$` match before a final newline, so one trailing "\n" is admitted.
   */
  predicate IsValidStyleName(name: string) {
    IsName(name) || (|name| >= 2 && name[|name| - 1] == '\n' && IsName(name[..|name| - 1]))
  }

  /**
   * A name passes with at most one trailing newline: `name + "\n"` is accepted although it
   * is not itself a name, and a second newline is refused.
   */
  lemma StyleNameFinalNewline(name: string)
    requires IsName(name)
    ensures IsValidStyleName(name) && IsValidStyleName(name + "\n")
    ensures !IsName(name + "\n") && !IsValidStyleName(name + "\n\n")
  {
    var n1 := name + "\n";
    var n2 := n1 + "\n";
    assert n1[..|n1| - 1] == name;
    assert !IsNameChar(n1[|n1| - 1]);
    assert !IsName(n1);
    assert n2[..|n2| - 1] == n1;
    assert !IsNameChar(n2[|n2| - 1]);
    assert !IsName(n2);
    assert n2 == name + "\n\n";
  }

  /**
   * The key setTheme complains about: the first key, in array order, that fails the pattern.
   * The theme is given as the PHP array's (key, value) pairs in iteration order.
   */
  function FirstInvalidName(pairs: seq<(string, Entry)>): (r: Option<nat>)
    ensures r.None? <==> forall i :: 0 <= i < |pairs| ==> IsValidStyleName(pairs[i].0)
    ensures r.Some? ==> r.value < |pairs| && !IsValidStyleName(pairs[r.value].0)
    ensures r.Some? ==> forall j :: 0 <= j < r.value ==> IsValidStyleName(pairs[j].0)
  {
    if pairs == [] then None
    else if !IsValidStyleName(pairs[0].0) then Some(0)
    else match FirstInvalidName(pairs[1..])
      case None => None
      case Some(k) => Some(k + 1)
  }

  /** The PHP array built from the pairs: a later duplicate key overwrites the earlier value. */
  function ToTheme(pairs: seq<(string, Entry)>): Theme
    decreases |pairs|
  {
    if pairs == [] then map[] else ToTheme(pairs[..|pairs| - 1])[pairs[|pairs| - 1].0 := pairs[|pairs| - 1].1]
  }

  /** The theme's keys are exactly the keys of the pairs. */
  lemma {:induction false} ToThemeKeys(pairs: seq<(string, Entry)>, k: string)
    ensures k in ToTheme(pairs) <==> exists i :: 0 <= i < |pairs| && pairs[i].0 == k
    decreases |pairs|
  {
    if pairs != [] {
      var front := pairs[..|pairs| - 1];
      ToThemeKeys(front, k);
      if exists i :: 0 <= i < |front| && front[i].0 == k {
        var i :| 0 <= i < |front| && front[i].0 == k;
        assert pairs[i].0 == k;
      }
      if exists i :: 0 <= i < |pairs| && pairs[i].0 == k {
        var i :| 0 <= i < |pairs| && pairs[i].0 == k;
        if i < |front| {
          assert front[i].0 == k;
        }
      }
    }
  }

  /** A key's value is the one of its last pair. */
  lemma {:induction false} ToThemeLastWins(pairs: seq<(string, Entry)>, i: nat)
    requires i < |pairs|
    requires forall j :: i < j < |pairs| ==> pairs[j].0 != pairs[i].0
    ensures pairs[i].0 in ToTheme(pairs) && ToTheme(pairs)[pairs[i].0] == pairs[i].1
    decreases |pairs|
  {
    if i < |pairs| - 1 {
      var front := pairs[..|pairs| - 1];
      assert front[i] == pairs[i];
      assert forall j :: i < j < |front| ==> front[j] == pairs[j];
      ToThemeLastWins(front, i);
    }
  }

  /**
   * Resolving a style name `s` against `theme` either stops (s is literal or unknown) or
   * expands an alias whose rank is below `bound`.
   */
  ghost predicate Below(theme: Theme, rank: map<string, nat>, s: string, bound: nat) {
    IsLiteral(s) || s !in theme || (s in rank && rank[s] < bound)
  }

  /**
   * `rank` witnesses that expanding an alias only ever reaches aliases of smaller rank.
   * Only keys that are not literal styles are ever expanded, so only they are ranked.
   */
  ghost predicate Ranked(theme: Theme, rank: map<string, nat>) {
    forall k :: k in theme && !IsLiteral(k) ==>
      k in rank && forall m :: m in Members(theme[k]) ==> Below(theme, rank, Lower(m), rank[k])
  }

  /**
   * The theme never leads _stylize into a loop. Color.php does not check this: a theme such
   * as {foo: 'foo'} makes _stylize recurse without end.
   */
  ghost predicate Acyclic(theme: Theme) {
    exists rank :: Ranked(theme, rank)
  }

  ghost function Rank(theme: Theme): map<string, nat> {
    if Acyclic(theme) then var rank :| Ranked(theme, rank); rank else map[]
  }

  /** Termination measure of _stylize: one more than the alias' rank, 0 for non-aliases. */
  ghost function Measure(theme: Theme, style: string): nat {
    var s := Lower(style);
    if !IsLiteral(s) && s in theme && s in Rank(theme) then Rank(theme)[s] + 1 else 0
  }

  /** Every member of an expanded alias has a smaller measure than the alias itself. */
  lemma MembersBelow(theme: Theme, style: string)
    requires Acyclic(theme)
    requires !IsLiteral(Lower(style)) && Lower(style) in theme
    ensures forall i :: 0 <= i < |Members(theme[Lower(style)])| ==>
              Measure(theme, Members(theme[Lower(style)])[i]) < Measure(theme, style)
  {
    var rank := Rank(theme);
    var s := Lower(style);
    var ms := Members(theme[s]);
    forall i | 0 <= i < |ms|
      ensures Measure(theme, ms[i]) < Measure(theme, style)
    {
      assert ms[i] in ms;
      LowerIdempotent(ms[i]);
    }
  }

  /** A theme whose aliases only name literal styles never expands an alias twice. */
  lemma LiteralMembersAcyclic(theme: Theme)
    requires forall k, m :: k in theme && m in Members(theme[k]) ==> IsLiteral(Lower(m))
    ensures Acyclic(theme)
  {
    var rank := map k | k in theme :: 0;
    assert Ranked(theme, rank);
  }

  /** An alias that names itself among its members makes the theme cyclic. */
  lemma SelfReferenceIsCyclic(theme: Theme, k: string, m: string)
    requires k in theme && !IsLiteral(k)
    requires m in Members(theme[k]) && Lower(m) == k
    ensures !Acyclic(theme)
  {
    forall rank: map<string, nat>
      ensures !Ranked(theme, rank)
    {
      assert !Below(theme, rank, Lower(m), if k in rank then rank[k] else 0);
    }
  }
}
