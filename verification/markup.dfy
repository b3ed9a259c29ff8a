/**
 * Color::colorize: expansion of `<name>...</name>` and `<name>...</>` tags, the
 * FORMAT_PATTERN '#<([a-zA-Z_\x7f-\xff][a-zA-Z0-9_\x7f-\xff]*)>(.*?)</\\1?>#s' used with
 * preg_replace_callback, written as a scanner.
 */
module Markup {
  import opened Results
  import opened Chars
  import opened Themes
  import opened Stylizer

  /** One match: `<name>` opens at `start`, content runs to `contentEnd`, the closing tag to `end`. */
  datatype Tag = Tag(start: nat, name: string, contentEnd: nat, end: nat) {
    function ContentStart(): nat {
      start + |name| + 2
    }
  }

  /** "<" name ">" starts at `p`. */
  ghost predicate OpensAt(text: string, p: nat, name: string) {
    IsName(name) && p + |name| + 2 <= |text| && text[p..p + |name| + 2] == "<" + name + ">"
  }

  /** The closing tag that repeats the opening name. */
  function CloseTag(name: string): string {
    "</" + name + ">"
  }

  /** `</\1?>` occupies text[j..e]: the closing tag names the same style, or no style. */
  ghost predicate ClosesAt(text: string, name: string, j: nat, e: nat) {
    j <= e <= |text| && (text[j..e] == CloseTag(name) || text[j..e] == "</>")
  }

  /** The pattern matches text[p..e] with group 1 = name and group 2 = text[p + |name| + 2..j]. */
  ghost predicate MatchAt(text: string, p: nat, name: string, j: nat, e: nat) {
    OpensAt(text, p, name) && p + |name| + 2 <= j && ClosesAt(text, name, j, e)
  }

  /** The match PCRE reports first: leftmost start, then the lazy `.*?` takes the shortest content. */
  ghost predicate IsFirstMatch(text: string, t: Tag) {
    && MatchAt(text, t.start, t.name, t.contentEnd, t.end)
    && (forall q: nat, n: string, j: nat, e: nat :: q < t.start ==> !MatchAt(text, q, n, j, e))
    && (forall j: nat, e: nat :: t.ContentStart() <= j < t.contentEnd ==> !MatchAt(text, t.start, t.name, j, e))
  }

  /** What an opening tag at `p` fixes about the bytes there. */
  lemma OpensAtShape(text: string, p: nat, name: string)
    ensures OpensAt(text, p, name) ==>
              && p + 1 < |text| && text[p] == '<' && IsNameStart(text[p + 1])
              && text[p + 1..p + 1 + |name|] == name && text[p + 1 + |name|] == '>'
  {
    if OpensAt(text, p, name) {
      var w := text[p..p + |name| + 2];
      assert w[0] == text[p];
      assert w[1] == text[p + 1];
      assert w[|name| + 1] == text[p + 1 + |name|];
      assert w[1..|name| + 1] == name;
      var u := w[1..|name| + 1];
      assert forall k :: 0 <= k < |name| ==> u[k] == text[p + 1 + k];
    }
  }

  /** The end of the run of identifier bytes that starts at `i`. */
  function NameEnd(text: string, i: nat): (r: nat)
    requires i <= |text|
    ensures i <= r <= |text|
    ensures forall k :: i <= k < r ==> IsNameChar(text[k])
    ensures r < |text| ==> !IsNameChar(text[r])
    decreases |text| - i
  {
    if i < |text| && IsNameChar(text[i]) then NameEnd(text, i + 1) else i
  }

  /** The group-1 name is the maximal identifier run after "<", since ">" is not an identifier byte. */
  lemma OpenedNameIsMaximal(text: string, p: nat, name: string)
    ensures OpensAt(text, p, name) ==> NameEnd(text, p + 1) == p + 1 + |name|
  {
    OpensAtShape(text, p, name);
    if OpensAt(text, p, name) {
      var r := NameEnd(text, p + 1);
      forall k | p + 1 <= k < p + 1 + |name|
        ensures IsNameChar(text[k])
      {
        assert text[k] == text[p + 1..p + 1 + |name|][k - p - 1];
      }
    }
  }

  /** At most one name can open at a position. */
  lemma OpenedNameUnique(text: string, p: nat, n1: string, n2: string)
    requires OpensAt(text, p, n1) && OpensAt(text, p, n2)
    ensures n1 == n2
  {
    OpensAtShape(text, p, n1);
    OpensAtShape(text, p, n2);
    OpenedNameIsMaximal(text, p, n1);
    OpenedNameIsMaximal(text, p, n2);
  }

  /** The end of the closing tag at `j`, trying `</name>` before `</>` as `\1?` is greedy. */
  function ClosingEnd(text: string, name: string, j: nat): (r: Option<nat>)
    requires IsName(name) && j <= |text|
    ensures forall e: nat :: ClosesAt(text, name, j, e) <==> r == Some(e)
  {
    var long := CloseTag(name);
    if j + |long| <= |text| && text[j..j + |long|] == long then
      assert forall e: nat :: j <= e <= |text| ==> text[j..e] != "</>" by {
        forall e | j <= e <= |text|
          ensures text[j..e] != "</>"
        {
          if e == j + 3 {
            assert text[j..e][2] == text[j + 2] == long[2] == name[0];
          }
        }
      }
      Some(j + |long|)
    else if j + 3 <= |text| && text[j..j + 3] == "</>" then
      Some(j + 3)
    else
      None
  }

  /** The lazy content: the first closing tag at or after `j`, as (content end, match end). */
  function FindClose(text: string, name: string, j: nat): (r: Option<(nat, nat)>)
    requires IsName(name) && j <= |text|
    ensures r.Some? ==> j <= r.value.0 && ClosesAt(text, name, r.value.0, r.value.1)
    ensures r.Some? ==> forall k: nat, e: nat :: j <= k < r.value.0 ==> !ClosesAt(text, name, k, e)
    ensures r.None? ==> forall k: nat, e: nat :: j <= k ==> !ClosesAt(text, name, k, e)
    decreases |text| - j
  {
    match ClosingEnd(text, name, j)
    case Some(e) => Some((j, e))
    case None =>
      if j == |text| then None else FindClose(text, name, j + 1)
  }

  /** The bytes between "<" at `p` and the first non-name byte `q`, when that is ">", open a tag. */
  lemma OpensWithScannedName(text: string, p: nat, q: nat)
    requires p + 1 < |text| && text[p] == '<' && IsNameStart(text[p + 1])
    requires q == NameEnd(text, p + 1) && q < |text| && text[q] == '>'
    ensures OpensAt(text, p, text[p + 1..q])
  {
    var name := text[p + 1..q];
    assert forall k :: 0 <= k < |name| ==> name[k] == text[p + 1 + k];
    assert IsName(name);
    assert text[p..q + 1] == "<" + name + ">";
  }

  /** Without "<", a name and ">" at `p`, nothing opens there. */
  lemma NoOpenNoMatch(text: string, p: nat)
    requires p <= |text|
    requires !(p + 1 < |text| && text[p] == '<' && IsNameStart(text[p + 1])
               && NameEnd(text, p + 1) < |text| && text[NameEnd(text, p + 1)] == '>')
    ensures forall n: string, j: nat, e: nat :: !MatchAt(text, p, n, j, e)
  {
    forall n: string, j: nat, e: nat
      ensures !MatchAt(text, p, n, j, e)
    {
      OpensAtShape(text, p, n);
      OpenedNameIsMaximal(text, p, n);
    }
  }

  /** A tag that opens at `p` but is never closed is no match, and no other name opens there. */
  lemma NoCloseNoMatch(text: string, p: nat, name: string)
    requires OpensAt(text, p, name)
    requires FindClose(text, name, p + |name| + 2).None?
    ensures forall n: string, j: nat, e: nat :: !MatchAt(text, p, n, j, e)
  {
    forall n: string, j: nat, e: nat
      ensures !MatchAt(text, p, n, j, e)
    {
      if OpensAt(text, p, n) {
        OpenedNameUnique(text, p, name, n);
      }
    }
  }

  /** The match starting at `p`, if the pattern matches there. */
  function TagAt(text: string, p: nat): (r: Option<Tag>)
    requires p <= |text|
    ensures r.Some? ==> r.value.start == p < |text| && text[p] == '<'
    ensures r.Some? ==> MatchAt(text, p, r.value.name, r.value.contentEnd, r.value.end)
    ensures r.Some? ==> forall j: nat, e: nat :: r.value.ContentStart() <= j < r.value.contentEnd ==>
                          !MatchAt(text, p, r.value.name, j, e)
    ensures r.None? ==> forall n: string, j: nat, e: nat :: !MatchAt(text, p, n, j, e)
  {
    if p + 1 < |text| && text[p] == '<' && IsNameStart(text[p + 1])
       && NameEnd(text, p + 1) < |text| && text[NameEnd(text, p + 1)] == '>' then
      var q := NameEnd(text, p + 1);
      var name := text[p + 1..q];
      OpensWithScannedName(text, p, q);
      match FindClose(text, name, q + 1)
      case Some((j, e)) => Some(Tag(p, name, j, e))
      case None =>
        NoCloseNoMatch(text, p, name);
        None
    else
      NoOpenNoMatch(text, p);
      None
  }

  /** The leftmost match at or after `p`. */
  function FindTagFrom(text: string, p: nat): (r: Option<Tag>)
    requires p <= |text|
    ensures r.Some? ==> p <= r.value.start < |text| && text[r.value.start] == '<'
    ensures r.Some? ==> MatchAt(text, r.value.start, r.value.name, r.value.contentEnd, r.value.end)
    ensures r.Some? ==> forall j: nat, e: nat :: r.value.ContentStart() <= j < r.value.contentEnd ==>
                          !MatchAt(text, r.value.start, r.value.name, j, e)
    ensures r.Some? ==> forall q: nat, n: string, j: nat, e: nat :: p <= q < r.value.start ==> !MatchAt(text, q, n, j, e)
    ensures r.None? ==> forall q: nat, n: string, j: nat, e: nat :: p <= q ==> !MatchAt(text, q, n, j, e)
    decreases |text| - p
  {
    match TagAt(text, p)
    case Some(t) => Some(t)
    case None =>
      if p == |text| then None else FindTagFrom(text, p + 1)
  }

  /** The match preg_replace_callback handles first, or None when the pattern matches nowhere. */
  function FindTag(text: string): (r: Option<Tag>)
    ensures r.Some? ==> IsFirstMatch(text, r.value) && text[r.value.start] == '<'
    ensures r.None? ==> forall q: nat, n: string, j: nat, e: nat :: !MatchAt(text, q, n, j, e)
  {
    FindTagFrom(text, 0)
  }

  /** The tag grammar is unambiguous: there is only one first match. */
  lemma FirstMatchUnique(text: string, t1: Tag, t2: Tag)
    requires IsFirstMatch(text, t1) && IsFirstMatch(text, t2)
    ensures t1 == t2
  {
    assert t1.start == t2.start;
    OpenedNameUnique(text, t1.start, t1.name, t2.name);
    assert t1.contentEnd == t2.contentEnd;
    var _ := ClosingEnd(text, t1.name, t1.contentEnd);
  }

  /** FindTag reports exactly the first match whenever there is one. */
  lemma FindTagFindsFirstMatch(text: string, t: Tag)
    requires IsFirstMatch(text, t)
    ensures FindTag(text) == Some(t)
  {
    assert FindTag(text).Some?;
    FirstMatchUnique(text, FindTag(text).value, t);
  }

  /**
   * `_colorizeText`: each match, left to right, is replaced by `apply(name, colorize(content))`,
   * so inner tags expand before the outer style wraps them; the text around matches is kept.
   * An unknown tag name throws, as apply does.
   */
  function Colorize(theme: Theme, enabled: bool, text: string): (r: Result<string>)
    requires enabled ==> Acyclic(theme)
    ensures !enabled ==> r.Ok?
    ensures r.Err? ==> r.error.InvalidStyle? && IsUnknown(theme, r.error.style)
    ensures (forall i :: 0 <= i < |text| ==> text[i] != '<') ==> r == Ok(text)
    decreases |text|, 1
  {
    match FindTag(text)
    case None => Ok(text)
    case Some(t) =>
      Splice(theme, enabled, text[..t.start], t.name, text[t.ContentStart()..t.contentEnd], text[t.end..])
  }

  /**
   * `_replaceStyle` for one match, followed by the scan of the text after it:
   * `before`, then apply(name, colorize(content)), then colorize(after).
   */
  function Splice(theme: Theme, enabled: bool, before: string, name: string, content: string, after: string): (r: Result<string>)
    requires enabled ==> Acyclic(theme)
    ensures !enabled ==> r.Ok?
    ensures r.Err? ==> r.error.InvalidStyle? && IsUnknown(theme, r.error.style)
    decreases |content| + |after| + 1, 0
  {
    var inner :- Colorize(theme, enabled, content);
    var styled :- Stylize(theme, enabled, name, inner);
    var rest :- Colorize(theme, enabled, after);
    Ok(before + styled + rest)
  }

  /** When every step succeeds, the match is replaced by the styled content. */
  lemma SpliceSucceeds(theme: Theme, enabled: bool, before: string, name: string, content: string,
                       after: string, inner: string, styled: string, rest: string)
    requires enabled ==> Acyclic(theme)
    requires Colorize(theme, enabled, content) == Ok(inner)
    requires Stylize(theme, enabled, name, inner) == Ok(styled)
    requires Colorize(theme, enabled, after) == Ok(rest)
    ensures Splice(theme, enabled, before, name, content, after) == Ok(before + styled + rest)
  {
  }

  /** No closing tag for `name` lies inside `content`. */
  ghost predicate NoCloseIn(content: string, name: string) {
    forall j: nat, e: nat :: !ClosesAt(content, name, j, e)
  }

  /** After its first byte a closing tag holds no "<". */
  lemma CloseTagsHaveOneLt(name: string)
    requires IsName(name)
    ensures forall i :: 1 <= i < |CloseTag(name)| ==> CloseTag(name)[i] != '<'
    ensures forall i :: 1 <= i < 3 ==> "</>"[i] != '<'
  {
    forall i | 1 <= i < |CloseTag(name)|
      ensures CloseTag(name)[i] != '<'
    {
      if 2 <= i < |name| + 2 {
        assert CloseTag(name)[i] == name[i - 2];
      }
    }
  }

  /**
   * A closing tag starting inside `content` either lies within it or runs into the "<" that
   * follows it; neither is possible when `content` holds no closing tag.
   */
  lemma NoCloseStartsInside(text: string, name: string, cs: nat, content: string, j: nat, e: nat)
    requires IsName(name) && NoCloseIn(content, name)
    requires cs + |content| < |text| && text[cs..cs + |content|] == content && text[cs + |content|] == '<'
    requires cs <= j < cs + |content|
    ensures !ClosesAt(text, name, j, e)
  {
    var ce := cs + |content|;
    if j <= e <= ce {
      assert forall k :: j <= k < e ==> text[k] == text[cs..ce][k - cs];
      assert text[j..e] == content[j - cs..e - cs];
      assert !ClosesAt(content, name, j - cs, e - cs);
    } else if ce < e <= |text| {
      var x := text[j..e];
      assert x[ce - j] == '<';
      CloseTagsHaveOneLt(name);
    }
  }

  /** The lazy content stops at the first closing tag: none starts earlier. */
  lemma NoEarlierClose(text: string, name: string, cs: nat, content: string)
    requires IsName(name) && NoCloseIn(content, name)
    requires cs + |content| < |text| && text[cs..cs + |content|] == content && text[cs + |content|] == '<'
    ensures forall j: nat, e: nat :: cs <= j < cs + |content| ==> !ClosesAt(text, name, j, e)
  {
    forall j: nat, e: nat | cs <= j < cs + |content|
      ensures !ClosesAt(text, name, j, e)
    {
      NoCloseStartsInside(text, name, cs, content, j, e);
    }
  }

  /** No match starts within a stretch of text free of "<". */
  lemma NoMatchBefore(text: string, k: nat)
    requires k <= |text|
    requires forall i :: 0 <= i < k ==> text[i] != '<'
    ensures forall q: nat, n: string, j: nat, e: nat :: q < k ==> !MatchAt(text, q, n, j, e)
  {
    forall q: nat, n: string, j: nat, e: nat | q < k
      ensures !MatchAt(text, q, n, j, e)
    {
      OpensAtShape(text, q, n);
    }
  }

  /** The displayed tag is a match. */
  lemma OneTagMatches(text: string, pre: string, name: string, content: string, close: string, post: string)
    requires IsName(name) && (close == CloseTag(name) || close == "</>")
    requires text == pre + "<" + name + ">" + content + close + post
    ensures MatchAt(text, |pre|, name, |pre| + |name| + 2 + |content|,
                    |pre| + |name| + 2 + |content| + |close|)
    ensures forall i :: 0 <= i < |pre| ==> text[i] == pre[i]
    ensures text[|pre| + |name| + 2..|pre| + |name| + 2 + |content|] == content
  {
    var open := "<" + name + ">";
    var cs := |pre| + |name| + 2;
    var ce := cs + |content|;
    assert text == pre + open + content + close + post;
    assert text[|pre|..cs] == open;
    assert text[cs..ce] == content;
    assert text[ce..ce + |close|] == close;
  }

  /**
   * A match with no "<" before it, whose content holds no closing tag for its name, is the
   * first match.
   */
  lemma MatchIsFirst(text: string, t: Tag)
    requires MatchAt(text, t.start, t.name, t.contentEnd, t.end)
    requires forall i :: 0 <= i < t.start ==> text[i] != '<'
    requires NoCloseIn(text[t.ContentStart()..t.contentEnd], t.name)
    ensures FindTag(text) == Some(t)
  {
    var content := text[t.ContentStart()..t.contentEnd];
    assert text[t.contentEnd] == text[t.contentEnd..t.end][0];
    NoMatchBefore(text, t.start);
    NoEarlierClose(text, t.name, t.ContentStart(), content);
    FindTagFindsFirstMatch(text, t);
  }

  /** The first match in such a text is the displayed tag. */
  lemma OneTagIsFirstMatch(text: string, pre: string, name: string, content: string, close: string, post: string)
    requires IsName(name) && (close == CloseTag(name) || close == "</>")
    requires forall i :: 0 <= i < |pre| ==> pre[i] != '<'
    requires NoCloseIn(content, name)
    requires text == pre + "<" + name + ">" + content + close + post
    ensures FindTag(text) == Some(Tag(|pre|, name, |pre| + |name| + 2 + |content|,
                                      |pre| + |name| + 2 + |content| + |close|))
  {
    var cs := |pre| + |name| + 2;
    var ce := cs + |content|;
    var t := Tag(|pre|, name, ce, ce + |close|);
    OneTagMatches(text, pre, name, content, close, post);
    MatchIsFirst(text, t);
  }

  /**
   * A text with one tag whose content holds no closing tag for it, and no "<" before it,
   * colorizes to: the text before it, then apply(name, colorize(content)), then colorize of
   * the rest. The first error met, in that order, is the one thrown.
   */
  lemma ColorizeOneTag(theme: Theme, enabled: bool, pre: string, name: string, content: string,
                       close: string, post: string)
    requires enabled ==> Acyclic(theme)
    requires IsName(name) && (close == CloseTag(name) || close == "</>")
    requires forall i :: 0 <= i < |pre| ==> pre[i] != '<'
    requires NoCloseIn(content, name)
    ensures Colorize(theme, enabled, pre + "<" + name + ">" + content + close + post) ==
            Splice(theme, enabled, pre, name, content, post)
  {
    var text := pre + "<" + name + ">" + content + close + post;
    var cs := |pre| + |name| + 2;
    var ce := cs + |content|;
    var t := Tag(|pre|, name, ce, ce + |close|);
    OneTagIsFirstMatch(text, pre, name, content, close, post);
    TagTextSlices(pre, name, content, close, post);
    ColorizeAtTag(theme, enabled, text, t, pre, content, post);
  }

  /** Colorize splits the text at the first match. */
  lemma ColorizeAtTag(theme: Theme, enabled: bool, text: string, t: Tag,
                      before: string, content: string, after: string)
    requires enabled ==> Acyclic(theme)
    requires FindTag(text) == Some(t)
    requires t.start <= t.ContentStart() <= t.contentEnd <= t.end <= |text|
    requires before == text[..t.start] && content == text[t.ContentStart()..t.contentEnd]
    requires after == text[t.end..]
    ensures Colorize(theme, enabled, text) == Splice(theme, enabled, before, t.name, content, after)
  {
  }

  /** Where the parts of pre "<" name ">" content close post lie. */
  lemma TagTextSlices(pre: string, name: string, content: string, close: string, post: string)
    ensures var text := pre + "<" + name + ">" + content + close + post;
            var cs := |pre| + |name| + 2;
            var ce := cs + |content|;
            && text[..|pre|] == pre
            && text[cs..ce] == content
            && text[ce + |close|..] == post
  {
  }
}
