# colors.php style engine, in Dafny

A model of the style engine of `Colors\Color`, the PHP class that wraps text in ANSI
escape sequences. It covers:

- the table of 23 literal styles;
- `_stylize`, which resolves a style name against that table and then the user theme, expanding
  theme aliases by a left fold;
- the stateful object (`$_initial`, `$_wrapped`, `$_theme`) with `__invoke`, `apply`, `fg`, `bg`,
  `highlight`, `reset`, `clean`, `strip`, `setTheme` and `colorize`;
- `setTheme`'s check of every key against the style name pattern;
- `_stripColors`, the removal of `ESC [ digits m`;
- `colorize`, the expansion of `<name>…</name>` and `<name>…</>` tags, with the pattern written
  as a scanner and proved to find the match PCRE reports first.

Strings are `seq<char>`, one `char` per byte of the PHP string. Exceptions become the `Error`
values of `Results`, with their messages. A call on the object that may throw returns a `Step`:
the object afterwards and the error, if any. `isSupported()` is the boolean parameter `enabled`.

Modules, in dependency order: `Results`, `Chars`, `StyleTable`, `Themes`, `Escapes`, `Stylizer`,
`Markup`, `Colors`. `Scenarios` restates the cases of `tests/Colors/ColorTest.php` against the model.

Where Color.php's behaviour is easy to misread, the model follows the code:

- This revision has no cycle detection in `setTheme`. With a theme such as `{foo: 'foo'}`,
  styling with `foo` makes `_stylize` recurse without end. The model requires the whole theme to
  be acyclic (`Themes.Acyclic`) for every call made with styling enabled, including calls that
  never reach the cycle; "Left out" lists what that costs. It does not add an error for cycles.
- This revision has no indexed `color[N]` styles. Such names are unknown styles here.
- Theme keys are stored as given, but the name looked up is lowercased. A key with an
  upper-case letter is accepted and can never be reached.
- `STYLE_NAME_PATTERN` ends in `$` without the `D` modifier. PCRE lets such a `$` match before
  one final newline, so a key such as `"foo\n"` passes the check.

## Model

| member | source | states |
|---|---|---|
| Chars.Lower | lib/Colors/Color.php:85 | strtolower keeps the length and folds A-Z only, byte by byte |
| Chars.LowerIdempotent | lib/Colors/Color.php:85 | lowercasing an already lowercased name changes nothing |
| StyleTable.StyleEntries | lib/Colors/Color.php:17-23 | the seven text styles and their SGR codes 1, 2, 3, 4, 5, 7, 8 |
| StyleTable.ForegroundEntries | lib/Colors/Color.php:25-32 | the eight foreground colors and their codes 30-37 |
| StyleTable.BackgroundEntries | lib/Colors/Color.php:34-41 | the eight `bg_` colors and their codes 40-47 |
| StyleTable.CodesAreDigits | lib/Colors/Color.php:14-42 | every template opens with ESC `[`, a non-empty run of digits, then `m` |
| StyleTable.Groups | lib/Colors/Color.php:14-42 | the table has exactly the three groups: text styles, foreground colors, background colors |
| StyleTable.LiteralNamesAreLowercaseNames | lib/Colors/Color.php:14-42 | every literal name is a lower-case identifier, so a lowercased caller name can reach it |
| Themes.Members | lib/Colors/Color.php:93-96 | a single style becomes a one-element list; a list stays as it is |
| Themes.StyleNameFinalNewline | lib/Colors/Color.php:10 | isAValidStyleName accepts an identifier and the identifier followed by one "\n", and refuses it followed by two |
| Themes.FirstInvalidName | lib/Colors/Color.php:184-188 | the first key, in array order, that fails the pattern; None exactly when every key passes |
| Themes.ToThemeKeys | lib/Colors/Color.php:182-189 | the assigned theme has exactly the keys of the given array |
| Themes.ToThemeLastWins | lib/Colors/Color.php:182-189 | a key's value is the one given last for it |
| Themes.MembersBelow | lib/Colors/Color.php:91-100 | under an acyclic theme each member of an alias has a smaller measure, so the recursion ends |
| Themes.LiteralMembersAcyclic | lib/Colors/Color.php:91-100 | a theme whose members all name literal styles never loops |
| Themes.SelfReferenceIsCyclic | lib/Colors/Color.php:91-100 | an alias that lists itself is cyclic: the case where _stylize never returns |
| Escapes.DigitRun | lib/Colors/Color.php:160 | the maximal run of digits at a position: all digits, and a non-digit or the end after it |
| Escapes.SgrPrefix | lib/Colors/Color.php:160 | the match of `\033\[\d+m` at the start of a text, if any; there is at most one |
| Escapes.Clean | lib/Colors/Color.php:158-161 | removing the sequences never lengthens the text |
| Escapes.CleanFixesExactlySgrFree | lib/Colors/Color.php:158-161 | cleaning leaves a text unchanged if and only if it holds no `ESC [ digits m` |
| Escapes.NoSgrCons | lib/Colors/Color.php:160 | a text holds no sequence exactly when none starts at its front and its tail holds none |
| Escapes.CleanSplitsAtEsc | lib/Colors/Color.php:160 | no match spans a point where an ESC starts, so cleaning distributes over such a split |
| Escapes.CleanDropsLeadingSgr | lib/Colors/Color.php:160 | an opening sequence at the front is removed whole |
| Escapes.CleanWrap | lib/Colors/Color.php:158-161 | cleaning a literal style's output gives the same as cleaning its input |
| Escapes.CleanIsOnePass | lib/Colors/Color.php:160 | preg_replace makes one pass: removing a sequence can leave a new one behind |
| Stylizer.Stylize | lib/Colors/Color.php:79-107 | disabled: the text itself; success: the same text once cleaned; failure: InvalidStyle with a lowercased name that is neither literal nor a theme key |
| Stylizer.StylizeEach | lib/Colors/Color.php:98-100 | the members applied in turn keep the cleaned text; any failure names an unknown style |
| Stylizer.Resolve | lib/Colors/Color.php:85-104 | the SGR codes a name stands for, each a code of the table; failure names an unknown style |
| Stylizer.ResolveEach | lib/Colors/Color.php:98-100 | the members' codes in member order, each one from the table |
| Stylizer.WrapAll | lib/Colors/Color.php:98-100 | wrapping with table codes in turn never shortens the text and leaves what it cleans to unchanged |
| Stylizer.WrapAllAppend | lib/Colors/Color.php:98-100 | wrapping with two code lists one after the other equals wrapping with their concatenation |
| Stylizer.StylizeIsResolveThenWrap | lib/Colors/Color.php:79-107 | _stylize fails exactly when resolution fails, with the same error, and otherwise wraps with the resolved codes |
| Stylizer.StylizeEachIsResolveThenWrap | lib/Colors/Color.php:98-100 | the same equivalence for the loop over an alias' members |
| Stylizer.EmptyThemeAcyclic | lib/Colors/Color.php:43 | the initial empty theme is acyclic |
| Stylizer.LiteralWinsOverTheme | lib/Colors/Color.php:85-89 | a name that lowercases to a literal style gives its template, whatever the theme holds |
| Stylizer.StylizeIgnoresCase | lib/Colors/Color.php:85 | a name and its lowercase form style a text the same way |
| Stylizer.UpperCaseKeyUnreachable | lib/Colors/Color.php:85-91 | no lowercased name equals a theme key that holds an upper-case letter |
| Stylizer.UnknownStyleFails | lib/Colors/Color.php:102-103 | a name neither literal nor a theme key throws "Invalid style " followed by the lowercased name |
| Stylizer.AliasOfOneStyle | lib/Colors/Color.php:91-100 | an alias of one style, as a string or a one-element array, behaves as that style |
| Stylizer.LiteralCodes | lib/Colors/Color.php:14-42 | the codes of a list of literal styles, one per style, in order |
| Stylizer.AliasOfLiteralsFoldsLeft | lib/Colors/Color.php:91-100 | an alias of literal styles wraps with their codes in order, the first member innermost |
| Stylizer.ResolveEachOfLiterals | lib/Colors/Color.php:98-100 | literal members resolve to their table codes in order |
| Markup.OpensAtShape | lib/Colors/Color.php:8 | an opening tag is "<", a name that starts with a name-start byte, then ">" |
| Markup.NameEnd | lib/Colors/Color.php:8 | the scan of `[a-zA-Z0-9_\x7f-\xff]*` stops at the first byte outside the class |
| Markup.OpenedNameIsMaximal | lib/Colors/Color.php:8 | the name of an opening tag is the maximal identifier run after "<" |
| Markup.OpenedNameUnique | lib/Colors/Color.php:8 | at most one name opens at a position |
| Markup.ClosingEnd | lib/Colors/Color.php:8 | `</\1?>` at a position: `</name>` or `</>`, whichever is there; no other end closes |
| Markup.FindClose | lib/Colors/Color.php:8 | the lazy `(.*?)` stops at the first closing tag; None when no closing tag follows |
| Markup.OpensWithScannedName | lib/Colors/Color.php:8 | a scanned name followed by ">" is an opening tag |
| Markup.NoOpenNoMatch | lib/Colors/Color.php:8 | without "<", a name and ">" no match starts at a position |
| Markup.NoCloseNoMatch | lib/Colors/Color.php:8 | an opening tag that is never closed starts no match |
| Markup.TagAt | lib/Colors/Color.php:8 | the match at a position, with the shortest content, or None exactly when the pattern does not match there |
| Markup.FindTagFrom | lib/Colors/Color.php:8 | the leftmost match at or after a position, with nothing matching before it |
| Markup.FindTag | lib/Colors/Color.php:207-210 | the first match PCRE reports, or None exactly when the pattern matches nowhere |
| Markup.FirstMatchUnique | lib/Colors/Color.php:8 | the first match is unique: the tag grammar is unambiguous |
| Markup.FindTagFindsFirstMatch | lib/Colors/Color.php:209 | whenever a first match exists, the scanner finds it |
| Markup.Colorize | lib/Colors/Color.php:207-227 | disabled never throws; a text without "<" comes back unchanged; a failure names an unknown style |
| Markup.Splice | lib/Colors/Color.php:224-227 | the callback and the rest of the scan: disabled never throws; a failure names an unknown style |
| Markup.SpliceSucceeds | lib/Colors/Color.php:224-227 | the match becomes apply(name, colorize(content)), between the text before it and the expansion of the text after it |
| Markup.CloseTagsHaveOneLt | lib/Colors/Color.php:8 | after its first byte a closing tag holds no "<" |
| Markup.NoCloseStartsInside | lib/Colors/Color.php:8 | no closing tag starts inside a content that holds none and is followed by "<" |
| Markup.NoEarlierClose | lib/Colors/Color.php:8 | the lazy content of such a tag ends at its own closing tag |
| Markup.NoMatchBefore | lib/Colors/Color.php:8 | no match starts in a stretch without "<" |
| Markup.OneTagMatches | lib/Colors/Color.php:8 | `<name>` content `</name>` or `</>` is a match of the pattern |
| Markup.MatchIsFirst | lib/Colors/Color.php:8 | a match with no "<" before it and no closing tag in its content is the first match |
| Markup.OneTagIsFirstMatch | lib/Colors/Color.php:8 | in text, tag, rest, with no "<" in the text before it, the tag is the first match |
| Markup.ColorizeOneTag | lib/Colors/Color.php:207-227 | such a text expands to the text before, then apply(name, colorize(content)), then colorize(rest) |
| Markup.ColorizeAtTag | lib/Colors/Color.php:209 | colorize splits the text at its first match |
| Markup.TagTextSlices | lib/Colors/Color.php:224-226 | group 2 is the content between the opening and the closing tag |
| Colors.Invoke | lib/Colors/Color.php:73-77 | both texts become the given one; the theme stays |
| Colors.New | lib/Colors/Color.php:45-48 | a new object holds the given text as both its initial and its current text, with no theme |
| Colors.ToString | lib/Colors/Color.php:68-71 | the object prints its current, possibly styled, text |
| Colors.Apply | lib/Colors/Color.php:109-114 | on success the stored text is styled and still cleans the same; on a throw the object is unchanged; disabled changes nothing |
| Colors.ApplyTo | lib/Colors/Color.php:115-117 | disabled returns the text; a success cleans to what the text cleans to; a failure is InvalidStyle |
| Colors.Fg | lib/Colors/Color.php:120-123 | keeps the initial text and the theme; a throw leaves the object unchanged; disabled changes nothing |
| Colors.FgTo | lib/Colors/Color.php:120-123 | disabled returns the text; a success cleans to what the text cleans to |
| Colors.Bg | lib/Colors/Color.php:125-128 | keeps the initial text and the theme; a throw leaves the object unchanged; disabled changes nothing |
| Colors.BgTo | lib/Colors/Color.php:125-128 | disabled returns the text; a success cleans to what the text cleans to |
| Colors.Highlight | lib/Colors/Color.php:130-133 | keeps the initial text and the theme; a throw leaves the object unchanged; disabled changes nothing |
| Colors.HighlightTo | lib/Colors/Color.php:130-133 | disabled returns the text; a success cleans to what the text cleans to |
| Colors.Reset | lib/Colors/Color.php:135-139 | the stored text goes back to the initial one, nothing else changes |
| Colors.CleanWrapped | lib/Colors/Color.php:163-168 | the stored text becomes its cleaned form, the initial text and theme stay; the object is unchanged exactly when its text holds no escape sequence |
| Colors.CleanTo | lib/Colors/Color.php:169 | the text without its escape sequences, equal to the text exactly when it holds none |
| Colors.Strip | lib/Colors/Color.php:172-175 | the stored text becomes its cleaned form; the initial text and the theme stay |
| Colors.StripTo | lib/Colors/Color.php:172-175 | the text without its escape sequences |
| Colors.SetTheme | lib/Colors/Color.php:182-191 | throws exactly when some key fails the pattern, naming the first such key and keeping the object; otherwise the theme is replaced whole |
| Colors.ColorizeWrapped | lib/Colors/Color.php:215-220 | on success the stored text becomes the expansion of the old one; on a throw the object is unchanged and the error is the expansion's InvalidStyle; disabled never throws |
| Colors.ColorizeTo | lib/Colors/Color.php:221 | disabled never throws; a failure is InvalidStyle; a text without "<" comes back unchanged |
| Colors.ApplyAll | lib/Colors/Color.php:109-114 | a chain of stateful calls keeps the theme |
| Colors.ResetRestoresInitial | lib/Colors/Color.php:135-139 | however a chain of calls ends, reset gives back the initial text |
| Colors.CleanUndoesChain | lib/Colors/Color.php:158-170 | clean undoes any successful chain of stateful styling calls |
| Colors.LiteralChainNests | lib/Colors/Color.php:109-114 | a chain of literal styles nests in call order, each later call the outer layer |
| Colors.ApplyMatchesApplyTo | lib/Colors/Color.php:109-118 | the stateful and the explicit-text forms of apply agree on success and on the result |
| Colors.CleanMatchesCleanTo | lib/Colors/Color.php:163-175 | clean() on the object and clean($text) on its string agree, strip is clean, and cleaning after a successful apply gives what cleaning before it gave |
| Colors.ColorizeMatchesColorizeTo | lib/Colors/Color.php:215-222 | colorize() on the object succeeds exactly when colorize($text) on its string does, storing that result; on a throw the object keeps its text and reports the same error |
| Colors.Shortcuts | lib/Colors/Color.php:120-133 | fg is apply; bg and highlight apply the `bg_` style, which for a table color is its background template |
| Scenarios.ConvertsAsString | tests/Colors/ColorTest.php:13-20 | the object prints its text; invoking it replaces the text |
| Scenarios.TestBytes | tests/Colors/ColorTest.php:24-28 | the byte strings the tests expect are the model's templates |
| Scenarios.DecoratesRed | tests/Colors/ColorTest.php:24-25 | red wraps "foo" in ESC[31m … ESC[0m |
| Scenarios.DecoratesStacked | tests/Colors/ColorTest.php:27-28 | WHITE then bold: the names ignore case and the later call is outer |
| Scenarios.ThrowsForInvalidStyle | tests/Colors/ColorTest.php:31-40 | "foo" throws "Invalid style foo" and the text is kept |
| Scenarios.HasShortcutDecorators | tests/Colors/ColorTest.php:43-57 | fg('blue') is blue, bg('blue') is bg_blue, highlight is bg |
| Scenarios.ResetsDecoration | tests/Colors/ColorTest.php:64-68 | blue then reset prints the original text |
| Scenarios.TestThemeIsSet | tests/Colors/ColorTest.php:72-79 | the test theme passes the check and is stored as given |
| Scenarios.ThemeAliasIsItsStyle | tests/Colors/ColorTest.php:81-83 | the alias `error` styles exactly as red |
| Scenarios.ThemeAliasFoldsInOrder | tests/Colors/ColorTest.php:85-87 | the alias `warning` is bg_yellow inside, white outside |
| Scenarios.ThemeDoesNotOverrideLiteral | tests/Colors/ColorTest.php:89-92 | the theme key `white` does not override the literal white |
| Scenarios.CleansStyles | tests/Colors/ColorTest.php:95-110 | a new object made from the string of any chain of literal styles over an escape-free text prints that text after clean() and after strip() |
| Scenarios.CleansRedOnGreen | tests/Colors/ColorTest.php:95-110 | the string of `color('foo')->red()->highlight('green')`, put in a new object, prints "foo" after clean() and after strip() |
| Scenarios.HighlightAfterLiteral | tests/Colors/ColorTest.php:97 | a literal style followed by highlight(color) is the chain of that style and `bg_` color |
| Scenarios.OnlyDecoratesWhenSupported | tests/Colors/ColorTest.php:130-131 | without terminal support apply leaves the object as it was |
| Scenarios.RejectsBadThemeKey | lib/Colors/Color.php:184-188 | a theme with a good key, then a bad one, throws for the bad key and keeps the object |
| Scenarios.FooBarIsNotAStyleName | lib/Colors/Color.php:10 | "ok" passes the pattern and "foo-bar" does not |
| Scenarios.AcceptsKeyWithFinalNewline | lib/Colors/Color.php:10 | a key with one final newline passes, though it is not an identifier |
| Scenarios.ColorizeTagAfterText | lib/Colors/Color.php:207-227 | text then `<name>`content`</name>` with a literal name becomes the text, then the content in the style's codes |
| Scenarios.ColorizeLiteralAround | lib/Colors/Color.php:224-227 | a literal tag wraps the expansion of its content |
| Scenarios.ColorizeNested | lib/Colors/Color.php:224-227 | nested tags: the inner one expands first, then the outer style wraps the result |
| Scenarios.ColorizeEmpty | lib/Colors/Color.php:207-210 | the empty text has nothing to expand |
| Scenarios.ColorizeUnknownTag | lib/Colors/Color.php:224-227 | a tag naming no style throws Invalid style with that name, closed either by `</name>` or by `</>` |

## Left out

- `isSupported()` probes the operating system, the environment and the terminal. It is the
  parameter `enabled`, fixed for one top-level call, including every nested `apply` inside
  `colorize`.
- `__call` and `__get` only forward to `apply`. The model calls `Apply` and `ApplyTo` directly.
  `__toString` is `ToString`.
- `center` is left out. It depends on UTF-8 byte length against code-point length, `str_pad`,
  `trim` and `PHP_EOL`. Its `$width` also grows from line to line.
- The `Colors\InvalidArgumentException` class is not part of this model. Its messages are
  modelled by `Error.Message`.
- PHP arrays with integer keys are left out. Theme keys are strings here. PHP would store a
  numeric key as an integer and the pattern would see its decimal form.
- `preg_replace` and `preg_replace_callback` failures are left out. PHP returns null when PCRE
  hits its backtracking or recursion limit, or runs out of JIT stack, which the lazy `(.*?)` can
  do on a long text. Neither pattern has the `u` modifier, so byte content alone never fails.
  The scanners always return a result.
- General PCRE is left out. Only the two fixed patterns are modelled, as scanners.
- `strtolower` is locale-independent here: only A-Z are folded.
- Stylizer.Stylize: with styling enabled it requires the whole theme to be acyclic. On a theme
  with a cycle PHP still styles every literal name, throws for every unknown name and expands
  every alias whose expansion never reaches the cycle; only a name that reaches the cycle
  recurses until PHP runs out of stack or memory. None of those calls is modelled.
- Markup.Colorize: inherits the same precondition, so on a cyclic theme not even a text
  without tags, or with literal tags only, is modelled.
- Colors.Apply: inherits the same precondition, as do `ApplyTo`, `Fg`, `Bg`, `Highlight`, their
  `To` forms, `ApplyAll`, `ColorizeWrapped` and `ColorizeTo`.
- 256colors.php and example.php only echo output, so they are not modelled.
- `tests/Colors/ColorsTest.php` tests a `tap` method. That method does not exist in this
  revision of Color.php.
- Scenarios.ThemeAliasFoldsInOrder: covers `warning` alone. The test also chains `bold` after
  it, which `Colors.LiteralChainNests` covers for literal styles only.
- Scenarios.OnlyDecoratesWhenSupported: states only the disabled half of the test. The enabled
  half is `Scenarios.DecoratesRed` with another text.
