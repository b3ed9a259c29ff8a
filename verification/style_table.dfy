/** The 23 literal styles of Color::$_styles and the escape sequences they produce. */
module StyleTable {
  import opened Chars

  /** Style name to SGR parameter; each template is ESC "[" code "m" %s ESC "[0m". */
  const Codes: map<string, string> := map[
    // styles
    "bold" := "1", "dark" := "2", "italic" := "3", "underline" := "4",
    "blink" := "5", "reverse" := "7", "concealed" := "8",
    // foreground colors
    "black" := "30", "red" := "31", "green" := "32", "yellow" := "33",
    "blue" := "34", "magenta" := "35", "cyan" := "36", "white" := "37",
    // background colors
    "bg_black" := "40", "bg_red" := "41", "bg_green" := "42", "bg_yellow" := "43",
    "bg_blue" := "44", "bg_magenta" := "45", "bg_cyan" := "46", "bg_white" := "47"
  ]

  predicate IsLiteral(name: string) {
    name in Codes
  }

  /** The select-graphic-rendition sequence ESC "[" code "m". */
  function Sgr(code: string): string {
    [ESC, '['] + code + "m"
  }

  /** sprintf of a literal template: open with `code`, close with the reset code 0. */
  function Wrap(code: string, text: string): string {
    Sgr(code) + text + Sgr("0")
  }

  /** A non-empty run of decimal digits. */
  predicate IsCode(code: string) {
    |code| > 0 && forall i :: 0 <= i < |code| ==> IsDigit(code[i])
  }

  /** Every template of the table opens with ESC "[" digits "m". */
  lemma CodesAreDigits(name: string)
    requires IsLiteral(name)
    ensures IsCode(Codes[name])
  {
  }

  /** The three groups of the table: text styles, foreground colors, background colors. */
  ghost const StyleNames: set<string> :=
    {"bold", "dark", "italic", "underline", "blink", "reverse", "concealed"}
  ghost const ForegroundNames: set<string> :=
    {"black", "red", "green", "yellow", "blue", "magenta", "cyan", "white"}
  ghost const BackgroundNames: set<string> :=
    {"bg_black", "bg_red", "bg_green", "bg_yellow", "bg_blue", "bg_magenta", "bg_cyan", "bg_white"}

  lemma Groups(name: string)
    requires IsLiteral(name)
    ensures name in StyleNames || name in ForegroundNames || name in BackgroundNames
  {
  }

  /** Letters and underscores only. */
  ghost predicate IsLowerWord(s: string) {
    |s| > 0 && forall i :: 0 <= i < |s| ==> ('a' <= s[i] <= 'z' || s[i] == '_')
  }

  lemma StyleNamesAreWords(name: string)
    requires name in StyleNames
    ensures IsLowerWord(name)
  {
  }

  lemma ForegroundNamesAreWords(name: string)
    requires name in ForegroundNames
    ensures IsLowerWord(name)
  {
  }

  lemma BackgroundNamesAreWords(name: string)
    requires name in BackgroundNames
    ensures IsLowerWord(name)
  {
  }

  /** Every literal name is a lower-case identifier, so lowercasing a caller's name can reach it. */
  lemma LiteralNamesAreLowercaseNames(name: string)
    requires IsLiteral(name)
    ensures IsName(name)
    ensures Lower(name) == name
  {
    Groups(name);
    if name in StyleNames {
      StyleNamesAreWords(name);
    } else if name in ForegroundNames {
      ForegroundNamesAreWords(name);
    } else {
      BackgroundNamesAreWords(name);
    }
    LowerOfLowercase(name);
  }

  /** Each text style with its code. */
  lemma StyleEntries()
    ensures "bold" in Codes && Codes["bold"] == "1"
    ensures "dark" in Codes && Codes["dark"] == "2"
    ensures "italic" in Codes && Codes["italic"] == "3"
    ensures "underline" in Codes && Codes["underline"] == "4"
    ensures "blink" in Codes && Codes["blink"] == "5"
    ensures "reverse" in Codes && Codes["reverse"] == "7"
    ensures "concealed" in Codes && Codes["concealed"] == "8"
  {
  }

  /** Each foreground color with its code. */
  lemma ForegroundEntries()
    ensures "black" in Codes && Codes["black"] == "30"
    ensures "red" in Codes && Codes["red"] == "31"
    ensures "green" in Codes && Codes["green"] == "32"
    ensures "yellow" in Codes && Codes["yellow"] == "33"
    ensures "blue" in Codes && Codes["blue"] == "34"
    ensures "magenta" in Codes && Codes["magenta"] == "35"
    ensures "cyan" in Codes && Codes["cyan"] == "36"
    ensures "white" in Codes && Codes["white"] == "37"
  {
  }

  /** Each background color with its code. */
  lemma BackgroundEntries()
    ensures "bg_black" in Codes && Codes["bg_black"] == "40"
    ensures "bg_red" in Codes && Codes["bg_red"] == "41"
    ensures "bg_green" in Codes && Codes["bg_green"] == "42"
    ensures "bg_yellow" in Codes && Codes["bg_yellow"] == "43"
    ensures "bg_blue" in Codes && Codes["bg_blue"] == "44"
    ensures "bg_magenta" in Codes && Codes["bg_magenta"] == "45"
    ensures "bg_cyan" in Codes && Codes["bg_cyan"] == "46"
    ensures "bg_white" in Codes && Codes["bg_white"] == "47"
  {
  }
}
