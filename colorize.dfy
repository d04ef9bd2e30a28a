/**
 * colorize.py: resolving a colour specification into SGR parameters
 * (colorLookup, process8BitAnsiCode) and wrapping a text in the resulting
 * escape sequence followed by a reset (colorize).
 */
module Colorize {
  import opened Text
  import Sgr

  /** An SGR parameter that fits in a byte, as every code in the tables does. */
  type Code = n: nat | n < 256

  /** Foreground codes of the sixteen named colours. */
  const FG_COLORS: map<string, Code> := map[
    "black" := 30,
    "red" := 31,
    "green" := 32,
    "yellow" := 33,
    "blue" := 34,
    "magenta" := 35,
    "cyan" := 36,
    "lightgrey" := 37,
    "grey" := 90,
    "lightred" := 91,
    "lightgreen" := 92,
    "lightyellow" := 93,
    "lightblue" := 94,
    "lightmagenta" := 95,
    "lightcyan" := 96,
    "white" := 97
  ]

  /** Background codes of the sixteen named colours. */
  const BG_COLORS: map<string, Code> := map[
    "black" := 40,
    "red" := 41,
    "green" := 42,
    "yellow" := 43,
    "blue" := 44,
    "magenta" := 45,
    "cyan" := 46,
    "lightgrey" := 47,
    "grey" := 100,
    "lightred" := 101,
    "lightgreen" := 102,
    "lightyellow" := 103,
    "lightblue" := 104,
    "lightmagenta" := 105,
    "lightcyan" := 106,
    "white" := 107
  ]

  // The members of the `styles` class. Fade and reverse are defined but
  // nothing uses them.
  const STYLE_BOLD: nat := 1
  const STYLE_FADE: nat := 2
  const STYLE_ITALIC: nat := 3
  const STYLE_UNDERLINE: nat := 4
  const STYLE_REVERSE: nat := 7

  /** ESC [ 0 m: the sequence that ends every colorized text. */
  const RESET: string := Sgr.CSI + "0m"

  /**
   * The value passed as `fg` or `bg`, by its Python type: a string, a dict
   * (only its integer entries under the keys "r", "g" and "b" matter) or
   * anything else, None included.
   */
  datatype ColorSpec = Str(s: string) | Dict(entries: map<string, int>) | Other

  /** 38 selects the foreground extended colour, 48 the background one. */
  function TypeCode(isBg: bool): nat {
    if isBg then 48 else 38
  }

  /** Exactly three characters, each a digit from 0 to 5. */
  predicate Base6Triple(s: string) {
    |s| == 3 && forall i :: 0 <= i < |s| ==> '0' <= s[i] <= '5'
  }

  /**
   * `re.match(r"^[0-5]{3}$", s)`. Python's `$` also matches just before a
   * newline that ends the string, so a fourth character '\n' is accepted.
   */
  predicate MatchesBase6(s: string) {
    Base6Triple(s) || (|s| == 4 && s[3] == '\n' && Base6Triple(s[..3]))
  }

  /**
   * `gr[a|e]y` followed by one or two ASCII digits, ignoring case. The
   * character class holds 'a', '|' and 'e', so "gr|y" is accepted too.
   */
  predicate GreyWord(s: string) {
    && |s| >= 4
    && Lower(s[0]) == 'g'
    && Lower(s[1]) == 'r'
    && (Lower(s[2]) == 'a' || Lower(s[2]) == '|' || Lower(s[2]) == 'e')
    && Lower(s[3]) == 'y'
    && 5 <= |s| <= 6
    && AllDigits(s[4..])
  }

  /** GRAYSCALE_REGEX.match(s), with `$` again allowing one final newline. */
  predicate MatchesGrey(s: string) {
    GreyWord(s) || (|s| > 0 && s[|s| - 1] == '\n' && GreyWord(s[..|s| - 1]))
  }

  /** The `greycode` group of a grey match: the one or two digits. */
  function GreyDigits(s: string): (d: string)
    requires MatchesGrey(s)
    ensures 1 <= |d| <= 2 && AllDigits(d)
  {
    if GreyWord(s) then s[4..] else s[4..|s| - 1]
  }

  /** `int(s, 6)` of three base-6 digits, written out positionally. */
  lemma Base6Value(s: string)
    requires Base6Triple(s)
    ensures AllDigits(s)
    ensures ValueIn(s, 6) == 36 * DigitValue(s[0]) + 6 * DigitValue(s[1]) + DigitValue(s[2])
    ensures ValueIn(s, 6) < 216
  {
    assert s[..3] == s;
    assert s[..2][..1] == s[..1] && s[..1][..0] == [];
    assert ValueIn(s[..1], 6) == DigitValue(s[0]);
    assert ValueIn(s[..2], 6) == 6 * DigitValue(s[0]) + DigitValue(s[1]);
  }

  /** The channel `key` of a dict spec; a missing key counts as 0. */
  function Channel(m: map<string, int>, key: string): int {
    if key in m then m[key] else 0
  }

  /**
   * process8BitAnsiCode: the three parameters that select palette entry
   * `value` on the foreground or background.
   */
  function Process8BitAnsiCode(value: nat, isBg: bool): seq<nat> {
    [TypeCode(isBg), 5, value]
  }

  /**
   * colorLookup: the SGR parameters for one colour spec. Strings are tried
   * as three base-6 digits, then as a grey level, then as a colour name;
   * dicts give a 24-bit colour; anything else gives nothing.
   */
  function ColorLookup(code: ColorSpec, isBg: bool): (r: seq<nat>)
    ensures |r| == 0 || |r| == 1 || |r| == 3 || |r| == 5
    ensures forall i :: 0 <= i < |r| ==> r[i] < 256
  {
    var targetTable := if isBg then BG_COLORS else FG_COLORS;
    match code
    case Str(s) =>
      if MatchesBase6(s) then
        Base6Value(s[..3]);
        Process8BitAnsiCode(ValueIn(s[..3], 6) + 16, isBg)
      else if MatchesGrey(s) then
        Process8BitAnsiCode(ValueIn(GreyDigits(s), 10) % 24 + 232, isBg)
      else
        var key := LowerStr(s);
        if key in targetTable then [targetTable[key]] else []
    case Dict(m) =>
      [TypeCode(isBg), 2, Channel(m, "r") % 256, Channel(m, "g") % 256, Channel(m, "b") % 256]
    case Other => []
  }

  /**
   * The list `values` that colorize joins: the foreground codes, the
   * background codes, then bold, italic and underline as requested.
   */
  function SgrParams(fg: ColorSpec, bg: ColorSpec, bold: bool, underline: bool, italic: bool): seq<nat> {
    ColorLookup(fg, false) + ColorLookup(bg, true)
    + (if bold then [STYLE_BOLD] else [])
    + (if italic then [STYLE_ITALIC] else [])
    + (if underline then [STYLE_UNDERLINE] else [])
  }

  /** What colorize returns. */
  function ColorizedText(text: string, fg: ColorSpec, bg: ColorSpec, bold: bool, underline: bool, italic: bool): string {
    Sgr.CSI + JoinParams(SgrParams(fg, bg, bold, underline, italic)) + [Sgr.SGR_FINAL] + text + RESET
  }

  /**
   * `';'.join(str(item) for item in values)`: the decimal numerals of the
   * parameters, one at a time, with ';' between neighbours.
   */
  method JoinValues(values: seq<nat>) returns (joined: string)
    ensures joined == JoinParams(values)
  {
    joined := "";
    var i := 0;
    while i < |values|
      invariant i <= |values|
      invariant joined == JoinParams(values[..i])
    {
      JoinParamsAppend(values[..i], values[i]);
      assert values[..i + 1] == values[..i] + [values[i]];
      if i == 0 {
        joined := Decimal(values[i]);
      } else {
        joined := joined + ";" + Decimal(values[i]);
      }
      i := i + 1;
    }
    assert values[..i] == values;
  }

  /**
   * colorize: collects the parameters in a list, joins them with ';' and
   * wraps `text` between the SGR sequence and RESET.
   */
  method Colorize(text: string, fg: ColorSpec, bg: ColorSpec, bold: bool, underline: bool, italic: bool)
    returns (out: string)
    ensures out == ColorizedText(text, fg, bg, bold, underline, italic)
  {
    var values: seq<nat> := [];
    var finalFg := ColorLookup(fg, false);
    var finalBg := ColorLookup(bg, true);
    var boldStyle: seq<nat> := if bold then [STYLE_BOLD] else [];
    var italicStyle: seq<nat> := if italic then [STYLE_ITALIC] else [];
    var underlineStyle: seq<nat> := if underline then [STYLE_UNDERLINE] else [];

    values := values + finalFg;
    assert values == finalFg;
    values := values + finalBg;
    values := values + boldStyle;
    values := values + italicStyle;
    values := values + underlineStyle;
    assert values == SgrParams(fg, bg, bold, underline, italic);

    var finalValues := JoinValues(values);
    out := Sgr.CSI + finalValues + [Sgr.SGR_FINAL] + text + RESET;
  }
}
