# colorize.py in Dafny

colorize.py turns a colour specification into ANSI SGR (Select Graphic Rendition) parameters and
wraps a text in the resulting escape sequence. `colorLookup` classifies a spec in a fixed order:

- three base-6 digits select an entry of the 6x6x6 colour cube (16-231);
- `grey`/`gray` plus one or two digits, in any case, selects an entry of the grey ramp (232-255);
- any other string is lower-cased and looked up in the foreground or background table of sixteen
  named colours;
- a dict gives a 24-bit colour from its `r`, `g` and `b` entries, each reduced modulo 256;
- anything else gives nothing.

`process8BitAnsiCode` builds the `38;5;n` / `48;5;n` triple. Its `value` is annotated as `str`,
but both callers pass an `int`, so `Colorize.Process8BitAnsiCode` takes a number. `colorize`
then emits, in this order:

- the foreground codes;
- the background codes;
- bold (1), italic (3) and underline (4), as requested.

It joins the codes with `;` and returns `ESC [ codes m text ESC [ 0 m`.

The project has four modules:

- `Text` (text.dfy) holds the pieces of Python's string handling the program relies on:
  `str.lower()`, `int(s, base)`, `str(n)` and `';'.join`, plus a parser that undoes the join.
- `Sgr` (sgr.dfy) is an independent reading of SGR sequences after ECMA-48 section 8.3.117. It
  includes the `38/48;5;n` and `38/48;2;r;g;b` extensions. It says which colours and attributes a
  terminal shows after a parameter list, and it reads one sequence back from a string.
- `Colorize` (colorize.dfy) is the program itself:
  - the two tables, the style constants and `RESET`;
  - the two regular expressions as predicates;
  - `colorLookup` and `process8BitAnsiCode` as functions;
  - `colorize` as a method that extends a local list step by step and joins it with a loop.
- `ColorizeProperties` (properties.dfy) holds what the program promises. Each kind of spec is
  measured against the palette meaning it asks for (`Meaning`) and against what `Sgr` makes of
  its parameters. It also covers the shape of the tables, case-insensitivity, the order of the
  tests, the order of the style codes and the exact output string.

The regular expressions are modelled as Python's `re` runs them:

- `$` also matches just before a final newline, so `"123\n"` and `"grey5\n"` are accepted;
  `int()` ignores that newline.
- The class `[a|e]` holds `a`, `|` and `e`, so `"gr|y5"` is a grey spec. This behaviour is kept
  as written.
- Case is ignored with `Text.Lower`. It folds ASCII letters and the Kelvin sign U+212A, the one
  non-ASCII character whose lower case is an ASCII letter.

## Model

| member | source | states |
|---|---|---|
| Text.LowerStr | colorize.py:101 | the modelled `code.lower()` keeps the length and lower-cases every character |
| Text.LowerIdempotent | colorize.py:101 | lower-casing a lower-cased string changes nothing |
| Text.Decimal | colorize.py:70 | `str(n)` is a non-empty run of digits, without a leading zero unless it is "0", whose decimal value is n |
| Text.JoinParams | colorize.py:70 | the joined parameters hold only digits and ';', and are empty exactly when there are no parameters |
| Text.JoinParamsAppend | colorize.py:70 | joining one more number adds ';' and its numeral at the end |
| Text.ParseJoin | colorize.py:70 | reading the joined string back as a parameter string gives exactly the numbers joined |
| Sgr.ReadSgrWritten | colorize.py:72 | `ESC [ params m rest` is read back as those parameters followed by `rest` |
| Text.ValueIn | colorize.py:93 | `int(s, base)` on digits; no contract of its own: Colorize.Base6Value, ColorizeProperties.GreyResolves and Text.Decimal state its values |
| Colorize.MatchesBase6 | colorize.py:92 | the base-6 pattern; no contract of its own: ColorizeProperties.Base6Resolves, LowerBase6 and StringClassesDisjoint state what it accepts |
| Colorize.GreyWord | colorize.py:50 | the grey pattern without the final newline; no contract of its own: ColorizeProperties.LowerGrey and GreyResolves state what it accepts |
| Colorize.MatchesGrey | colorize.py:50 | `GRAYSCALE_REGEX.match`; no contract of its own: ColorizeProperties.LowerGrey, GreyResolves and StringClassesDisjoint state what it accepts |
| Colorize.GreyDigits | colorize.py:50 | the `greycode` group of a grey match is one or two digits |
| Colorize.Base6Value | colorize.py:93 | `int(code, 6)` of three digits 0-5 is 36*d0 + 6*d1 + d2, below 216 |
| Colorize.Channel | colorize.py:106-108 | `code.get(key, 0)`; no contract of its own: ColorizeProperties.RgbResolves states the channels |
| Colorize.Process8BitAnsiCode | colorize.py:119-123 | no contract of its own: ColorizeProperties.Process8BitRenders states what its triple selects |
| Colorize.ColorLookup | colorize.py:75-115 | every result has 0, 1, 3 or 5 codes, each below 256 |
| Colorize.SgrParams | colorize.py:58-69 | the `values` list; no contract of its own: ColorizeProperties.StyleOrder and ColorizeRenders state its order and meaning |
| Colorize.ColorizedText | colorize.py:70-72 | what colorize returns; no contract of its own: ColorizeProperties.ColorizedOutput states its shape and ColorizeRenders its effect |
| Colorize.JoinValues | colorize.py:70 | the loop builds exactly `';'.join` of the values |
| Colorize.Colorize | colorize.py:53-72 | the method returns the SGR sequence of fg codes, bg codes, bold, italic, underline, then the text and RESET |
| ColorizeProperties.TableKeys | colorize.py:3-39 | both tables have exactly the sixteen palette names as keys |
| ColorizeProperties.ForegroundCodes | colorize.py:3-20 | the foreground code of the i-th palette name is 30+i for standard colours and 90+(i-8) for bright ones |
| ColorizeProperties.BackgroundCodes | colorize.py:22-39 | the background code of the i-th palette name is 40+i for standard colours and 100+(i-8) for bright ones |
| ColorizeProperties.TablesAgree | colorize.py:3-39 | same keys, sixteen of them, and every background code is the foreground code plus 10 |
| ColorizeProperties.PaletteCodes | colorize.py:3-39 | each palette name is in both tables with its standard or bright code |
| ColorizeProperties.Base6Resolves | colorize.py:92-94 | a base-6 spec gives [38 or 48, 5, 16+36*d0+6*d1+d2], with the value in 16-231 |
| ColorizeProperties.CubeSpec | colorize.py:92-93 | every cube entry 16-231 has a three-digit base-6 spelling |
| ColorizeProperties.CubeSpecResolves | colorize.py:92-94 | that spelling selects exactly that cube entry, so every entry is reachable |
| ColorizeProperties.Base6Injective | colorize.py:92-94 | different base-6 specs select different cube entries |
| ColorizeProperties.GreyResolves | colorize.py:96-98 | a grey spec gives [38 or 48, 5, 232 + N mod 24], with the value in 232-255 |
| ColorizeProperties.GreyLevelReached | colorize.py:96-98 | "grey" plus the numeral of any level 0-23 selects that level of the ramp |
| ColorizeProperties.RgbResolves | colorize.py:105-110 | a dict gives [38 or 48, 2, r, g, b]; each channel is the byte that differs from the given channel (0 if missing) by a multiple of 256, negative channels included |
| ColorizeProperties.RgbKeepsBytes | colorize.py:105-110 | channels already in 0-255 are passed on unchanged |
| ColorizeProperties.NotAName | colorize.py:101-102 | a key with anything but a lower-case letter in it is in neither table |
| ColorizeProperties.StringClassesDisjoint | colorize.py:92-102 | a base-6 spec is never grey, and neither kind is a table name, so the order of the tests never changes the result |
| ColorizeProperties.LowerBase6 | colorize.py:92 | lower-casing neither makes nor breaks a base-6 spec, and leaves one unchanged |
| ColorizeProperties.LowerGrey | colorize.py:50 | lower-casing neither makes nor breaks a grey spec, and keeps its digits |
| ColorizeProperties.LookupCaseInsensitive | colorize.py:89-102 | a string and its lower case resolve to the same codes |
| ColorizeProperties.Process8BitRenders | colorize.py:119-123 | process8BitAnsiCode's triple sets palette entry `value` on the plane asked for and nothing else |
| ColorizeProperties.NameResolves | colorize.py:100-102 | a name gives the single code of its palette position on the plane asked for; any other string gives no codes |
| ColorizeProperties.NamedColorRenders | colorize.py:101-102 | a table code sets the plane asked for to the palette entry of the name |
| ColorizeProperties.StringLookupRenders | colorize.py:89-102 | a string spec's codes set its plane to the colour it means; it gives no codes exactly when it means none |
| ColorizeProperties.LookupRenders | colorize.py:75-115 | every spec's codes set its plane to the colour it means and leave the rest to later codes; no codes exactly when it means no colour |
| ColorizeProperties.StylesRender | colorize.py:61-69 | the style codes switch on bold, italic and underline as asked and change nothing else |
| ColorizeProperties.ColorizeRenders | colorize.py:53-72 | the text is shown in the colours fg and bg mean, with the styles asked; the list is empty, and so resets everything, exactly when nothing is asked |
| ColorizeProperties.StyleOrder | colorize.py:61-69 | after the colour codes come only style codes, strictly increasing, each present exactly when asked for |
| ColorizeProperties.UnknownNameEmpty | colorize.py:100-102 | a string that is not base-6, grey or a name gives no codes |
| ColorizeProperties.UnknownNameIgnored | colorize.py:59-60 | colorize with an unknown name for fg or bg returns what it returns for None |
| ColorizeProperties.ResetRestores | colorize.py:49 | RESET is one SGR sequence with the single parameter 0, which restores the plain state |
| ColorizeProperties.ColorizedOutput | colorize.py:70-72 | the output is one SGR sequence carrying exactly the collected codes, then the text, and always ends with RESET |
| ColorizeProperties.ExampleBase6 | colorize.py:92-94 | "123" and "123\n" give [38, 5, 67] |
| ColorizeProperties.ExampleGrey | colorize.py:96-98 | "GREY10" as background gives [48, 5, 242], and the spelling with a vertical bar in place of the vowel, level 5, gives [38, 5, 237] |
| ColorizeProperties.ExampleName | colorize.py:100-102 | "RED" as background gives [41] |
| ColorizeProperties.ExampleDict | colorize.py:105-110 | {r: 300, b: -1} gives [38, 2, 44, 0, 255] |
| ColorizeProperties.ExampleGreenBold | colorize.py:58-69 | green foreground and bold collect [32, 1] |
| ColorizeProperties.ExampleJoin | colorize.py:70 | [32, 1] is joined as "32;1" |
| ColorizeProperties.ExampleColorize | colorize.py:53-72 | colorize("x", fg="green", bold=True) is `ESC [32;1m x ESC [0m` |
| ColorizeProperties.ExampleNothingAsked | colorize.py:53-72 | with nothing asked the sequence has no parameters: `ESC [m hi ESC [0m` |

## Left out

- The demo at module level (colorize.py:126-168) is left out. It only prints sample output.
- No terminal is modelled. `Sgr` stands in for one, and it tracks only the two colours and bold,
  italic and underline.
- Escape sequences inside `text` are not interpreted. The text is carried through unchanged.
- Dict channels are integers. A float channel (float modulo) is not modelled. Neither is a
  string channel, where `%` is printf-style formatting: a `TypeError`, or a formatted string. Keys other than strings are not modelled either.
- The dict branch turns each channel into a string with `str()`. The model keeps the channel as
  a number, which `colorize` renders with the same numeral when it joins the list.
- `type(code) == str` and `type(code) == dict` are exact type tests. A subclass of `str` or
  `dict` therefore falls into the last branch. `ColorSpec.Other` stands for every such value.
- Text.Lower covers ASCII letters and the Kelvin sign only. Python lower-cases more characters,
  but none of those can turn a string into one of the ASCII colour names. Two cases show this:
  - a character whose lower case is several characters (U+0130) yields a combining dot, which
    no name contains;
  - the other non-ASCII characters stay non-ASCII.
- `styles.fade` (2) and `styles.reverse` (7) are constants only, because nothing uses them.
  `Sgr` leaves parameters it does not track, 2 and 7 among them, without effect.
- Default arguments are not reproduced. Callers pass every argument explicitly: `Other` for
  `fg=None` and `bg=None`, `false` for `bold`, `underline`, `italic` and `isBg`.
- `text` is a string. The f-string would accept any object and insert its `str()`.
