/**
 * What colorize.py's resolution and wrapping mean: each kind of colour spec
 * against the 256-colour palette and the SGR reading of module Sgr, the
 * shape of the tables, and the string colorize returns.
 */
module ColorizeProperties {
  import opened Text
  import opened Colorize
  import Sgr

  /**
   * The sixteen named colours in the order of the terminal palette: entries
   * 0-7 are the standard colours, 8-15 their bright variants.
   */
  const PALETTE_NAMES: seq<string> := [
    "black", "red", "green", "yellow", "blue", "magenta", "cyan", "lightgrey",
    "grey", "lightred", "lightgreen", "lightyellow", "lightblue", "lightmagenta", "lightcyan", "white"
  ]

  /** The position of `x` in `xs`. */
  function IndexOf(xs: seq<string>, x: string): (i: nat)
    requires x in xs
    ensures i < |xs| && xs[i] == x
    ensures forall j :: 0 <= j < i ==> xs[j] != x
  {
    if xs[0] == x then 0 else 1 + IndexOf(xs[1..], x)
  }

  /**
   * The 6x6x6 cube entry of a base-6 spec: red, green and blue levels
   * 0-5 from the first, second and third digit.
   */
  function CubeEntry(red: nat, green: nat, blue: nat): nat {
    16 + 36 * red + 6 * green + blue
  }

  /**
   * The colour a spec asks for, independently of how it is encoded as SGR
   * parameters: a cube entry, a grey-ramp entry, a named palette entry, a
   * 24-bit colour with channels reduced as Python's `%` does, or nothing.
   */
  function Meaning(spec: ColorSpec): Option<Sgr.Color> {
    match spec
    case Str(s) =>
      if MatchesBase6(s) then
        Some(Sgr.Palette(CubeEntry(DigitValue(s[0]), DigitValue(s[1]), DigitValue(s[2]))))
      else if MatchesGrey(s) then
        Some(Sgr.Palette(232 + ValueIn(GreyDigits(s), 10) % 24))
      else if LowerStr(s) in PALETTE_NAMES then
        Some(Sgr.Palette(IndexOf(PALETTE_NAMES, LowerStr(s))))
      else None
    case Dict(m) =>
      Some(Sgr.TrueColor(Channel(m, "r") % 256, Channel(m, "g") % 256, Channel(m, "b") % 256))
    case Other => None
  }

  // ---------------------------------------------------------------------
  // The tables

  /** The names in palette order are sixteen different strings. */
  lemma PaletteNamesDistinct()
    ensures forall i, j :: 0 <= i < j < |PALETTE_NAMES| ==> PALETTE_NAMES[i] != PALETTE_NAMES[j]
  {
  }

  lemma TableKeys()
    ensures forall name :: name in FG_COLORS <==> name in PALETTE_NAMES
    ensures forall name :: name in BG_COLORS <==> name in PALETTE_NAMES
  {
  }

  lemma ForegroundCodes()
    ensures forall i :: 0 <= i < |PALETTE_NAMES| ==>
              FG_COLORS[PALETTE_NAMES[i]] == if i < 8 then 30 + i else 90 + (i - 8)
  {
  }

  lemma BackgroundCodes()
    ensures forall i :: 0 <= i < |PALETTE_NAMES| ==>
              BG_COLORS[PALETTE_NAMES[i]] == if i < 8 then 40 + i else 100 + (i - 8)
  {
  }

  /** A sequence without repetitions has as many elements as it has distinct values. */
  lemma {:induction false} DistinctCount(xs: seq<string>)
    requires forall i, j :: 0 <= i < j < |xs| ==> xs[i] != xs[j]
    ensures |set x | x in xs| == |xs|
    decreases |xs|
  {
    if xs != [] {
      var rest := xs[1..];
      DistinctCount(rest);
      assert (set x | x in xs) == (set x | x in rest) + {xs[0]};
      assert xs[0] !in rest;
    }
  }

  /**
   * Both tables name the same sixteen colours, every background code is
   * the foreground code plus 10, and the foreground codes are 30-37 for the
   * standard colours and 90-97 for the bright ones, in palette order.
   */
  lemma TablesAgree()
    ensures FG_COLORS.Keys == BG_COLORS.Keys
    ensures |FG_COLORS| == 16
    ensures forall name :: name in FG_COLORS ==> BG_COLORS[name] as int == FG_COLORS[name] as int + 10
    ensures forall i :: 0 <= i < |PALETTE_NAMES| ==>
              FG_COLORS[PALETTE_NAMES[i]] == if i < 8 then 30 + i else 90 + (i - 8)
  {
    TableKeys();
    ForegroundCodes();
    BackgroundCodes();
    PaletteNamesDistinct();
    DistinctCount(PALETTE_NAMES);
    assert FG_COLORS.Keys == set x | x in PALETTE_NAMES;
    forall name | name in FG_COLORS
      ensures BG_COLORS[name] as int == FG_COLORS[name] as int + 10
    {
      var i := IndexOf(PALETTE_NAMES, name);
    }
  }

  // ---------------------------------------------------------------------
  // Strings of three base-6 digits

  /** A base-6 spec selects the cube entry of its three digits, on the plane asked for. */
  lemma Base6Resolves(s: string, isBg: bool)
    requires MatchesBase6(s)
    ensures forall i :: 0 <= i < 3 ==> '0' <= s[i] <= '5'
    ensures ColorLookup(Str(s), isBg) ==
            [TypeCode(isBg), 5, CubeEntry(DigitValue(s[0]), DigitValue(s[1]), DigitValue(s[2]))]
    ensures 16 <= ColorLookup(Str(s), isBg)[2] <= 231
  {
    assert s[..3][0] == s[0] && s[..3][1] == s[1] && s[..3][2] == s[2];
    Base6Value(s[..3]);
  }

  /** The three base-6 digits naming cube entry `v`: the inverse of the base-6 reading. */
  function CubeSpec(v: nat): (s: string)
    requires 16 <= v <= 231
    ensures Base6Triple(s)
  {
    var n := v - 16;
    [DigitChar(n / 36), DigitChar(n / 6 % 6), DigitChar(n % 6)]
  }

  /** The digits of a cube entry are recovered by division. */
  lemma CubeDigits(red: nat, green: nat, blue: nat)
    requires red < 6 && green < 6 && blue < 6
    ensures var n := CubeEntry(red, green, blue) - 16;
            n / 36 == red && n / 6 % 6 == green && n % 6 == blue
  {
    var n := 36 * red + 6 * green + blue;
    assert n == 6 * (6 * red + green) + blue;
    assert n / 6 == 6 * red + green;
  }

  /** Division recovers a number below 216 from its three base-6 digits. */
  lemma CubeSplit(n: nat)
    requires n < 216
    ensures 36 * (n / 36) + 6 * (n / 6 % 6) + n % 6 == n
  {
    var q := n / 6;
    assert n == 6 * q + n % 6;
    assert q == 6 * (q / 6) + q % 6;
    assert q / 6 == n / 36;
  }

  /** Every cube entry 16-231 is reached by the base-6 spec CubeSpec gives for it. */
  lemma CubeSpecResolves(v: nat, isBg: bool)
    requires 16 <= v <= 231
    ensures ColorLookup(Str(CubeSpec(v)), isBg) == [TypeCode(isBg), 5, v]
  {
    var c := CubeSpec(v);
    Base6Resolves(c, isBg);
    var n := v - 16;
    assert DigitValue(c[0]) == n / 36 && DigitValue(c[1]) == n / 6 % 6 && DigitValue(c[2]) == n % 6;
    CubeSplit(n);
  }

  /** Different strings of three base-6 digits select different cube entries. */
  lemma Base6Injective(s: string, t: string, isBg: bool)
    requires Base6Triple(s) && Base6Triple(t)
    requires ColorLookup(Str(s), isBg) == ColorLookup(Str(t), isBg)
    ensures s == t
  {
    Base6Resolves(s, isBg);
    Base6Resolves(t, isBg);
    CubeDigits(DigitValue(s[0]), DigitValue(s[1]), DigitValue(s[2]));
    CubeDigits(DigitValue(t[0]), DigitValue(t[1]), DigitValue(t[2]));
    forall i | 0 <= i < 3
      ensures s[i] == t[i]
    {
      assert DigitValue(s[i]) == DigitValue(t[i]);
    }
  }

  // ---------------------------------------------------------------------
  // Grey levels

  /** A grey spec selects grey-ramp entry 232 + (N mod 24), on the plane asked for. */
  lemma GreyResolves(s: string, isBg: bool)
    requires MatchesGrey(s)
    ensures ColorLookup(Str(s), isBg) == [TypeCode(isBg), 5, 232 + ValueIn(GreyDigits(s), 10) % 24]
    ensures 232 <= ColorLookup(Str(s), isBg)[2] <= 255
  {
    assert !MatchesBase6(s) by {
      assert Lower(s[0]) == 'g';
    }
  }

  /** "grey" followed by the decimal numeral of a level 0-23 selects that level of the ramp. */
  lemma GreyLevelReached(level: nat, isBg: bool)
    requires level < 24
    ensures ColorLookup(Str("grey" + Decimal(level)), isBg) == [TypeCode(isBg), 5, 232 + level]
  {
    var s := "grey" + Decimal(level);
    assert s[4..] == Decimal(level);
    assert GreyWord(s);
    GreyResolves(s, isBg);
  }

  // ---------------------------------------------------------------------
  // Dicts

  /**
   * A dict spec selects a 24-bit colour whose channels are those of "r",
   * "g" and "b" (0 when missing) reduced into 0-255 the way Python's `%`
   * does: the byte that differs from the channel by a multiple of 256.
   */
  lemma RgbResolves(m: map<string, int>, isBg: bool)
    ensures var r := ColorLookup(Dict(m), isBg);
            && |r| == 5 && r[0] == TypeCode(isBg) && r[1] == 2
            && (forall k :: 2 <= k < 5 ==> r[k] < 256)
            && (Channel(m, "r") - r[2]) % 256 == 0
            && (Channel(m, "g") - r[3]) % 256 == 0
            && (Channel(m, "b") - r[4]) % 256 == 0
  {
    ByteOf(Channel(m, "r"));
    ByteOf(Channel(m, "g"));
    ByteOf(Channel(m, "b"));
  }

  /** `x % 256` is the byte that differs from `x` by a multiple of 256, also for negative `x`. */
  lemma ByteOf(x: int)
    ensures 0 <= x % 256 < 256 && (x - x % 256) % 256 == 0
  {
    assert x - x % 256 == 256 * (x / 256);
  }

  /** A channel already in 0-255 is passed on unchanged. */
  lemma RgbKeepsBytes(m: map<string, int>, isBg: bool)
    requires forall k :: k in m ==> 0 <= m[k] < 256
    ensures ColorLookup(Dict(m), isBg) == [TypeCode(isBg), 2, Channel(m, "r"), Channel(m, "g"), Channel(m, "b")]
  {
  }

  // ---------------------------------------------------------------------
  // Which test a string meets

  /** Lower-case ASCII letters only. */
  predicate IsWord(w: string) {
    forall i :: 0 <= i < |w| ==> 'a' <= w[i] <= 'z'
  }

  /** Every colour name is a word of lower-case letters. */
  lemma PaletteNamesAreWords()
    ensures forall k :: 0 <= k < |PALETTE_NAMES| ==> IsWord(PALETTE_NAMES[k])
  {
    forall k | 0 <= k < |PALETTE_NAMES|
      ensures IsWord(PALETTE_NAMES[k])
    {
      var w := PALETTE_NAMES[k];
      forall i | 0 <= i < |w|
        ensures 'a' <= w[i] <= 'z'
      {
      }
    }
  }

  /** A string with anything but a lower-case letter at position `i` is in neither table. */
  lemma NotAName(key: string, i: nat)
    requires i < |key| && !('a' <= key[i] <= 'z')
    ensures key !in FG_COLORS && key !in BG_COLORS
  {
    TableKeys();
    PaletteNamesAreWords();
  }

  /**
   * No string meets more than one of the three string tests: a base-6 spec
   * starts with a digit, a grey spec with a 'g' and ends in a digit or a
   * newline, a table name is all letters. So the order in which colorLookup
   * tries them never changes its result.
   */
  lemma StringClassesDisjoint(s: string)
    ensures MatchesBase6(s) ==> !MatchesGrey(s)
    ensures MatchesBase6(s) || MatchesGrey(s) ==> LowerStr(s) !in FG_COLORS && LowerStr(s) !in BG_COLORS
  {
    var key := LowerStr(s);
    if MatchesBase6(s) {
      assert IsDigit(s[0]);
      LowerKeepsNonLetters(s[0]);
      NotAName(key, 0);
    } else if MatchesGrey(s) {
      if GreyWord(s) {
        assert IsDigit(s[4..][0]);
      } else {
        assert IsDigit(s[..|s| - 1][4..][0]);
      }
      LowerKeepsNonLetters(s[4]);
      NotAName(key, 4);
    }
  }

  // ---------------------------------------------------------------------
  // Case

  lemma LowerCharIdempotent(c: char)
    ensures Lower(Lower(c)) == Lower(c)
  {
  }

  /** Lower-casing commutes with taking a prefix. */
  lemma LowerPrefix(s: string, k: nat)
    requires k <= |s|
    ensures LowerStr(s)[..k] == LowerStr(s[..k])
  {
  }

  /** A word of lower-case letters is its own lower case. */
  lemma LowerOfWord(w: string)
    requires IsWord(w)
    ensures LowerStr(w) == w
  {
  }

  /** A string of digits and newlines is its own lower case. */
  lemma LowerOfDigits(s: string)
    requires forall i :: 0 <= i < |s| ==> IsDigit(s[i]) || s[i] == '\n'
    ensures LowerStr(s) == s
  {
  }

  /** Lower-casing neither makes nor breaks a base-6 spec, and leaves one unchanged. */
  lemma LowerBase6(s: string)
    ensures MatchesBase6(LowerStr(s)) <==> MatchesBase6(s)
    ensures MatchesBase6(s) ==> LowerStr(s) == s
  {
    var t := LowerStr(s);
    if MatchesBase6(s) {
      assert forall i :: 0 <= i < 3 ==> s[..3][i] == s[i];
      LowerOfDigits(s);
    }
    if MatchesBase6(t) {
      assert forall i :: 0 <= i < 3 ==> t[..3][i] == t[i];
      forall i | 0 <= i < |s|
        ensures t[i] == s[i]
      {
        LowerKeepsNonLetters(s[i]);
      }
      assert t == s;
    }
  }

  /** Lower-casing neither makes nor breaks the grey word, and keeps its digits. */
  lemma LowerGreyWord(s: string)
    ensures GreyWord(LowerStr(s)) <==> GreyWord(s)
    ensures GreyWord(s) ==> LowerStr(s)[4..] == s[4..]
  {
    var t := LowerStr(s);
    if |s| >= 4 {
      LowerCharIdempotent(s[0]);
      LowerCharIdempotent(s[1]);
      LowerCharIdempotent(s[2]);
      LowerCharIdempotent(s[3]);
    }
    if GreyWord(s) {
      LowerOfDigits(s[4..]);
      assert LowerStr(s[4..]) == t[4..];
    }
    if GreyWord(t) {
      forall i | 4 <= i < |s|
        ensures t[i] == s[i]
      {
        assert IsDigit(t[4..][i - 4]);
        LowerKeepsNonLetters(s[i]);
      }
      assert t[4..] == s[4..];
    }
  }

  /** Lower-casing neither makes nor breaks a grey spec, and keeps its level. */
  lemma LowerGrey(s: string)
    ensures MatchesGrey(LowerStr(s)) <==> MatchesGrey(s)
    ensures MatchesGrey(s) ==> GreyDigits(LowerStr(s)) == GreyDigits(s)
  {
    LowerGreyWord(s);
    if |s| > 0 {
      LowerGreyTrailing(s);
    }
  }

  /** The same, for the form with a final newline. */
  lemma LowerGreyTrailing(s: string)
    requires |s| > 0
    ensures var t, n := LowerStr(s), |s| - 1;
            && (t[n] == '\n' <==> s[n] == '\n')
            && (GreyWord(t[..n]) <==> GreyWord(s[..n]))
            && (GreyWord(s[..n]) ==> t[4..n] == s[4..n])
  {
    var t, n := LowerStr(s), |s| - 1;
    var p := s[..n];
    LowerKeepsNonLetters(s[n]);
    LowerPrefix(s, n);
    SameGreyWord(t[..n], LowerStr(p));
    LowerGreyWord(p);
    if GreyWord(p) {
      assert t[4..n] == LowerStr(p)[4..];
      assert s[4..n] == p[4..];
    }
  }

  /** Equal strings are grey words alike; stated apart so callers need not unfold GreyWord. */
  lemma SameGreyWord(a: string, b: string)
    requires a == b
    ensures GreyWord(a) == GreyWord(b)
  {
  }

  /**
   * colorLookup ignores case: a spec and its lower-case form resolve alike,
   * for names as for grey levels.
   */
  lemma LookupCaseInsensitive(s: string, isBg: bool)
    ensures ColorLookup(Str(LowerStr(s)), isBg) == ColorLookup(Str(s), isBg)
  {
    var t := LowerStr(s);
    LowerBase6(s);
    if MatchesBase6(s) {
      assert t == s;
    } else {
      LowerGrey(s);
      if MatchesGrey(s) {
        SameGreyLookup(t, s, isBg);
      } else {
        LowerIdempotent(s);
        SameNameLookup(t, s, isBg);
      }
    }
  }

  /** Two grey specs with the same digits resolve alike. */
  lemma SameGreyLookup(s: string, t: string, isBg: bool)
    requires !MatchesBase6(s) && !MatchesBase6(t) && MatchesGrey(s) && MatchesGrey(t)
    requires GreyDigits(s) == GreyDigits(t)
    ensures ColorLookup(Str(s), isBg) == ColorLookup(Str(t), isBg)
  {
  }

  /** Two strings that are neither base-6 nor grey and lower-case alike resolve alike. */
  lemma SameNameLookup(s: string, t: string, isBg: bool)
    requires !MatchesBase6(s) && !MatchesBase6(t) && !MatchesGrey(s) && !MatchesGrey(t)
    requires LowerStr(s) == LowerStr(t)
    ensures ColorLookup(Str(s), isBg) == ColorLookup(Str(t), isBg)
  {
  }

  // ---------------------------------------------------------------------
  // What a terminal shows

  /** The attributes after a spec's parameters: its plane set to the colour it means, if any. */
  function Effect(st: Sgr.Attrs, spec: ColorSpec, isBg: bool): Sgr.Attrs {
    match Meaning(spec)
    case None => st
    case Some(c) => Sgr.SetColor(st, isBg, c)
  }

  /** process8BitAnsiCode's three parameters select palette entry `value` on the plane asked for. */
  lemma Process8BitRenders(value: nat, isBg: bool, st: Sgr.Attrs, rest: seq<int>)
    requires value < 256
    ensures Sgr.Apply(st, Process8BitAnsiCode(value, isBg) + rest)
         == Sgr.Apply(Sgr.SetColor(st, isBg, Sgr.Palette(value)), rest)
  {
    var ps := Process8BitAnsiCode(value, isBg) + rest;
    assert ps[3..] == rest;
  }

  /** The codes of the colour at palette position `i`. */
  lemma PaletteCodes(i: nat)
    requires i < |PALETTE_NAMES|
    ensures PALETTE_NAMES[i] in FG_COLORS && PALETTE_NAMES[i] in BG_COLORS
    ensures FG_COLORS[PALETTE_NAMES[i]] == if i < 8 then 30 + i else 90 + (i - 8)
    ensures BG_COLORS[PALETTE_NAMES[i]] == if i < 8 then 40 + i else 100 + (i - 8)
  {
    TableKeys();
    ForegroundCodes();
    BackgroundCodes();
  }

  /**
   * The SGR code of palette entry `i` < 16 as a single parameter: 30-37 and
   * 90-97 on the foreground, 40-47 and 100-107 on the background.
   */
  function SingleCode(i: nat, isBg: bool): nat {
    (if isBg then 40 else 30) + (if i < 8 then i else 60 + (i - 8))
  }

  lemma SingleCodeRenders(i: nat, isBg: bool, st: Sgr.Attrs, rest: seq<int>)
    requires i < 16
    ensures Sgr.Apply(st, [SingleCode(i, isBg)] + rest) == Sgr.Apply(Sgr.SetColor(st, isBg, Sgr.Palette(i)), rest)
  {
    var ps := [SingleCode(i, isBg)] + rest;
    assert ps[1..] == rest;
  }

  /** A table code selects, on its own plane, the palette entry of the colour's position. */
  lemma NamedColorRenders(key: string, isBg: bool, st: Sgr.Attrs, rest: seq<int>)
    requires key in PALETTE_NAMES
    ensures var table := if isBg then BG_COLORS else FG_COLORS;
            && key in table
            && Sgr.Apply(st, [table[key]] + rest)
               == Sgr.Apply(Sgr.SetColor(st, isBg, Sgr.Palette(IndexOf(PALETTE_NAMES, key))), rest)
  {
    var i := IndexOf(PALETTE_NAMES, key);
    PaletteCodes(i);
    var table := if isBg then BG_COLORS else FG_COLORS;
    assert table[key] == SingleCode(i, isBg);
    SingleCodeRenders(i, isBg, st, rest);
  }

  /**
   * A string that is neither base-6 nor grey is looked up by its lower
   * case: a colour name gives the one code of its palette position on the
   * plane asked for, anything else gives no parameters.
   */
  lemma NameResolves(s: string, isBg: bool)
    requires !MatchesBase6(s) && !MatchesGrey(s)
    ensures var key := LowerStr(s);
            ColorLookup(Str(s), isBg) ==
              if key in PALETTE_NAMES then [SingleCode(IndexOf(PALETTE_NAMES, key), isBg)] else []
  {
    var key := LowerStr(s);
    TableKeys();
    if key in PALETTE_NAMES {
      PaletteCodes(IndexOf(PALETTE_NAMES, key));
    }
  }

  /** The parameters of a string spec, read by a terminal, carry out what the spec means. */
  lemma StringLookupRenders(s: string, isBg: bool, st: Sgr.Attrs, rest: seq<int>)
    ensures Sgr.Apply(st, ColorLookup(Str(s), isBg) + rest) == Sgr.Apply(Effect(st, Str(s), isBg), rest)
    ensures ColorLookup(Str(s), isBg) == [] <==> Meaning(Str(s)) == None
  {
    if MatchesBase6(s) {
      Base6Resolves(s, isBg);
      Process8BitRenders(ColorLookup(Str(s), isBg)[2], isBg, st, rest);
    } else if MatchesGrey(s) {
      GreyResolves(s, isBg);
      Process8BitRenders(ColorLookup(Str(s), isBg)[2], isBg, st, rest);
    } else {
      NameLookupRenders(s, isBg, st, rest);
    }
  }

  lemma NameLookupRenders(s: string, isBg: bool, st: Sgr.Attrs, rest: seq<int>)
    requires !MatchesBase6(s) && !MatchesGrey(s)
    ensures Sgr.Apply(st, ColorLookup(Str(s), isBg) + rest) == Sgr.Apply(Effect(st, Str(s), isBg), rest)
    ensures ColorLookup(Str(s), isBg) == [] <==> Meaning(Str(s)) == None
  {
    var key := LowerStr(s);
    TableKeys();
    if key in PALETTE_NAMES {
      NamedColorRenders(key, isBg, st, rest);
    } else {
      assert ColorLookup(Str(s), isBg) == [];
      assert [] + rest == rest;
    }
  }

  /**
   * colorLookup's parameters, as a terminal reads them, set the plane asked
   * for to the colour the spec means and change nothing else; parameters
   * after them are read as if they stood alone. A spec gives no parameters
   * exactly when it means no colour.
   */
  lemma LookupRenders(spec: ColorSpec, isBg: bool, st: Sgr.Attrs, rest: seq<int>)
    ensures Sgr.Apply(st, ColorLookup(spec, isBg) + rest) == Sgr.Apply(Effect(st, spec, isBg), rest)
    ensures ColorLookup(spec, isBg) == [] <==> Meaning(spec) == None
  {
    match spec
    case Str(s) =>
      StringLookupRenders(s, isBg, st, rest);
    case Dict(m) =>
      var ps := ColorLookup(spec, isBg) + rest;
      assert ps[5..] == rest;
    case Other =>
      assert [] + rest == rest;
  }

  /** The style parameters switch on what was asked for and keep the rest. */
  function Styled(st: Sgr.Attrs, bold: bool, underline: bool, italic: bool): Sgr.Attrs {
    st.(bold := st.bold || bold, italic := st.italic || italic, underline := st.underline || underline)
  }

  lemma StylesRender(st: Sgr.Attrs, bold: bool, underline: bool, italic: bool)
    ensures Sgr.Apply(st, (if bold then [STYLE_BOLD] else [])
                          + (if italic then [STYLE_ITALIC] else [])
                          + (if underline then [STYLE_UNDERLINE] else []))
         == Styled(st, bold, underline, italic)
  {
    var b: seq<int> := if bold then [STYLE_BOLD] else [];
    var i: seq<int> := if italic then [STYLE_ITALIC] else [];
    var u: seq<int> := if underline then [STYLE_UNDERLINE] else [];
    var st1 := st.(bold := st.bold || bold);
    var st2 := st1.(italic := st.italic || italic);
    assert Sgr.Apply(st2, u) == Styled(st, bold, underline, italic);
    if italic {
      assert (i + u)[1..] == u;
    } else {
      assert i + u == u;
    }
    assert Sgr.Apply(st1, i + u) == Sgr.Apply(st2, u);
    if bold {
      assert (b + i + u)[1..] == i + u;
    } else {
      assert b + i + u == i + u;
    }
  }

  /** Regrouping of the five parts of SgrParams, proved apart from any ColorLookup term. */
  lemma Regroup(f: seq<nat>, b: seq<nat>, x: seq<nat>, y: seq<nat>, z: seq<nat>)
    ensures f + b + x + y + z == f + (b + (x + y + z))
  {
  }

  /**
   * What the text is shown with: an empty parameter list resets every
   * attribute; otherwise the foreground and background are those the specs
   * mean (or stay as they were), and bold, italic and underline are switched
   * on as asked. The list is empty exactly when neither spec means a colour
   * and no style is asked for.
   */
  lemma ColorizeRenders(st: Sgr.Attrs, fg: ColorSpec, bg: ColorSpec, bold: bool, underline: bool, italic: bool)
    ensures SgrParams(fg, bg, bold, underline, italic) == [] <==>
            Meaning(fg) == None && Meaning(bg) == None && !bold && !italic && !underline
    ensures Sgr.Render(st, SgrParams(fg, bg, bold, underline, italic)) ==
            if SgrParams(fg, bg, bold, underline, italic) == [] then Sgr.Plain
            else Styled(Effect(Effect(st, fg, false), bg, true), bold, underline, italic)
  {
    var f := ColorLookup(fg, false);
    var b := ColorLookup(bg, true);
    var bo: seq<nat> := if bold then [STYLE_BOLD] else [];
    var it: seq<nat> := if italic then [STYLE_ITALIC] else [];
    var un: seq<nat> := if underline then [STYLE_UNDERLINE] else [];
    var styles: seq<int> := bo + it + un;
    Regroup(f, b, bo, it, un);
    LookupRenders(fg, false, st, b + styles);
    LookupRenders(bg, true, Effect(st, fg, false), styles);
    StylesRender(Effect(Effect(st, fg, false), bg, true), bold, underline, italic);
  }

  /**
   * Style codes as colorize emits them: strictly increasing (bold 1,
   * italic 3, underline 4), each present exactly when it was asked for,
   * and nothing else.
   */
  predicate StyleCodes(tail: seq<nat>, bold: bool, underline: bool, italic: bool) {
    && (forall i, j :: 0 <= i < j < |tail| ==> tail[i] < tail[j])
    && (forall x :: x in tail ==> x == STYLE_BOLD || x == STYLE_ITALIC || x == STYLE_UNDERLINE)
    && (STYLE_BOLD in tail <==> bold)
    && (STYLE_ITALIC in tail <==> italic)
    && (STYLE_UNDERLINE in tail <==> underline)
  }

  /** After the colour codes, SgrParams holds exactly the style codes asked for, in order. */
  lemma StyleOrder(fg: ColorSpec, bg: ColorSpec, bold: bool, underline: bool, italic: bool)
    ensures var ps := SgrParams(fg, bg, bold, underline, italic);
            var colours := |ColorLookup(fg, false)| + |ColorLookup(bg, true)|;
            colours <= |ps| && StyleCodes(ps[colours..], bold, underline, italic)
  {
    var f := ColorLookup(fg, false);
    var b := ColorLookup(bg, true);
    var bo: seq<nat> := if bold then [STYLE_BOLD] else [];
    var it: seq<nat> := if italic then [STYLE_ITALIC] else [];
    var un: seq<nat> := if underline then [STYLE_UNDERLINE] else [];
    TailAfter(f, b, bo, it, un);
    StylesAscend(bold, underline, italic);
  }

  /** What follows the colour codes in the five parts of SgrParams, proved on plain sequences. */
  lemma TailAfter(f: seq<nat>, b: seq<nat>, x: seq<nat>, y: seq<nat>, z: seq<nat>)
    ensures |f| + |b| <= |f + b + x + y + z|
    ensures (f + b + x + y + z)[|f| + |b|..] == x + y + z
  {
  }

  lemma StylesAscend(bold: bool, underline: bool, italic: bool)
    ensures StyleCodes((if bold then [STYLE_BOLD] else [])
                       + (if italic then [STYLE_ITALIC] else [])
                       + (if underline then [STYLE_UNDERLINE] else []), bold, underline, italic)
  {
  }

  /**
   * A string that is neither a base-6 spec nor a grey spec, and whose lower
   * case is not a colour name, is ignored: colorize returns what it returns
   * for a spec that is not a string or dict at all.
   */
  lemma UnknownNameIgnored(text: string, s: string, other: ColorSpec, bold: bool, underline: bool, italic: bool)
    requires !MatchesBase6(s) && !MatchesGrey(s) && LowerStr(s) !in PALETTE_NAMES
    ensures ColorizedText(text, Str(s), other, bold, underline, italic)
         == ColorizedText(text, Other, other, bold, underline, italic)
    ensures ColorizedText(text, other, Str(s), bold, underline, italic)
         == ColorizedText(text, other, Other, bold, underline, italic)
  {
    UnknownNameEmpty(s, false);
    UnknownNameEmpty(s, true);
  }

  lemma UnknownNameEmpty(s: string, isBg: bool)
    requires !MatchesBase6(s) && !MatchesGrey(s) && LowerStr(s) !in PALETTE_NAMES
    ensures ColorLookup(Str(s), isBg) == []
  {
    TableKeys();
  }

  /** ESC [ 0 m puts the terminal back to its plain state, whatever came before. */
  lemma ResetRestores(st: Sgr.Attrs)
    ensures Sgr.ReadSgr(RESET) == Some(([0], ""))
    ensures Sgr.Render(st, [0]) == Sgr.Plain
  {
    assert JoinParams([0]) == "0";
    assert RESET == Sgr.CSI + JoinParams([0]) + [Sgr.SGR_FINAL] + "";
    Sgr.ReadSgrWritten([0], "");
  }

  /**
   * colorize's output is one SGR sequence carrying exactly the parameters
   * SgrParams lists, then the text, then RESET, and it always ends in RESET.
   */
  lemma ColorizedOutput(text: string, fg: ColorSpec, bg: ColorSpec, bold: bool, underline: bool, italic: bool)
    ensures Sgr.ReadSgr(ColorizedText(text, fg, bg, bold, underline, italic))
            == Some((SgrParams(fg, bg, bold, underline, italic), text + RESET))
    ensures var out := ColorizedText(text, fg, bg, bold, underline, italic);
            |out| >= |RESET| && out[|out| - |RESET|..] == RESET
  {
    var ps := SgrParams(fg, bg, bold, underline, italic);
    assert ColorizedText(text, fg, bg, bold, underline, italic)
        == Sgr.CSI + JoinParams(ps) + [Sgr.SGR_FINAL] + (text + RESET);
    Sgr.ReadSgrWritten(ps, text + RESET);
  }

  // ---------------------------------------------------------------------
  // Examples

  lemma ExampleBase6()
    ensures ColorLookup(Str("123"), false) == [38, 5, 67]
    ensures ColorLookup(Str("123\n"), false) == [38, 5, 67]
  {
    Base6Resolves("123", false);
    Base6Resolves("123\n", false);
  }

  lemma ExampleGrey()
    ensures ColorLookup(Str("GREY10"), true) == [48, 5, 242]
    ensures ColorLookup(Str("gr|y5"), false) == [38, 5, 237]
  {
    assert GreyWord("GREY10");
    GreyResolves("GREY10", true);
    assert GreyDigits("GREY10") == "10";
    assert ValueIn("10", 10) == 10 by {
      assert "10"[..1] == "1";
    }
    assert GreyWord("gr|y5");
    GreyResolves("gr|y5", false);
    assert GreyDigits("gr|y5") == "5";
  }

  lemma ExampleName()
    ensures ColorLookup(Str("RED"), true) == [41]
  {
    assert !MatchesGrey("RED");
    assert LowerStr("RED") == "red";
    PaletteCodes(1);
  }

  lemma ExampleDict()
    ensures ColorLookup(Dict(map["r" := 300, "b" := -1]), false) == [38, 2, 44, 0, 255]
  {
  }

  lemma ExampleGreenBold()
    ensures SgrParams(Str("green"), Other, true, false, false) == [32, 1]
  {
    assert !MatchesGrey("green");
    assert LowerStr("green") == "green";
    PaletteCodes(2);
  }

  lemma ExampleColorize()
    ensures ColorizedText("x", Str("green"), Other, true, false, false)
         == "\U{1B}[" + "32;1" + "m" + "x" + "\U{1B}[0m"
  {
    ExampleGreenBold();
    ExampleJoin();
  }

  lemma ExampleJoin()
    ensures JoinParams([32, 1]) == "32;1"
  {
    assert Decimal(32) == "32";
  }

  lemma ExampleNothingAsked()
    ensures ColorizedText("hi", Other, Other, false, false, false) == "\U{1B}[" + "m" + "hi" + "\U{1B}[0m"
  {
  }
}
