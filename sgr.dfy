/**
 * A reference reading of SGR (Select Graphic Rendition) control sequences,
 * ECMA-48 section 8.3.117, with the widely implemented extensions
 * `38;5;n` / `48;5;n` (an entry of the 256-colour palette) and
 * `38;2;r;g;b` / `48;2;r;g;b` (a 24-bit colour). It says what a terminal
 * shows after a parameter list, independently of how colorize.py builds one,
 * and is the yardstick its lemmas are measured against.
 */
module Sgr {
  import opened Text

  const ESC: char := '\U{1B}'

  /** The Control Sequence Introducer ESC '[' (ECMA-48 section 5.4). */
  const CSI: string := [ESC, '[']

  /** The final byte that makes a control sequence an SGR. */
  const SGR_FINAL: char := 'm'

  /**
   * A colour plane's setting: the terminal's default, an entry of the
   * 256-colour palette (0-7 standard, 8-15 bright, 16-231 the 6x6x6 cube,
   * 232-255 the grey ramp) or a direct RGB colour.
   */
  datatype Color = Default | Palette(index: nat) | TrueColor(red: nat, green: nat, blue: nat)

  /** The rendition attributes that colorize.py can switch on. */
  datatype Attrs = Attrs(fg: Color, bg: Color, bold: bool, italic: bool, underline: bool)

  /** The state after a full reset, SGR 0. */
  const Plain: Attrs := Attrs(Default, Default, false, false, false)

  function SetColor(st: Attrs, background: bool, c: Color): Attrs {
    if background then st.(bg := c) else st.(fg := c)
  }

  predicate IsByte(n: int) {
    0 <= n < 256
  }

  /** The effect of one parameter that stands on its own. */
  function ApplyOne(st: Attrs, p: int): Attrs {
    if p == 0 then Plain
    else if p == 1 then st.(bold := true)
    else if p == 3 then st.(italic := true)
    else if p == 4 then st.(underline := true)
    else if p == 22 then st.(bold := false)
    else if p == 23 then st.(italic := false)
    else if p == 24 then st.(underline := false)
    else if 30 <= p <= 37 then st.(fg := Palette(p - 30))
    else if p == 39 then st.(fg := Default)
    else if 40 <= p <= 47 then st.(bg := Palette(p - 40))
    else if p == 49 then st.(bg := Default)
    else if 90 <= p <= 97 then st.(fg := Palette(p - 90 + 8))
    else if 100 <= p <= 107 then st.(bg := Palette(p - 100 + 8))
    else st
  }

  /**
   * The attributes after the parameters `ps`, read left to right from `st`.
   * 38 and 48 select the foreground and background extended colour and take
   * their arguments from the following parameters; a 38 or 48 whose
   * arguments are missing or out of range is skipped on its own. Parameters
   * this model does not track (blink, reverse video, ...) leave it unchanged.
   */
  function Apply(st: Attrs, ps: seq<int>): Attrs
    decreases |ps|
  {
    if ps == [] then st
    else if (ps[0] == 38 || ps[0] == 48) && |ps| >= 3 && ps[1] == 5 && IsByte(ps[2]) then
      Apply(SetColor(st, ps[0] == 48, Palette(ps[2])), ps[3..])
    else if (ps[0] == 38 || ps[0] == 48) && |ps| >= 5 && ps[1] == 2
            && IsByte(ps[2]) && IsByte(ps[3]) && IsByte(ps[4]) then
      Apply(SetColor(st, ps[0] == 48, TrueColor(ps[2], ps[3], ps[4])), ps[5..])
    else Apply(ApplyOne(st, ps[0]), ps[1..])
  }

  /**
   * The effect of a whole SGR sequence. An empty parameter string stands for
   * the default parameter 0 (ECMA-48 section 5.4.2), which resets everything.
   */
  function Render(st: Attrs, ps: seq<int>): Attrs {
    if ps == [] then Plain else Apply(st, ps)
  }

  /**
   * Reads one SGR control sequence at the start of `s`: CSI, a parameter
   * string of digits and ';', and the final 'm'. Gives the parameters and
   * what follows the sequence, or None when `s` does not start with one.
   */
  function ReadSgr(s: string): Option<(seq<nat>, string)> {
    if |s| < |CSI| || s[..|CSI|] != CSI then None
    else
      var body := s[|CSI|..];
      var k := FirstIndex(body, SGR_FINAL);
      if k == |body| then None
      else
        match ParseParams(body[..k])
        case None => None
        case Some(ps) => Some((ps, body[k + 1..]))
  }

  /** Writing an SGR sequence and reading it back gives its parameters and the text after it. */
  lemma ReadSgrWritten(ps: seq<nat>, rest: string)
    ensures ReadSgr(CSI + JoinParams(ps) + [SGR_FINAL] + rest) == Some((ps, rest))
  {
    var params := JoinParams(ps);
    var s := CSI + params + [SGR_FINAL] + rest;
    var body := s[|CSI|..];
    assert s[..|CSI|] == CSI;
    assert body == params + [SGR_FINAL] + rest;
    assert body[|params|] == SGR_FINAL;
    assert FirstIndex(body, SGR_FINAL) == |params|;
    assert body[..|params|] == params;
    assert body[|params| + 1..] == rest;
    ParseJoin(ps);
  }
}
