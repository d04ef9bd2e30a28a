/**
 * The small pieces of Python's string handling that colorize.py relies on:
 * `str.lower()` as far as it can matter for ASCII colour names, `int(s, base)`
 * on a run of decimal digits, `str(n)` for a non-negative integer and
 * `';'.join(...)`, together with the parser that undoes the join.
 */
module Text {

  datatype Option<+T> = None | Some(value: T)

  predicate IsDigit(c: char) {
    '0' <= c <= '9'
  }

  predicate AllDigits(s: string) {
    forall i :: 0 <= i < |s| ==> IsDigit(s[i])
  }

  /** The value of one decimal digit character. */
  function DigitValue(c: char): (d: nat)
    requires IsDigit(c)
    ensures d < 10
  {
    c as int - '0' as int
  }

  /** The digit character whose value is `d`; the inverse of DigitValue. */
  function DigitChar(d: nat): (c: char)
    requires d < 10
    ensures IsDigit(c) && DigitValue(c) == d
  {
    ('0' as int + d) as char
  }

  /**
   * Lower-casing of one character. ASCII A-Z become a-z and the Kelvin sign
   * U+212A becomes 'k', the one non-ASCII character whose Python lower case
   * is a single ASCII letter. Every other character is kept: Python maps some
   * of them to other non-ASCII characters, which cannot turn a string into
   * an ASCII colour name either way.
   */
  function Lower(c: char): char {
    if 'A' <= c <= 'Z' then (c as int + 32) as char
    else if c == '\U{212A}' then 'k'
    else c
  }

  /** `s.lower()`, character by character. */
  function LowerStr(s: string): (r: string)
    ensures |r| == |s|
    ensures forall i :: 0 <= i < |s| ==> r[i] == Lower(s[i])
  {
    if s == [] then [] else [Lower(s[0])] + LowerStr(s[1..])
  }

  /** Lower-casing twice changes nothing more than lower-casing once. */
  lemma LowerIdempotent(s: string)
    ensures LowerStr(LowerStr(s)) == LowerStr(s)
  {
    var once := LowerStr(s);
    forall i | 0 <= i < |s|
      ensures LowerStr(once)[i] == once[i]
    {
      var c := s[i];
      if 'A' <= c <= 'Z' {
        assert 'a' <= Lower(c) <= 'z';
      }
    }
  }

  /** Lower-casing never produces a digit or a newline out of anything else. */
  lemma LowerKeepsNonLetters(c: char)
    ensures (IsDigit(Lower(c)) || Lower(c) == '\n' || Lower(c) == '|') ==> Lower(c) == c
  {
  }

  /**
   * `int(s, base)` for a string of decimal digits that are all below `base`:
   * the most significant digit comes first.
   */
  function ValueIn(s: string, base: nat): nat
    requires AllDigits(s)
  {
    if s == [] then 0
    else ValueIn(s[..|s| - 1], base) * base + DigitValue(s[|s| - 1])
  }

  /**
   * `str(n)` for a non-negative integer: the canonical decimal numeral, with
   * no leading zero except for the numeral "0" itself, whose value is `n`.
   */
  function Decimal(n: nat): (s: string)
    ensures |s| >= 1 && AllDigits(s)
    ensures s[0] == '0' ==> s == "0"
    ensures ValueIn(s, 10) == n
    decreases n
  {
    if n < 10 then [DigitChar(n)]
    else
      var front := Decimal(n / 10);
      assert front != "0" by {
        assert ValueIn(front, 10) == n / 10 >= 1;
      }
      var s := front + [DigitChar(n % 10)];
      assert s[..|s| - 1] == front;
      s
  }

  /** The position of the first `c` in `s`, or `|s|` when there is none. */
  function FirstIndex(s: string, c: char): (k: nat)
    ensures k <= |s|
    ensures k < |s| ==> s[k] == c
    ensures forall i :: 0 <= i < k ==> s[i] != c
  {
    if s == [] then 0
    else if s[0] == c then 0
    else 1 + FirstIndex(s[1..], c)
  }

  /**
   * `';'.join(str(x) for x in xs)`: the decimal numerals of `xs` separated
   * by semicolons. The result holds only digits and semicolons, and it is
   * empty exactly when there is nothing to join.
   */
  function JoinParams(xs: seq<nat>): (s: string)
    ensures forall i :: 0 <= i < |s| ==> IsDigit(s[i]) || s[i] == ';'
    ensures s == "" <==> xs == []
  {
    if xs == [] then ""
    else if |xs| == 1 then Decimal(xs[0])
    else Decimal(xs[0]) + ";" + JoinParams(xs[1..])
  }

  /** Appending one more number adds one more field at the end. */
  lemma {:induction false} JoinParamsAppend(xs: seq<nat>, x: nat)
    ensures JoinParams(xs + [x]) ==
            if xs == [] then Decimal(x) else JoinParams(xs) + ";" + Decimal(x)
    decreases |xs|
  {
    if |xs| >= 2 {
      assert (xs + [x])[1..] == xs[1..] + [x];
      JoinParamsAppend(xs[1..], x);
    } else if |xs| == 1 {
      assert (xs + [x])[1..] == [x];
    }
  }

  /**
   * Reads a semicolon-separated list of decimal numerals back into numbers,
   * following ECMA-48 section 5.4.2 for the parameter string of a control
   * sequence. An empty string is an empty list; an empty field or a
   * character other than a digit or ';' makes the string unreadable.
   */
  function ParseParams(s: string): Option<seq<nat>> {
    if s == "" then Some([]) else ParseFields(s)
  }

  function ParseFields(s: string): Option<seq<nat>>
    decreases |s|
  {
    var k := FirstIndex(s, ';');
    var field := s[..k];
    if field == "" || !AllDigits(field) then None
    else if k == |s| then Some([ValueIn(field, 10)])
    else
      match ParseFields(s[k + 1..])
      case None => None
      case Some(rest) => Some([ValueIn(field, 10)] + rest)
  }

  /** Joining and then parsing gives back exactly the numbers joined. */
  lemma ParseJoin(xs: seq<nat>)
    ensures ParseParams(JoinParams(xs)) == Some(xs)
  {
    if xs != [] {
      ParseFieldsJoin(xs);
    }
  }

  /** One field of digits, alone or followed by ';' and the rest. */
  lemma ParseFieldsFirst(head: string, rest: string)
    requires head != [] && AllDigits(head)
    ensures ParseFields(head) == Some([ValueIn(head, 10)])
    ensures ParseFields(head + ";" + rest) ==
            match ParseFields(rest)
            case None => None
            case Some(more) => Some([ValueIn(head, 10)] + more)
  {
    assert FirstIndex(head, ';') == |head|;
    assert head[..|head|] == head;
    var s := head + ";" + rest;
    assert s[|head|] == ';';
    assert FirstIndex(s, ';') == |head|;
    assert s[..|head|] == head;
    assert s[|head| + 1..] == rest;
  }

  lemma {:induction false} ParseFieldsJoin(xs: seq<nat>)
    requires xs != []
    ensures ParseFields(JoinParams(xs)) == Some(xs)
    decreases |xs|
  {
    var head := Decimal(xs[0]);
    if |xs| == 1 {
      ParseFieldsFirst(head, "");
      assert [xs[0]] == xs;
    } else {
      ParseFieldsFirst(head, JoinParams(xs[1..]));
      ParseFieldsJoin(xs[1..]);
      assert [xs[0]] + xs[1..] == xs;
    }
  }
}
