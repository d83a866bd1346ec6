/**
 * The small subset of ANSI escape codes vgrep uses: colour, bold and
 * underline wrappers, and the removal of escape sequences of the form
 * ESC '[' [0-9;]* final-letter.
 */
module Ansi {
  import opened Wrappers
  import opened Strconv

  /** A numerical ANSI colour; DEFAULT means "leave uncoloured". */
  type COLOR = int

  const DEFAULT: COLOR := -1
  const BLACK: COLOR := 0
  const RED: COLOR := 1
  const GREEN: COLOR := 2
  const YELLOW: COLOR := 3
  const BLUE: COLOR := 4
  const MAGENTA: COLOR := 5
  const CYAN: COLOR := 6
  const GRAY: COLOR := 7

  const ESC: char := '\U{1B}'

  /** The sequence that ends every wrapper: ESC "[0m". */
  const Reset: string := [ESC, '[', '0', 'm']

  /** The SGR code Color emits: 90 + col when bright, 30 + col otherwise. */
  function Code(col: COLOR, bright: bool): (code: int)
    ensures col >= DEFAULT ==> code >= 29
  {
    if bright then 90 + col else 30 + col
  }

  /** Colors str with col; the DEFAULT colour leaves str as it is. */
  function Color(str: string, col: COLOR, bright: bool): (r: string)
    ensures r == str <==> col == DEFAULT
  {
    if col == DEFAULT then str
    else [ESC, '['] + Itoa(Code(col, bright)) + "m" + str + Reset
  }

  /** Bold wraps str in ESC "[1m" and the reset sequence. */
  function Bold(str: string): (r: string)
    ensures |r| == |str| + 8
  {
    [ESC, '[', '1', 'm'] + str + Reset
  }

  /** Underline wraps str in ESC "[4m" and the reset sequence. */
  function Underline(str: string): (r: string)
    ensures |r| == |str| + 8
  {
    [ESC, '[', '4', 'm'] + str + Reset
  }

  predicate IsParam(c: char) {
    '0' <= c <= '9' || c == ';'
  }

  predicate IsFinal(c: char) {
    c in "ABCDEFGHJKSTfmnsulh"
  }

  /** Length of the run of parameter characters at the start of s. */
  function ParamLen(s: string): (n: nat)
    ensures n <= |s|
    ensures forall k :: 0 <= k < n ==> IsParam(s[k])
    ensures n < |s| ==> !IsParam(s[n])
  {
    if s != [] && IsParam(s[0]) then 1 + ParamLen(s[1..]) else 0
  }

  /**
   * The length of the escape sequence that starts s, if one does. A final
   * letter is never a parameter character, so the longest parameter run is
   * the only one that can be followed by a final letter.
   */
  function EscapeAt(s: string): (r: Option<nat>)
    ensures r.Some? ==> 3 <= r.value <= |s|
  {
    if |s| >= 2 && s[0] == ESC && s[1] == '[' then
      var end := 2 + ParamLen(s[2..]);
      if end < |s| && IsFinal(s[end]) then Some(end + 1) else None
    else None
  }

  /**
   * RemoveANSI: a left-to-right scan that drops every escape sequence it
   * meets and keeps every other character, as a regular-expression
   * replace-all with the empty string does.
   */
  function RemoveANSI(s: string): (r: string)
    ensures |r| <= |s|
    decreases |s|
  {
    if s == [] then []
    else match EscapeAt(s)
      case Some(n) => RemoveANSI(s[n..])
      case None => [s[0]] + RemoveANSI(s[1..])
  }

  lemma {:induction false} ParamLenAppend(s: string, t: string)
    ensures ParamLen(s) < |s| ==> ParamLen(s + t) == ParamLen(s)
    ensures ParamLen(s) == |s| ==> ParamLen(s + t) == |s| + ParamLen(t)
  {
    if s == [] {
      assert s + t == t;
    } else {
      assert (s + t)[0] == s[0] && (s + t)[1..] == s[1..] + t;
      ParamLenAppend(s[1..], t);
    }
  }

  /** An escape sequence found in s is found again when anything follows s. */
  lemma EscapeAtExtend(s: string, t: string)
    requires EscapeAt(s).Some?
    ensures EscapeAt(s + t) == EscapeAt(s)
  {
    ParamLenAppend(s[2..], t);
    assert (s + t)[2..] == s[2..] + t;
  }

  /**
   * A split point no escape sequence can run across: the text after it is
   * empty, starts a new sequence with ESC, or starts with a character that
   * is neither '[', a parameter nor a final letter.
   */
  predicate Boundary(t: string) {
    t == [] || t[0] == ESC || (t[0] != '[' && !IsParam(t[0]) && !IsFinal(t[0]))
  }

  /** A text after a boundary cannot complete a sequence left open by s. */
  lemma EscapeAtNoneExtend(s: string, t: string)
    requires s != [] && EscapeAt(s).None?
    requires Boundary(t)
    ensures EscapeAt(s + t).None?
  {
    if |s| >= 2 && s[0] == ESC && s[1] == '[' {
      ParamLenAppend(s[2..], t);
      assert (s + t)[2..] == s[2..] + t;
    }
  }

  /** Removal distributes over a boundary. */
  lemma {:induction false} RemoveANSIAppend(s: string, t: string)
    requires Boundary(t)
    ensures RemoveANSI(s + t) == RemoveANSI(s) + RemoveANSI(t)
    decreases |s|
  {
    if s == [] {
      assert s + t == t;
    } else {
      match EscapeAt(s)
      case Some(n) =>
        RemoveSkip(s, t);
        RemoveANSIAppend(s[n..], t);
      case None =>
        RemoveKeep(s, t);
        RemoveANSIAppend(s[1..], t);
    }
  }

  /** An escape sequence at the start of s is skipped whatever follows s. */
  lemma RemoveSkip(s: string, t: string)
    requires EscapeAt(s).Some?
    ensures var n := EscapeAt(s).value;
            RemoveANSI(s + t) == RemoveANSI(s[n..] + t) && RemoveANSI(s) == RemoveANSI(s[n..])
  {
    var n := EscapeAt(s).value;
    EscapeAtExtend(s, t);
    assert (s + t)[n..] == s[n..] + t;
  }

  /** A first character that starts no escape sequence is kept when a boundary follows s. */
  lemma RemoveKeep(s: string, t: string)
    requires s != [] && EscapeAt(s).None?
    requires Boundary(t)
    ensures RemoveANSI(s + t) == [s[0]] + RemoveANSI(s[1..] + t)
  {
    var u := s + t;
    EscapeAtNoneExtend(s, t);
    assert u != [] && EscapeAt(u).None?;
    assert RemoveANSI(u) == [u[0]] + RemoveANSI(u[1..]);
    assert u[0] == s[0] && u[1..] == s[1..] + t;
  }

  /** A complete escape sequence in front of s is removed and s is scanned as before. */
  lemma RemoveANSILeading(p: string, s: string)
    requires EscapeAt(p) == Some(|p|)
    ensures RemoveANSI(p + s) == RemoveANSI(s)
  {
    EscapeAtExtend(p, s);
    assert (p + s)[|p|..] == s;
  }

  lemma {:induction false} ParamLenDigits(d: string, t: string)
    requires AllDigits(d)
    requires t == [] || !IsParam(t[0])
    ensures ParamLen(d + t) == |d|
  {
    if d == [] {
      assert d + t == t;
    } else {
      assert (d + t)[0] == d[0] && (d + t)[1..] == d[1..] + t;
      ParamLenDigits(d[1..], t);
    }
  }

  /** The opening sequence Color writes for a non-negative code is a complete escape. */
  lemma OpenerIsEscape(code: int)
    requires code >= 0
    ensures EscapeAt([ESC, '['] + Itoa(code) + "m") == Some(|Itoa(code)| + 3)
  {
    var p := [ESC, '['] + Itoa(code) + "m";
    ParamLenDigits(Itoa(code), "m");
    assert p[2..] == Itoa(code) + "m";
    assert p[2 + |Itoa(code)|] == 'm';
  }

  lemma ResetRemoved()
    ensures EscapeAt(Reset) == Some(4) && RemoveANSI(Reset) == []
  {
    assert Reset[2..] == ['0', 'm'];
    assert ParamLen(['0', 'm']) == 1 by {
      assert ['0', 'm'][1..] == ['m'];
    }
    assert Reset[4..] == [];
  }

  /** A text wrapped as opener + s + Reset loses the wrapper and nothing else. */
  lemma RemoveWrapped(opener: string, s: string)
    requires EscapeAt(opener) == Some(|opener|)
    ensures RemoveANSI(opener + s + Reset) == RemoveANSI(s)
  {
    assert opener + s + Reset == opener + (s + Reset);
    RemoveANSILeading(opener, s + Reset);
    RemoveANSIAppend(s, Reset);
    ResetRemoved();
    assert RemoveANSI(s) + [] == RemoveANSI(s);
  }

  /**
   * Colouring adds nothing visible: removing the escape codes of a coloured
   * text gives what removing them from the text itself gives. The colour
   * code must not be negative ("ESC[-10m" is not an escape sequence), which
   * holds for DEFAULT and for every named colour.
   */
  lemma RemoveANSIColor(s: string, col: COLOR, bright: bool)
    requires col == DEFAULT || Code(col, bright) >= 0
    ensures RemoveANSI(Color(s, col, bright)) == RemoveANSI(s)
  {
    if col != DEFAULT {
      OpenerIsEscape(Code(col, bright));
      RemoveWrapped([ESC, '['] + Itoa(Code(col, bright)) + "m", s);
    }
  }

  lemma RemoveANSIBold(s: string)
    ensures RemoveANSI(Bold(s)) == RemoveANSI(s)
  {
    OpenerIsEscape(1);
    assert [ESC, '['] + Itoa(1) + "m" == [ESC, '[', '1', 'm'];
    RemoveWrapped([ESC, '[', '1', 'm'], s);
  }

  lemma RemoveANSIUnderline(s: string)
    ensures RemoveANSI(Underline(s)) == RemoveANSI(s)
  {
    OpenerIsEscape(4);
    assert [ESC, '['] + Itoa(4) + "m" == [ESC, '[', '4', 'm'];
    RemoveWrapped([ESC, '[', '4', 'm'], s);
  }

  /** Named colours get codes 30..37, or 90..97 when bright. */
  lemma ColorNamed(s: string, col: COLOR, bright: bool)
    requires BLACK <= col <= GRAY
    ensures Color(s, col, bright)
         == [ESC, '[', if bright then '9' else '3', DigitChar(col), 'm'] + s + Reset
  {
    var code := Code(col, bright);
    assert code / 10 == (if bright then 9 else 3) && code % 10 == col;
    assert NatToDec(code / 10) == [DigitChar(code / 10)];
    assert DigitChar(9) == '9' && DigitChar(3) == '3';
    assert Itoa(code) == [if bright then '9' else '3', DigitChar(col)];
  }

  /** A text without ESC is left as it is. */
  lemma {:induction false} RemoveANSIPlain(s: string)
    requires ESC !in s
    ensures RemoveANSI(s) == s
    decreases |s|
  {
    if s != [] {
      assert EscapeAt(s).None?;
      assert ESC !in s[1..];
      RemoveANSIPlain(s[1..]);
    }
  }

  /**
   * One pass does not remove every escape code: removing the inner
   * sequence of ESC ESC "[0m" "[0m" joins the outer ESC to the trailing
   * "[0m", which a second pass removes.
   */
  lemma RemoveANSIOnePass()
    ensures RemoveANSI([ESC] + Reset + "[0m") == Reset
    ensures RemoveANSI(Reset) == []
  {
    var s := [ESC] + Reset + "[0m";
    assert EscapeAt(s).None?;
    assert s[1..] == Reset + "[0m";
    ResetRemoved();
    RemoveANSILeading(Reset, "[0m");
    RemoveANSIPlain("[0m");
    assert [ESC] + "[0m" == Reset;
  }
}
