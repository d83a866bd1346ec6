/**
 * Decimal conversions as Go's `strconv.Itoa` and `strconv.Atoi` perform
 * them. Integers are unbounded: Atoi's range error on overflow is not
 * modelled.
 */
module Strconv {
  import opened Wrappers

  predicate IsDigit(c: char) {
    '0' <= c <= '9'
  }

  predicate AllDigits(s: string) {
    forall i :: 0 <= i < |s| ==> IsDigit(s[i])
  }

  function DigitChar(d: nat): (c: char)
    requires d < 10
    ensures IsDigit(c) && c as int - '0' as int == d
  {
    ('0' as int + d) as char
  }

  /** The shortest decimal spelling of n: no sign, no leading zero. */
  function NatToDec(n: nat): (s: string)
    ensures |s| >= 1 && AllDigits(s)
    ensures s[0] == '0' ==> n == 0
    decreases n
  {
    if n < 10 then [DigitChar(n)] else NatToDec(n / 10) + [DigitChar(n % 10)]
  }

  /** strconv.Itoa: a leading '-' for negative numbers, then the digits. */
  function Itoa(n: int): (s: string)
    ensures |s| >= 1
    ensures n >= 0 ==> AllDigits(s)
    ensures n < 0 ==> s[0] == '-' && AllDigits(s[1..])
  {
    if n < 0 then "-" + NatToDec(-n) else NatToDec(n)
  }

  /** The value of a string of decimal digits, read most significant first. */
  function DecValue(s: string): nat
    requires AllDigits(s)
  {
    if s == [] then 0
    else DecValue(s[..|s| - 1]) * 10 + (s[|s| - 1] as int - '0' as int)
  }

  /**
   * strconv.Atoi: an optional '+' or '-', then one or more decimal digits,
   * and nothing else; anything else is a syntax error.
   */
  function Atoi(s: string): (r: Option<int>)
    ensures r.Some? ==> |s| >= 1
    ensures r.Some? && r.value < 0 ==> s[0] == '-'
  {
    if |s| > 0 && (s[0] == '+' || s[0] == '-') then
      var ds := s[1..];
      if |ds| > 0 && AllDigits(ds) then
        Some(if s[0] == '-' then -(DecValue(ds) as int) else DecValue(ds))
      else None
    else if |s| > 0 && AllDigits(s) then Some(DecValue(s))
    else None
  }

  lemma {:induction false} DecValueOfNatToDec(n: nat)
    ensures DecValue(NatToDec(n)) == n
    decreases n
  {
    var s := NatToDec(n);
    if n >= 10 {
      DecValueOfNatToDec(n / 10);
      assert s[..|s| - 1] == NatToDec(n / 10);
    }
  }

  /** Reading back what Itoa wrote gives the number again. */
  lemma AtoiItoa(n: int)
    ensures Atoi(Itoa(n)) == Some(n)
  {
    var s := Itoa(n);
    if n < 0 {
      var ds := NatToDec(-n);
      assert s == "-" + ds;
      assert s[0] == '-' && s[1..] == ds && |ds| > 0 && AllDigits(ds);
      DecValueOfNatToDec(-n);
    } else {
      assert s == NatToDec(n) && IsDigit(s[0]);
      DecValueOfNatToDec(n);
    }
  }

  /** Distinct numbers have distinct spellings. */
  lemma ItoaInjective(a: int, b: int)
    requires Itoa(a) == Itoa(b)
    ensures a == b
  {
    AtoiItoa(a);
    AtoiItoa(b);
  }

  /** A string of digits is read as a non-negative number. */
  lemma AtoiDigits(s: string)
    requires |s| >= 1 && AllDigits(s)
    ensures Atoi(s) == Some(DecValue(s)) && DecValue(s) >= 0
  {
  }
}
