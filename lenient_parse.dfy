/**
  The C library's lenient decimal conversion, as used by `atoi` and `atol`
  (C11 7.22.1.2, which defines them through `strtol` with base 10, C11
  7.22.1.4): leading white space is skipped, an optional sign is taken, then
  the longest run of decimal digits. When there are no digits the result is 0;
  the conversion never fails. Overflow (undefined behaviour in C) is not
  modelled: the result is a mathematical integer.
*/
module LenientParse {

  /** `isspace` in the "C" locale: space, tab, newline, vertical tab, form feed, carriage return. */
  predicate IsSpace(c: char) {
    c == ' ' || '\t' <= c <= '\r'
  }

  predicate IsDigit(c: char) {
    '0' <= c <= '9'
  }

  predicate AllDigits(s: string) {
    forall i :: 0 <= i < |s| ==> IsDigit(s[i])
  }

  predicate AllSpace(s: string) {
    forall i :: 0 <= i < |s| ==> IsSpace(s[i])
  }

  function DigitValue(c: char): (d: nat)
    requires IsDigit(c)
    ensures d < 10
  {
    (c as int) - ('0' as int)
  }

  function DigitChar(d: nat): (c: char)
    requires d < 10
    ensures IsDigit(c) && DigitValue(c) == d
  {
    (('0' as int) + d) as char
  }

  /**
    The input with its leading white space removed: what `atoi` skips before
    the sign, and the properties reader's leading trim of a value.
  */
  function TrimLeft(s: string): (r: string)
    ensures |r| <= |s|
    ensures r == [] || !IsSpace(r[0])
  {
    if s != [] && IsSpace(s[0]) then TrimLeft(s[1..]) else s
  }

  /** The length of the longest run of digits at the start of the input. */
  function DigitRun(s: string): (n: nat)
    ensures n <= |s| && AllDigits(s[..n])
    ensures n < |s| ==> !IsDigit(s[n])
  {
    if s != [] && IsDigit(s[0]) then 1 + DigitRun(s[1..]) else 0
  }

  /** The number a string of decimal digits denotes (0 for the empty string). */
  function DigitsValue(d: string): nat
    requires AllDigits(d)
  {
    if d == [] then 0 else 10 * DigitsValue(d[..|d| - 1]) + DigitValue(d[|d| - 1])
  }

  /** The value of the leading digit run of an unsigned subject sequence. */
  function Magnitude(s: string): nat {
    DigitsValue(s[..DigitRun(s)])
  }

  /** `atoi`/`atol`: the lenient decimal prefix value of a string. */
  function Atoi(s: string): int {
    var t := TrimLeft(s);
    if t != [] && t[0] == '-' then 0 - Magnitude(t[1..])
    else if t != [] && t[0] == '+' then Magnitude(t[1..])
    else Magnitude(t)
  }

  /** The shortest decimal numeral of a natural number. */
  function NatDigits(n: nat): (s: string)
    ensures s != [] && AllDigits(s)
  {
    if n < 10 then [DigitChar(n)] else NatDigits(n / 10) + [DigitChar(n % 10)]
  }

  /** The decimal numeral of an integer, with a leading '-' when negative. */
  function Decimal(n: int): string {
    if n < 0 then "-" + NatDigits(-n) else NatDigits(n)
  }

  lemma {:induction false} NatDigitsValue(n: nat)
    ensures DigitsValue(NatDigits(n)) == n
  {
    if n >= 10 {
      var s := NatDigits(n);
      assert s[..|s| - 1] == NatDigits(n / 10);
      NatDigitsValue(n / 10);
    }
  }

  lemma {:induction false} DigitRunOfDigits(d: string, rest: string)
    requires AllDigits(d)
    requires rest == [] || !IsDigit(rest[0])
    ensures DigitRun(d + rest) == |d|
  {
    if d != [] {
      assert (d + rest)[1..] == d[1..] + rest;
      DigitRunOfDigits(d[1..], rest);
    }
  }

  lemma {:induction false} SkipLeadingSpace(ws: string, t: string)
    requires AllSpace(ws)
    requires t == [] || !IsSpace(t[0])
    ensures TrimLeft(ws + t) == t
  {
    if ws != [] {
      assert (ws + t)[1..] == ws[1..] + t;
      SkipLeadingSpace(ws[1..], t);
    }
  }

  lemma MagnitudeOfNumeral(n: nat, rest: string)
    requires rest == [] || !IsDigit(rest[0])
    ensures Magnitude(NatDigits(n) + rest) == n
  {
    var d := NatDigits(n);
    DigitRunOfDigits(d, rest);
    assert (d + rest)[..|d|] == d;
    NatDigitsValue(n);
  }

  /** Leading white space does not change the conversion. */
  lemma AtoiAfterSpace(ws: string, t: string)
    requires AllSpace(ws)
    requires t == [] || !IsSpace(t[0])
    ensures Atoi(ws + t) == Atoi(t)
  {
    SkipLeadingSpace(ws, t);
    assert TrimLeft(t) == t;
  }

  /**
    Round trip: `atoi` reads back the decimal numeral of any integer, whatever
    white space precedes it and whatever non-digit text follows it.
  */
  lemma AtoiOfDecimal(ws: string, n: int, rest: string)
    requires AllSpace(ws)
    requires rest == [] || !IsDigit(rest[0])
    ensures Atoi(ws + Decimal(n) + rest) == n
  {
    var t := Decimal(n) + rest;
    assert ws + Decimal(n) + rest == ws + t;
    assert t[0] == Decimal(n)[0];
    AtoiAfterSpace(ws, t);
    if n < 0 {
      NegativeNumeral(-n, rest);
    } else {
      PositiveNumeral(n, rest);
    }
  }

  lemma PositiveNumeral(n: nat, rest: string)
    requires rest == [] || !IsDigit(rest[0])
    ensures Atoi(NatDigits(n) + rest) == n
  {
    var t := NatDigits(n) + rest;
    assert t[0] == NatDigits(n)[0];
    assert TrimLeft(t) == t;
    MagnitudeOfNumeral(n, rest);
  }

  lemma NegativeNumeral(m: nat, rest: string)
    requires m > 0
    requires rest == [] || !IsDigit(rest[0])
    ensures Atoi(Decimal(0 - m) + rest) == 0 - m
  {
    var t := Decimal(0 - m) + rest;
    assert t == ['-'] + (NatDigits(m) + rest);
    assert TrimLeft(t) == t;
    MagnitudeOfNumeral(m, rest);
  }

  /**
    Leniency: when no digit follows the white space and the optional sign,
    the conversion yields 0 rather than an error.
  */
  lemma AtoiWithoutDigits(s: string)
    requires var t := TrimLeft(s);
             var u := if t != [] && (t[0] == '-' || t[0] == '+') then t[1..] else t;
             u == [] || !IsDigit(u[0])
    ensures Atoi(s) == 0
  {
  }

  /** "12x" converts to 12: the digit run stops at the first non-digit. */
  lemma AtoiTrailingText()
    ensures Atoi("12x") == 12
  {
    assert "12x" == "12" + "x";
    DigitRunOfDigits("12", "x");
    assert "12x"[..2] == "12";
    assert DigitsValue("12") == 12 by {
      assert "12"[..1] == "1";
      assert "1"[..0] == "";
    }
    assert TrimLeft("12x") == "12x";
  }

  /** "abc" converts to 0, not an error. */
  lemma AtoiNonNumeric()
    ensures Atoi("abc") == 0
  {
    AtoiWithoutDigits("abc");
  }
}
