/**
 * Decimal numerals: template-literal interpolation of whole numbers (`${n}`), and the
 * part of `parseFloat` the time column needs, restricted to whole seconds.
 */
module Numerals {
  import opened Wrappers

  predicate IsDigit(c: char) {
    '0' <= c <= '9'
  }

  function DigitValue(c: char): (v: nat)
    requires IsDigit(c)
    ensures v < 10
  {
    c as int - '0' as int
  }

  function DigitChar(v: nat): (c: char)
    requires v < 10
    ensures IsDigit(c) && DigitValue(c) == v
  {
    ('0' as int + v) as char
  }

  ghost predicate AllDigits(s: string) {
    forall i :: 0 <= i < |s| ==> IsDigit(s[i])
  }

  /** `${n}` for a whole number n >= 0: its decimal digits, no leading zero. */
  function NatToString(n: nat): (r: string)
    ensures |r| >= 1 && AllDigits(r)
    ensures |r| > 1 ==> r[0] != '0'
    ensures n < 10 <==> |r| == 1
  {
    if n < 10 then [DigitChar(n)] else NatToString(n / 10) + [DigitChar(n % 10)]
  }

  /** `${i}` for any whole number: a minus sign in front of negative values. */
  function IntToString(i: int): string {
    if i < 0 then "-" + NatToString(-i) else NatToString(i)
  }

  /** The value of a non-empty run of decimal digits; None when `s` is empty or not all digits. */
  function ParseNat(s: string): (r: Option<nat>)
    ensures r.Some? <==> |s| >= 1 && AllDigits(s)
  {
    if s == [] || !IsDigit(s[|s| - 1]) then None
    else if |s| == 1 then Some(DigitValue(s[0]))
    else
      match ParseNat(s[..|s| - 1])
      case None => None
      case Some(v) => Some(10 * v + DigitValue(s[|s| - 1]))
  }

  /** Reading the digits of a number back gives the number. */
  lemma {:induction false} ParseNatToString(n: nat)
    ensures ParseNat(NatToString(n)) == Some(n)
  {
    if n >= 10 {
      var s := NatToString(n);
      assert s[..|s| - 1] == NatToString(n / 10);
      ParseNatToString(n / 10);
    }
  }

  /** Distinct numbers have distinct numerals. */
  lemma NatToStringInjective(m: nat, n: nat)
    requires NatToString(m) == NatToString(n)
    ensures m == n
  {
    ParseNatToString(m);
    ParseNatToString(n);
  }

  /** The longest prefix of `s` made of decimal digits. */
  function LeadingDigits(s: string): (r: string)
    ensures r <= s && AllDigits(r)
    ensures |r| < |s| ==> !IsDigit(s[|r|])
  {
    if s != [] && IsDigit(s[0]) then [s[0]] + LeadingDigits(s[1..]) else ""
  }

  /** The value of the digits at the front of `body`; None when it does not start with a digit. */
  function FrontNumber(body: string): (r: Option<nat>)
    ensures r.None? <==> body == [] || !IsDigit(body[0])
  {
    ParseNat(LeadingDigits(body))
  }

  /** The cell starts with a minus sign. */
  predicate Negative(cell: string) {
    cell != [] && cell[0] == '-'
  }

  /** The cell without its sign, if it has one. */
  function Unsigned(cell: string): string {
    if cell != [] && (cell[0] == '-' || cell[0] == '+') then cell[1..] else cell
  }

  /**
   * `parseFloat(cell)` read as whole seconds: an optional sign, then the digits at the
   * front; anything after them is ignored, as `parseFloat` ignores trailing text. None
   * is the NaN case: no digit follows the optional sign.
   */
  function ParseSeconds(cell: string): (r: Option<int>)
    ensures r.None? <==> Unsigned(cell) == [] || !IsDigit(Unsigned(cell)[0])
    ensures r.Some? && !Negative(cell) ==> r.value >= 0
  {
    match FrontNumber(Unsigned(cell))
    case None => None
    case Some(v) => if Negative(cell) then Some(-(v as int)) else Some(v as int)
  }

  lemma {:induction false} LeadingDigitsOfDigits(d: string, rest: string)
    requires AllDigits(d)
    requires rest == [] || !IsDigit(rest[0])
    ensures LeadingDigits(d + rest) == d
  {
    if d != [] {
      assert (d + rest)[1..] == d[1..] + rest;
      LeadingDigitsOfDigits(d[1..], rest);
    } else {
      assert d + rest == rest;
    }
  }

  /** Digits followed by text that does not continue them: the front number is their value. */
  lemma FrontNumberOfDigits(d: string, rest: string)
    requires |d| >= 1 && AllDigits(d)
    requires rest == [] || !IsDigit(rest[0])
    ensures FrontNumber(d + rest) == ParseNat(d) && ParseNat(d).Some?
  {
    LeadingDigitsOfDigits(d, rest);
  }

  /** Digits first: the value of the digits. */
  lemma ParseSecondsOfDigits(d: string, rest: string)
    requires |d| >= 1 && AllDigits(d)
    requires rest == [] || !IsDigit(rest[0])
    ensures ParseSeconds(d + rest) == ParseNat(d)
  {
    FrontNumberOfDigits(d, rest);
    var cell := d + rest;
    assert cell[0] == d[0];
    assert IsDigit(d[0]);
    assert !Negative(cell);
    assert Unsigned(cell) == cell;
    assert FrontNumber(cell) == ParseNat(d);
    var v := ParseNat(d).value;
    assert ParseSeconds(cell) == Some(v as int);
  }

  /**
   * `parseFloat` of a written whole number, with or without a unit after it, is that
   * number. The text after it starts with neither a digit, a point nor an exponent mark,
   * any of which `parseFloat` would read on.
   */
  lemma ParseSecondsOfNumeral(i: int, rest: string)
    requires rest == [] || !(IsDigit(rest[0]) || rest[0] in ".eE")
    ensures ParseSeconds(IntToString(i) + rest).Some? && ParseSeconds(IntToString(i) + rest).value == i
  {
    if i < 0 {
      ParseSecondsOfNegative(-i, rest);
    } else {
      var d := NatToString(i);
      ParseNatToString(i);
      ParseSecondsOfDigits(d, rest);
      assert IntToString(i) == d;
    }
  }

  /** A cell of a minus sign and a body: the negated front number of the body. */
  lemma ParseSecondsOfSigned(cell: string, body: string, v: nat)
    requires cell != [] && cell[0] == '-' && cell[1..] == body && FrontNumber(body) == Some(v)
    ensures ParseSeconds(cell).Some? && ParseSeconds(cell).value == -(v as int)
  {
    assert Negative(cell) && Unsigned(cell) == body;
  }

  /** The text of a negative number followed by more text: a minus sign, then the numeral and the text. */
  lemma NegativeCell(n: nat, rest: string)
    requires n > 0
    ensures var cell := IntToString(-(n as int)) + rest;
      cell != [] && cell[0] == '-' && cell[1..] == NatToString(n) + rest
  {
    assert IntToString(-(n as int)) == "-" + NatToString(n);
  }

  /** A minus sign and a numeral: the negated value. */
  lemma ParseSecondsOfNegative(n: nat, rest: string)
    requires n > 0
    requires rest == [] || !(IsDigit(rest[0]) || rest[0] in ".eE")
    ensures ParseSeconds(IntToString(-(n as int)) + rest).Some?
    ensures ParseSeconds(IntToString(-(n as int)) + rest).value == -(n as int)
  {
    ParseNatToString(n);
    FrontNumberOfDigits(NatToString(n), rest);
    NegativeCell(n, rest);
    ParseSecondsOfSigned(IntToString(-(n as int)) + rest, NatToString(n) + rest, n);
  }
}
