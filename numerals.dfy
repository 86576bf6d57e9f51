/**
  * Decimal digits and the conversion JavaScript applies when an integer is
  * interpolated into a template string (`${n}`), with the parser that reads
  * such a numeral back.
  */
module Numerals {
  import opened Wrappers

  /** An ASCII decimal digit, the class `\d` of a JavaScript regular expression. */
  predicate IsDigit(c: char) {
    '0' <= c <= '9'
  }

  predicate AllDigits(s: string) {
    forall i | 0 <= i < |s| :: IsDigit(s[i])
  }

  function DigitValue(c: char): (d: nat)
    requires IsDigit(c)
    ensures d <= 9
  {
    c as int - '0' as int
  }

  function DigitChar(d: nat): (c: char)
    requires d <= 9
    ensures IsDigit(c) && DigitValue(c) == d
  {
    ('0' as int + d) as char
  }

  function Pow10(k: nat): (p: nat)
    ensures p >= 1
  {
    if k == 0 then 1 else 10 * Pow10(k - 1)
  }

  /** The number a string of decimal digits denotes; the empty string denotes 0. */
  function ParseNat(s: string): (n: nat)
    requires AllDigits(s)
    ensures n < Pow10(|s|)
    decreases |s|
  {
    if s == [] then 0 else ParseNat(s[..|s| - 1]) * 10 + DigitValue(s[|s| - 1])
  }

  /**
    * A numeral as `${n}` prints a non-negative integer: digits, with a
    * leading zero only in "0" itself.
    */
  predicate CanonicalNat(s: string) {
    1 <= |s| && AllDigits(s) && (s[0] == '0' ==> |s| == 1)
  }

  /** A numeral as `${n}` prints an integer: a canonical natural, or '-' before a non-zero one. */
  predicate CanonicalInt(s: string) {
    CanonicalNat(s) || (2 <= |s| && s[0] == '-' && CanonicalNat(s[1..]) && s[1] != '0')
  }

  /** `${n}` for a non-negative integer: its decimal numeral without leading zeros. */
  function NatToString(n: nat): (r: string)
    ensures CanonicalNat(r)
    ensures r[0] == '0' ==> n == 0
    ensures ParseNat(r) == n
  {
    if n < 10 then [DigitChar(n)]
    else
      var prefix := NatToString(n / 10);
      var r := prefix + [DigitChar(n % 10)];
      assert r[..|r| - 1] == prefix;
      r
  }

  /** A numeral with a non-zero leading digit denotes a positive number. */
  lemma {:induction false} LeadingNonZeroPositive(s: string)
    requires 1 <= |s| && AllDigits(s) && s[0] != '0'
    ensures ParseNat(s) >= 1
    decreases |s|
  {
    if |s| > 1 {
      var t := s[..|s| - 1];
      assert t[0] == s[0];
      LeadingNonZeroPositive(t);
    }
  }

  /** Every canonical numeral is exactly what `${n}` prints for the number it denotes. */
  lemma {:induction false} NatToStringOfParse(s: string)
    requires CanonicalNat(s)
    ensures NatToString(ParseNat(s)) == s
    decreases |s|
  {
    var last := s[|s| - 1];
    if |s| == 1 {
      assert s[..0] == [];
      assert ParseNat(s) == DigitValue(last);
      assert s == [last];
    } else {
      var t := s[..|s| - 1];
      assert t[0] == s[0];
      NatToStringOfParse(t);
      LeadingNonZeroPositive(t);
      var n := ParseNat(s);
      assert n == ParseNat(t) * 10 + DigitValue(last);
      assert n / 10 == ParseNat(t) && n % 10 == DigitValue(last);
      assert s == t + [last];
    }
  }

  /** Reads back an optionally negative decimal numeral. */
  function ParseInt(s: string): (r: Option<int>)
    ensures r.Some? ==> 1 <= |s|
  {
    if 2 <= |s| && s[0] == '-' && AllDigits(s[1..]) then Some(0 - ParseNat(s[1..]) as int)
    else if 1 <= |s| && AllDigits(s) then Some(ParseNat(s))
    else None
  }

  /** `${n}` for an integer: a minus sign before the numeral of a negative value. */
  function IntToString(n: int): (r: string)
    ensures CanonicalInt(r)
    ensures ParseInt(r) == Some(n)
    ensures forall i | 0 <= i < |r| :: r[i] != ' '
  {
    if n < 0 then
      var r := "-" + NatToString(-n);
      assert r[1..] == NatToString(-n);
      r
    else NatToString(n)
  }

  /** Every canonical integer numeral is exactly what `${n}` prints for the integer it denotes. */
  lemma IntToStringOfParse(s: string)
    requires CanonicalInt(s)
    ensures ParseInt(s).Some? && IntToString(ParseInt(s).value) == s
  {
    if CanonicalNat(s) {
      NatToStringOfParse(s);
    } else {
      NatToStringOfParse(s[1..]);
      LeadingNonZeroPositive(s[1..]);
      assert s == "-" + s[1..];
    }
  }
}
