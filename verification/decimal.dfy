/**
 Decimal numerals: the digits JavaScript's `Number.prototype.toString` writes
 for an integer, and the reading of such a numeral back into a number.
 */
module Decimal {

  predicate IsDigit(c: char) {
    '0' <= c <= '9'
  }

  /** Every character of `s` is a digit (stated from the right, the way numerals are read). */
  predicate AllDigits(s: string)
    decreases |s|
  {
    |s| == 0 || (AllDigits(s[..|s| - 1]) && IsDigit(s[|s| - 1]))
  }

  /** A numeral as `toString` writes it: at least one digit, and no leading zero unless it is "0". */
  predicate Canonical(s: string) {
    |s| >= 1 && AllDigits(s) && (s[0] == '0' ==> |s| == 1)
  }

  function DigitValue(c: char): (d: nat)
    requires IsDigit(c)
    ensures d < 10
  {
    (c as int) - ('0' as int)
  }

  function DigitChar(d: nat): (c: char)
    requires d < 10
    ensures IsDigit(c) && DigitValue(c) == d
  {
    (('0' as int) + d) as char
  }

  /** The decimal numeral of `n`. */
  function NatToString(n: nat): (r: string)
    ensures Canonical(r) && IsDigit(r[0])
    ensures r[0] == '0' <==> n == 0
    ensures n < 10 <==> |r| == 1
    decreases n
  {
    if n < 10 then [DigitChar(n)]
    else NatToString(n / 10) + [DigitChar(n % 10)]
  }

  /**
   The numeral of an integer: a minus sign exactly when it is negative, then
   the canonical digits of its magnitude.
   */
  function IntToString(i: int): (r: string)
    ensures |r| >= 1
    ensures r[0] == '-' <==> i < 0
    ensures Canonical(if i < 0 then r[1..] else r)
    ensures ParseNat(if i < 0 then r[1..] else r) == if i < 0 then -i else i
  {
    ParseNatToString(if i < 0 then -i else i);
    if i < 0 then
      var r := "-" + NatToString(-i);
      assert r[1..] == NatToString(-i);
      r
    else NatToString(i)
  }

  /** The value of a string of digits, most significant first; the empty string reads as 0. */
  function ParseNat(s: string): nat
    requires AllDigits(s)
    decreases |s|
  {
    if |s| == 0 then 0
    else ParseNat(s[..|s| - 1]) * 10 + DigitValue(s[|s| - 1])
  }

  /** Reading a numeral back gives the number it was written from. */
  lemma {:induction false} ParseNatToString(n: nat)
    ensures ParseNat(NatToString(n)) == n
    decreases n
  {
    var s := NatToString(n);
    if n >= 10 {
      ParseNatToString(n / 10);
      assert s[..|s| - 1] == NatToString(n / 10);
    }
  }

  /** A string of digits that reads as zero holds only zeros. */
  lemma {:induction false} ParseNatZero(s: string)
    requires AllDigits(s)
    ensures ParseNat(s) == 0 ==> forall i :: 0 <= i < |s| ==> s[i] == '0'
    decreases |s|
  {
    if |s| > 0 && ParseNat(s) == 0 {
      ParseNatZero(s[..|s| - 1]);
      assert forall i :: 0 <= i < |s| - 1 ==> s[i] == s[..|s| - 1][i];
    }
  }

  /** Writing out the value of a canonical numeral gives that numeral back. */
  lemma {:induction false} NatToStringParse(s: string)
    requires Canonical(s)
    ensures NatToString(ParseNat(s)) == s
    decreases |s|
  {
    if |s| > 1 {
      var p := s[..|s| - 1];
      assert Canonical(p);
      NatToStringParse(p);
      ParseNatZero(p);
      assert p[0] == s[0] != '0';
      var n := ParseNat(s);
      assert n / 10 == ParseNat(p) && n % 10 == DigitValue(s[|s| - 1]);
      assert s == p + [s[|s| - 1]];
    }
  }

}
