/**
 * Decimal text of integers, as the C library writes it (printf's "%0*d",
 * which strftime uses for its numeric fields, and std::to_string) and as
 * std::get_time reads it back.
 */
module Decimal {

  predicate IsDigit(c: char) {
    '0' <= c <= '9'
  }

  predicate AllDigits(s: string) {
    forall i :: 0 <= i < |s| ==> IsDigit(s[i])
  }

  function DigitChar(d: nat): (c: char)
    requires d < 10
    ensures IsDigit(c)
  {
    ('0' as int + d) as char
  }

  function DigitValue(c: char): (d: nat)
    requires IsDigit(c)
    ensures d < 10 && DigitChar(d) == c
  {
    c as int - '0' as int
  }

  function Pow10(k: nat): (p: nat)
    ensures p >= 1
  {
    if k == 0 then 1 else 10 * Pow10(k - 1)
  }

  /** The value of a string of decimal digits, most significant first. */
  function DigitsValue(s: string): (v: nat)
    requires AllDigits(s)
    ensures v < Pow10(|s|)
  {
    if s == [] then 0 else 10 * DigitsValue(s[..|s| - 1]) + DigitValue(s[|s| - 1])
  }

  /**
   * printf's "%0wd" for a non-negative n: the shortest decimal text of n,
   * zero-padded on the left to at least `width` characters.
   */
  function PadDec(n: nat, width: nat): (r: string)
    ensures AllDigits(r)
    ensures |r| >= 1 && |r| >= width
    decreases n, width
  {
    if n < 10 && width <= 1 then [DigitChar(n)]
    else PadDec(n / 10, if width == 0 then 0 else width - 1) + [DigitChar(n % 10)]
  }

  /** std::to_string of an unsigned value: its decimal text, with no leading zero unless it is "0". */
  function ToDecimal(n: nat): (r: string)
    ensures AllDigits(r) && |r| >= 1
    ensures DigitsValue(r) == n
    ensures n > 0 ==> r[0] != '0'
  {
    PadDecValue(n, 0);
    PadDecLeading(n, 0);
    PadDec(n, 0)
  }

  /** printf's "%0wd" for any int: a minus sign counts towards the width. */
  function PadInt(v: int, width: nat): (r: string)
    ensures forall i :: 0 <= i < |r| ==> IsDigit(r[i]) || r[i] == '-'
    ensures v >= 0 ==> r == PadDec(v, width)
  {
    if v < 0 then "-" + PadDec(-v, if width == 0 then 0 else width - 1) else PadDec(v, width)
  }

  /** Reading the padded text back gives the number. */
  lemma {:induction false} PadDecValue(n: nat, width: nat)
    ensures DigitsValue(PadDec(n, width)) == n
    decreases n, width
  {
    var r := PadDec(n, width);
    if n < 10 && width <= 1 {
      assert r[..|r| - 1] == [];
    } else {
      var w := if width == 0 then 0 else width - 1;
      var front := PadDec(n / 10, w);
      PadDecValue(n / 10, w);
      assert r[..|r| - 1] == front;
    }
  }

  /** Without padding beyond one character, a positive value is written with a non-zero first digit. */
  lemma {:induction false} PadDecLeading(n: nat, width: nat)
    requires width <= 1
    ensures n > 0 ==> PadDec(n, width)[0] != '0'
    decreases n
  {
    if n > 0 && !(n < 10 && width <= 1) {
      PadDecLeading(n / 10, 0);
      assert PadDec(n, width)[0] == PadDec(n / 10, 0)[0];
    }
  }

  /** A value below 10^w is written in exactly w characters. */
  lemma {:induction false} PadDecLength(n: nat, width: nat)
    requires width >= 1 && n < Pow10(width)
    ensures |PadDec(n, width)| == width
    decreases width
  {
    if !(n < 10 && width <= 1) {
      PadDecLength(n / 10, width - 1);
    }
  }

  /** Formatting the value of a digit string at its own width gives it back, leading zeros included. */
  lemma {:induction false} PadDecOfDigits(d: string)
    requires |d| >= 1 && AllDigits(d)
    ensures PadDec(DigitsValue(d), |d|) == d
    decreases |d|
  {
    var front := d[..|d| - 1];
    var v := DigitsValue(d);
    if |d| == 1 {
      assert front == [];
    } else {
      PadDecOfDigits(front);
      assert v / 10 == DigitsValue(front) && v % 10 == DigitValue(d[|d| - 1]);
      assert d == front + [d[|d| - 1]];
    }
  }
}
