/**
 * Decimal digit strings: Python's `str(n)`, the `02d` format specifier and
 * the fixed-width zero padding of ISO dates, each tied to the numeric value
 * it spells.
 */
module Decimal {

  predicate IsDigit(c: char) {
    '0' <= c <= '9'
  }

  predicate AllDigits(s: string) {
    forall i :: 0 <= i < |s| ==> IsDigit(s[i])
  }

  function DigitOf(c: char): nat
    requires IsDigit(c)
  {
    c as int - '0' as int
  }

  function DigitChar(d: nat): (c: char)
    requires d < 10
    ensures IsDigit(c) && DigitOf(c) == d
  {
    ('0' as int + d) as char
  }

  /** The number a string of decimal digits spells, most significant digit first. */
  function ValueOf(s: string): nat
    requires AllDigits(s)
  {
    if s == [] then 0 else ValueOf(s[..|s| - 1]) * 10 + DigitOf(s[|s| - 1])
  }

  function Pow10(w: nat): (p: nat)
    ensures p >= 1
  {
    if w == 0 then 1 else 10 * Pow10(w - 1)
  }

  /** The last `w` decimal digits of `n`, filled with zeros on the left. */
  function Padded(n: nat, w: nat): (s: string)
    ensures |s| == w && AllDigits(s)
  {
    if w == 0 then [] else Padded(n / 10, w - 1) + [DigitChar(n % 10)]
  }

  lemma {:induction false} PaddedValue(n: nat, w: nat)
    requires n < Pow10(w)
    ensures ValueOf(Padded(n, w)) == n
  {
    if w > 0 {
      assert n / 10 < Pow10(w - 1);
      PaddedValue(n / 10, w - 1);
      var s := Padded(n, w);
      assert s[..|s| - 1] == Padded(n / 10, w - 1);
    }
  }

  /** Fixed-width padding is injective on the numbers that fit in the width. */
  lemma PaddedInjective(x: nat, y: nat, w: nat)
    requires x < Pow10(w) && y < Pow10(w)
    ensures Padded(x, w) == Padded(y, w) <==> x == y
  {
    PaddedValue(x, w);
    PaddedValue(y, w);
  }

  /** Python's `str(n)` for `n >= 0`: the shortest digit string spelling `n`. */
  function NatToString(n: nat): (s: string)
    ensures |s| >= 1
  {
    if n < 10 then [DigitChar(n)] else NatToString(n / 10) + [DigitChar(n % 10)]
  }

  lemma {:induction false} NatToStringValue(n: nat)
    ensures AllDigits(NatToString(n)) && ValueOf(NatToString(n)) == n
    ensures |NatToString(n)| > 1 ==> NatToString(n)[0] != '0'
    ensures n < 10 <==> |NatToString(n)| == 1
  {
    if n >= 10 {
      NatToStringValue(n / 10);
      var s := NatToString(n);
      assert s[..|s| - 1] == NatToString(n / 10);
    }
  }

  /** Python's `str(i)` for any integer. */
  function IntToString(i: int): (s: string)
    ensures |s| >= 1
  {
    if i < 0 then "-" + NatToString(-i) else NatToString(i)
  }

  lemma IntToStringValue(i: int)
    ensures var s := IntToString(i);
      && (i >= 0 ==> AllDigits(s) && ValueOf(s) == i)
      && (i < 0 ==> s[0] == '-' && AllDigits(s[1..]) && ValueOf(s[1..]) == -i)
  {
    if i < 0 {
      NatToStringValue(-i);
      assert IntToString(i)[1..] == NatToString(-i);
    } else {
      NatToStringValue(i);
    }
  }

  /** Python's `f"{n:02d}"` for `n >= 0`: at least two digits, zero-filled on the left. */
  function TwoDigits(n: nat): (s: string)
    ensures |s| >= 2
  {
    if n < 10 then "0" + NatToString(n) else NatToString(n)
  }

  lemma TwoDigitsValue(n: nat)
    ensures var s := TwoDigits(n);
      AllDigits(s) && ValueOf(s) == n && (n < 100 <==> |s| == 2)
  {
    NatToStringValue(n);
    var s := TwoDigits(n);
    if n < 10 {
      assert s[..1] == "0";
    } else if n >= 100 {
      NatToStringValue(n / 10);
    }
  }
}
