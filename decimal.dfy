/** Decimal text as JavaScript reads and writes it: `Number(s)` on a field of
    digits, `n.toString()` and `padStart(2, '0')` on a non-negative integer. */
module Decimal {
  import opened Schemas

  predicate IsDigit(c: char) { '0' <= c <= '9' }

  predicate AllDigits(s: string) { forall i :: 0 <= i < |s| ==> IsDigit(s[i]) }

  function DigitValue(c: char): nat
    requires IsDigit(c)
  {
    (c as int) - ('0' as int)
  }

  function DigitChar(d: nat): (c: char)
    requires d < 10
    ensures IsDigit(c) && DigitValue(c) == d
  {
    (('0' as int) + d) as char
  }

  /** The value of a digit string, most significant digit first; leading zeros
      are allowed and the empty string reads as 0, as `Number("")` does. */
  function Value(s: string): nat
    requires AllDigits(s)
  {
    if s == [] then 0 else Value(s[..|s| - 1]) * 10 + DigitValue(s[|s| - 1])
  }

  /** `Number(s)`: a number for a string of digits, NaN (None) for any text
      that holds a character other than a digit. */
  function JsNumber(s: string): Option<nat>
  {
    if AllDigits(s) then Some(Value(s)) else None
  }

  /** `n.toString()` for a non-negative integer: shortest decimal spelling. */
  function ToDecimal(n: nat): (r: string)
    ensures 1 <= |r| && AllDigits(r)
    ensures Value(r) == n
    ensures r[0] == '0' ==> n == 0
  {
    if n < 10 then [DigitChar(n)]
    else
      var prefix := ToDecimal(n / 10);
      var r := prefix + [DigitChar(n % 10)];
      assert r[..|r| - 1] == prefix;
      r
  }

  function Pow10(k: nat): (p: nat)
    ensures p >= 1
  {
    if k == 0 then 1 else 10 * Pow10(k - 1)
  }

  /** A number with k digits is spelled with exactly k characters. */
  lemma {:induction false} ToDecimalLength(n: nat, k: nat)
    requires 1 <= k && (k == 1 || Pow10(k - 1) <= n) && n < Pow10(k)
    ensures |ToDecimal(n)| == k
  {
    if k > 1 {
      ToDecimalLength(n / 10, k - 1);
    }
  }

  /** `s.padStart(2, '0')`. */
  function PadStart2(s: string): (r: string)
    ensures |r| == if |s| < 2 then 2 else |s|
    ensures r[|r| - |s|..] == s
  {
    if |s| < 2 then seq(2 - |s|, _ => '0') + s else s
  }

  /** A leading zero does not change the value of a digit string. */
  lemma {:induction false} LeadingZero(s: string)
    requires AllDigits(s)
    ensures AllDigits(['0'] + s) && Value(['0'] + s) == Value(s)
  {
    var z := ['0'] + s;
    if s != [] {
      assert z[..|z| - 1] == ['0'] + s[..|s| - 1];
      LeadingZero(s[..|s| - 1]);
    }
  }

  /** Padding a spelled number to two digits keeps its value. */
  lemma PaddedValue(n: nat)
    ensures AllDigits(PadStart2(ToDecimal(n)))
    ensures Value(PadStart2(ToDecimal(n))) == n
  {
    var d := ToDecimal(n);
    if |d| < 2 {
      assert PadStart2(d) == ['0'] + d;
      LeadingZero(d);
    }
  }

  /** `Number()` reads back what `toString()` wrote, with or without the
      two-digit padding: the clock fields `toTimeStr` prints read as the
      hours and minutes they were made from. */
  lemma JsNumberReadsSpelling(n: nat)
    ensures JsNumber(ToDecimal(n)) == Some(n)
    ensures JsNumber(PadStart2(ToDecimal(n))) == Some(n)
  {
    PaddedValue(n);
  }

  /** A leading zero never changes what `Number()` reads: "09" is 9, and a
      text that is NaN stays NaN. */
  lemma JsNumberIgnoresLeadingZero(s: string)
    ensures JsNumber(['0'] + s) == JsNumber(s)
  {
    var z := ['0'] + s;
    if AllDigits(s) {
      LeadingZero(s);
    } else {
      var k :| 0 <= k < |s| && !IsDigit(s[k]);
      assert z[k + 1] == s[k];
    }
  }

  /** A two-digit field below 100 is spelled back exactly by
      `toString().padStart(2, '0')`. */
  lemma TwoDigitsRoundTrip(t: string)
    requires |t| == 2 && AllDigits(t)
    ensures PadStart2(ToDecimal(Value(t))) == t
  {
    var d0, d1 := DigitValue(t[0]), DigitValue(t[1]);
    TwoDigitValue(t);
    DigitCharOfValue(t[0]);
    DigitCharOfValue(t[1]);
    var n := Value(t);
    assert t == [t[0], t[1]];
    if d0 == 0 {
      assert n == d1;
      SpellOneDigit(d1);
      PadOneDigit(t[1]);
    } else {
      assert n == d0 * 10 + d1;
      SpellTwoDigits(d0, d1);
    }
  }

  /** Padding a one-character spelling puts a single zero in front. */
  lemma PadOneDigit(c: char)
    ensures PadStart2([c]) == ['0', c]
  {
    assert PadStart2([c]) == ['0'] + [c];
  }

  /** A digit is spelled as itself. */
  lemma SpellOneDigit(d: nat)
    requires d < 10
    ensures ToDecimal(d) == [DigitChar(d)]
  {
  }

  /** A number from 10 to 99 is spelled with its two digits. */
  lemma SpellTwoDigits(a: nat, b: nat)
    requires 1 <= a < 10 && b < 10
    ensures ToDecimal(a * 10 + b) == [DigitChar(a), DigitChar(b)]
  {
    var n := a * 10 + b;
    assert n / 10 == a && n % 10 == b;
    assert ToDecimal(n / 10) == [DigitChar(a)];
  }

  /** The value of a two-digit field. */
  lemma TwoDigitValue(t: string)
    requires |t| == 2 && AllDigits(t)
    ensures Value(t) == DigitValue(t[0]) * 10 + DigitValue(t[1])
  {
    assert t[..1][..0] == [];
    assert Value(t[..1]) == DigitValue(t[0]);
  }

  /** Spelling the value of a digit gives the digit back. */
  lemma DigitCharOfValue(c: char)
    requires IsDigit(c)
    ensures DigitChar(DigitValue(c)) == c
  {
  }
}
