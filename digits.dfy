/**
 * Decimal digit strings: the parse that `int(...)` / `astype(int)` performs on
 * the cleaned cells and on the year labels, and the rendering `'{}'.format(i)`
 * used for the slider marks.
 *
 * The parse is restricted to non-empty strings of ASCII digits (leading zeros
 * allowed, as with Python's `int`); every other string is a failure.
 */
module Digits {
  import opened Wrappers

  predicate IsDigit(c: char) {
    '0' <= c <= '9'
  }

  predicate AllDigits(s: string) {
    forall i :: 0 <= i < |s| ==> IsDigit(s[i])
  }

  function DigitValue(c: char): (d: nat)
    requires IsDigit(c)
    ensures d < 10
  {
    (c as int) - ('0' as int)
  }

  function DigitChar(d: nat): (c: char)
    requires d < 10
    ensures IsDigit(c) && DigitValue(c) == d
  {
    (('0' as int) + d) as char
  }

  /** The number a digit string denotes, most significant digit first. */
  function ValueOf(s: string): nat
    requires AllDigits(s)
  {
    if |s| == 0 then 0 else 10 * ValueOf(s[..|s| - 1]) + DigitValue(s[|s| - 1])
  }

  /** `int(s)` restricted to ASCII digits: `None` stands for the ValueError. */
  function ParseNat(s: string): Option<nat> {
    if |s| > 0 && AllDigits(s) then Some(ValueOf(s)) else None
  }

  /** `'{}'.format(n)` for a natural number: its shortest decimal rendering. */
  function ShowNat(n: nat): (s: string)
    decreases n
  {
    (if n < 10 then [] else ShowNat(n / 10)) + [DigitChar(n % 10)]
  }

  /** Appending a digit shifts the value one decimal place. */
  lemma ValueOfSnoc(s: string, c: char)
    requires AllDigits(s) && IsDigit(c)
    ensures AllDigits(s + [c]) && ValueOf(s + [c]) == 10 * ValueOf(s) + DigitValue(c)
  {
  }

  /** Rendering a number yields digits only, with no superfluous leading zero. */
  lemma {:induction false} ShowNatDigits(n: nat)
    ensures |ShowNat(n)| > 0 && AllDigits(ShowNat(n))
    ensures |ShowNat(n)| > 1 ==> ShowNat(n)[0] != '0'
    decreases n
  {
    if n >= 10 {
      ShowNatDigits(n / 10);
      var s := ShowNat(n / 10);
      assert ShowNat(n)[0] == s[0];
    }
  }

  /** The rendering of a number parses back to that number. */
  lemma {:induction false} ParseShowRoundTrip(n: nat)
    ensures ParseNat(ShowNat(n)) == Some(n)
    decreases n
  {
    ShowNatDigits(n);
    var s := ShowNat(n);
    if n < 10 {
      assert s == [] + [DigitChar(n)];
      ValueOfSnoc([], DigitChar(n));
    } else {
      ParseShowRoundTrip(n / 10);
      ShowNatDigits(n / 10);
      var p := ShowNat(n / 10);
      assert s == p + [DigitChar(n % 10)];
      ValueOfSnoc(p, DigitChar(n % 10));
    }
  }
}
