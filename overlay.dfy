/**
 * What the loop draws on the output frame copy: a rectangle per successful
 * tracker update (`cv2.rectangle`) and a speed label (`cv2.putText`). Pixels
 * are not modelled; the marks are kept in drawing order.
 */
module Overlay {

  /** The rectangle from `(left, top)` to `(right, bottom)`, or a text label whose origin is `(x, y)`. */
  datatype Mark =
    | Rectangle(left: int, top: int, right: int, bottom: int, thickness: nat)
    | Label(text: string, x: int, y: int)

  predicate IsDigit(c: char) {
    '0' <= c <= '9'
  }

  function DigitChar(d: nat): (c: char)
    requires d < 10
    ensures IsDigit(c) && (c == '0' <==> d == 0)
  {
    "0123456789"[d]
  }

  function DigitValue(c: char): (d: nat)
    requires IsDigit(c)
    ensures d < 10 && DigitChar(d) == c
  {
    (c as int - '0' as int) as nat
  }

  /** Python's `str(n)` for a non-negative integer: decimal digits, no leading zero. */
  function DecimalString(n: nat): (s: string)
    ensures |s| >= 1
    ensures forall i :: 0 <= i < |s| ==> IsDigit(s[i])
    ensures s[0] == '0' ==> n == 0 && |s| == 1
  {
    if n < 10 then [DigitChar(n)] else DecimalString(n / 10) + [DigitChar(n % 10)]
  }

  /** Reads a string of decimal digits back as a number. */
  function ParseDecimal(s: string): nat
    requires forall i :: 0 <= i < |s| ==> IsDigit(s[i])
  {
    if s == [] then 0 else ParseDecimal(s[..|s| - 1]) * 10 + DigitValue(s[|s| - 1])
  }

  /** The printed digits are the number: `DecimalString` loses nothing. */
  lemma {:induction false} DecimalRoundTrip(n: nat)
    ensures ParseDecimal(DecimalString(n)) == n
  {
    var s := DecimalString(n);
    if n < 10 {
      assert s[..|s| - 1] == [];
    } else {
      assert s[..|s| - 1] == DecimalString(n / 10);
      DecimalRoundTrip(n / 10);
      assert DigitValue(DigitChar(n % 10)) == n % 10;
    }
  }

  /** The label text `f"{int(speed)}km/h"`. */
  function SpeedText(kmh: nat): string {
    DecimalString(kmh) + "km/h"
  }

  /** A speed label names its speed: different speeds print differently. */
  lemma SpeedTextInjective(a: nat, b: nat)
    requires SpeedText(a) == SpeedText(b)
    ensures a == b
  {
    var sa, sb := DecimalString(a), DecimalString(b);
    assert sa == SpeedText(a)[..|sa|];
    assert sb == SpeedText(b)[..|sb|];
    DecimalRoundTrip(a);
    DecimalRoundTrip(b);
  }
}
