/** Decimal rendering of integers (`Number.prototype.toString()` on an
    integral value) and left padding (`String.prototype.padStart`), which the
    date formatter's `pad0` and the response's `ok` flag are built on. */
module Decimal {
  import opened Text

  predicate IsDigit(c: char) {
    '0' <= c <= '9'
  }

  predicate AllDigits(s: string) {
    forall k :: 0 <= k < |s| ==> IsDigit(s[k])
  }

  function DigitChar(d: nat): (c: char)
    requires d < 10
    ensures IsDigit(c)
  {
    ('0' as int + d) as char
  }

  function DigitValue(c: char): (d: nat)
    requires IsDigit(c)
    ensures d < 10
  {
    c as int - '0' as int
  }

  function Pow10(w: nat): (p: nat)
    ensures p >= 1
  {
    if w == 0 then 1 else 10 * Pow10(w - 1)
  }

  /** The decimal digits of `n`, most significant first, without leading
      zeros: the text JavaScript prints for a non-negative integer. */
  function NatToString(n: nat): (r: string)
    ensures |r| >= 1 && AllDigits(r)
    ensures r[0] == '0' ==> n == 0
    decreases n
  {
    if n < 10 then [DigitChar(n)] else NatToString(n / 10) + [DigitChar(n % 10)]
  }

  /** The text JavaScript prints for an integer: a minus sign before the
      digits of a negative value. */
  function IntToString(i: int): (r: string)
    ensures |r| >= 1
    ensures (r[0] == '-') == (i < 0)
    ensures i >= 0 ==> r == NatToString(i)
    ensures i < 0 ==> r[1..] == NatToString(-i)
  {
    if i < 0 then "-" + NatToString(-i) else NatToString(i)
  }

  /** The number a digit string denotes. */
  function DigitsValue(s: string): nat
    requires AllDigits(s)
  {
    if s == [] then 0 else 10 * DigitsValue(s[..|s| - 1]) + DigitValue(s[|s| - 1])
  }

  /** Reading back the digits of `n` gives `n`. */
  lemma {:induction false} DigitsValueOfNatToString(n: nat)
    ensures DigitsValue(NatToString(n)) == n
    decreases n
  {
    if n >= 10 {
      DigitsValueOfNatToString(n / 10);
      var r := NatToString(n);
      assert r[..|r| - 1] == NatToString(n / 10);
    }
  }

  /** `n` takes at most `w` digits exactly when it is below 10^w. */
  lemma {:induction false} NatToStringLength(n: nat, w: nat)
    requires w >= 1
    ensures |NatToString(n)| <= w <==> n < Pow10(w)
    decreases n
  {
    if n >= 10 {
      if w == 1 {
        assert |NatToString(n)| >= 2 by { assert |NatToString(n)| == |NatToString(n / 10)| + 1; }
      } else {
        NatToStringLength(n / 10, w - 1);
      }
    }
  }

  /** Leading zeros do not change the value of a digit string. */
  lemma {:induction false} DigitsValueLeadingZeros(z: string, s: string)
    requires AllDigits(s)
    requires forall k :: 0 <= k < |z| ==> z[k] == '0'
    ensures AllDigits(z + s) && DigitsValue(z + s) == DigitsValue(s)
    decreases |s|
  {
    var t := z + s;
    assert AllDigits(t) by {
      forall k | 0 <= k < |t| ensures IsDigit(t[k]) {
        if k < |z| { assert t[k] == z[k]; } else { assert t[k] == s[k - |z|]; }
      }
    }
    if s == [] {
      assert t == z;
      ZerosValue(z);
    } else {
      DigitsValueLeadingZeros(z, s[..|s| - 1]);
      assert t[..|t| - 1] == z + s[..|s| - 1];
    }
  }

  lemma {:induction false} ZerosValue(z: string)
    requires forall k :: 0 <= k < |z| ==> z[k] == '0'
    ensures AllDigits(z) && DigitsValue(z) == 0
    decreases |z|
  {
    if z != [] {
      ZerosValue(z[..|z| - 1]);
    }
  }

  /** `String.prototype.padStart(width, c)` with a one-character filler: the
      filler is prepended until the text is `width` long; text already that
      long is returned unchanged. */
  function PadStart(s: string, width: nat, c: char): (r: string)
    ensures |r| == if |s| >= width then |s| else width
    ensures EndsWith(r, s)
    ensures forall k :: 0 <= k < |r| - |s| ==> r[k] == c
  {
    if |s| >= width then s else seq(width - |s|, _ => c) + s
  }

  /** `pad0(value, width)`: the decimal text of `value`, left-padded with
      zeros to at least `width` characters. */
  function Pad0(value: int, width: nat): (r: string)
    ensures |r| == if |IntToString(value)| >= width then |IntToString(value)| else width
    ensures EndsWith(r, IntToString(value))
    ensures forall k :: 0 <= k < |r| - |IntToString(value)| ==> r[k] == '0'
  {
    PadStart(IntToString(value), width, '0')
  }

  /** Text already `width` long is not padded. */
  lemma Pad0Long(value: int, width: nat)
    requires |IntToString(value)| >= width
    ensures Pad0(value, width) == IntToString(value)
  {
  }

  /** A value below 10^width pads to exactly `width` digits that read back
      as the value. */
  lemma Pad0Fixed(value: nat, width: nat)
    requires 1 <= width && value < Pow10(width)
    ensures |Pad0(value, width)| == width
    ensures AllDigits(Pad0(value, width)) && DigitsValue(Pad0(value, width)) == value
  {
    var s := NatToString(value);
    var r := Pad0(value, width);
    NatToStringLength(value, width);
    DigitsValueOfNatToString(value);
    var z := r[..|r| - |s|];
    assert r == z + s;
    DigitsValueLeadingZeros(z, s);
  }
}
