/**
 * Decimal numerals as the source reads and writes them: Python's `int(text)`
 * and `float(text)` restricted to ASCII digits with an optional fraction, and
 * `str(n)` / `f"{n:0Wd}"` for whole numbers.
 */
module Numerals {
  import opened Wrappers

  predicate IsDigit(c: char) {
    '0' <= c <= '9'
  }

  /** Every character of s is a decimal digit. */
  predicate AllDigits(s: string) {
    s == [] || (IsDigit(s[0]) && AllDigits(s[1..]))
  }

  lemma {:induction false} AllDigitsConcat(a: string, b: string)
    ensures AllDigits(a + b) <==> AllDigits(a) && AllDigits(b)
  {
    if a == [] {
      assert a + b == b;
    } else {
      assert (a + b)[1..] == a[1..] + b;
      AllDigitsConcat(a[1..], b);
    }
  }

  lemma {:induction false} AllDigitsAt(s: string, i: nat)
    requires AllDigits(s) && i < |s|
    ensures IsDigit(s[i])
  {
    if i > 0 {
      AllDigitsAt(s[1..], i - 1);
    }
  }

  /** The value of a digit character (zero for any other character). */
  function DigitValue(c: char): (d: nat)
    ensures d <= 9
    ensures IsDigit(c) ==> d == c as int - '0' as int
  {
    if IsDigit(c) then c as int - '0' as int else 0
  }

  function DigitChar(d: nat): (c: char)
    requires d < 10
    ensures IsDigit(c) && DigitValue(c) == d
  {
    ('0' as int + d) as char
  }

  function Pow10(k: nat): (p: nat)
    ensures p >= 1
  {
    if k == 0 then 1 else 10 * Pow10(k - 1)
  }

  /** The value of a digit string, most significant digit first. */
  function DigitsValue(s: string): nat {
    if s == [] then 0 else DigitsValue(s[..|s| - 1]) * 10 + DigitValue(s[|s| - 1])
  }

  /** The low `k` decimal digits of n, most significant first. */
  function Digits(n: nat, k: nat): (r: string)
    ensures |r| == k
  {
    if k == 0 then [] else Digits(n / 10, k - 1) + [DigitChar(n % 10)]
  }

  /** The number of decimal digits of n (one for zero). */
  function NumLen(n: nat): (k: nat)
    ensures 1 <= k
  {
    if n < 10 then 1 else 1 + NumLen(n / 10)
  }

  /** k digits spell n exactly when n < 10^k. */
  lemma {:induction false} DigitsValueOf(n: nat, k: nat)
    requires n < Pow10(k)
    ensures AllDigits(Digits(n, k)) && DigitsValue(Digits(n, k)) == n
  {
    if k > 0 {
      DigitsValueOf(n / 10, k - 1);
      var r := Digits(n, k);
      assert r[..k - 1] == Digits(n / 10, k - 1);
      var c := [DigitChar(n % 10)];
      assert c[1..] == [];
      AllDigitsConcat(Digits(n / 10, k - 1), c);
    }
  }

  /** n has at most k digits exactly when n < 10^k. */
  lemma {:induction false} NumLenFits(n: nat, k: nat)
    requires 1 <= k
    ensures NumLen(n) <= k <==> n < Pow10(k)
  {
    if n >= 10 && k > 1 {
      NumLenFits(n / 10, k - 1);
    }
  }

  lemma {:induction false} Pow10Monotone(a: nat, b: nat)
    requires a <= b
    ensures Pow10(a) <= Pow10(b)
  {
    if a < b {
      Pow10Monotone(a, b - 1);
    }
  }

  /** Python `str(n)` for n >= 0: the shortest decimal numeral of n. */
  function NatToString(n: nat): string {
    Digits(n, NumLen(n))
  }

  /** `str(n)` spells n, and no numeral of n is shorter. */
  lemma NatToStringValue(n: nat)
    ensures AllDigits(NatToString(n)) && DigitsValue(NatToString(n)) == n
    ensures 1 <= |NatToString(n)|
    ensures forall k | 1 <= k :: |NatToString(n)| <= k <==> n < Pow10(k)
  {
    forall k | 1 <= k
      ensures |NatToString(n)| <= k <==> n < Pow10(k)
    {
      NumLenFits(n, k);
    }
    NumLenFits(n, NumLen(n));
    DigitsValueOf(n, NumLen(n));
  }

  /** Python `str(i)` for any integer. */
  function IntToString(i: int): (r: string)
    ensures i >= 0 ==> AllDigits(r) && DigitsValue(r) == i
    ensures i < 0 ==> |r| >= 2 && r[0] == '-' && AllDigits(r[1..]) && DigitsValue(r[1..]) == -i
  {
    if i >= 0 then
      NatToStringValue(i);
      NatToString(i)
    else
      NatToStringValue(-i);
      var r := "-" + NatToString(-i);
      assert r[1..] == NatToString(-i);
      r
  }

  /** Python `f"{n:0{width}d}"` for n >= 0: the numeral of n, zero-padded on the left to `width`. */
  function PadNat(n: nat, width: nat): string {
    Digits(n, if NumLen(n) >= width then NumLen(n) else width)
  }

  /** A padded numeral spells n in at least `width` digits. */
  lemma PadNatValue(n: nat, width: nat)
    ensures AllDigits(PadNat(n, width)) && DigitsValue(PadNat(n, width)) == n
    ensures 1 <= |PadNat(n, width)| && width <= |PadNat(n, width)|
  {
    var k := if NumLen(n) >= width then NumLen(n) else width;
    NumLenFits(n, NumLen(n));
    Pow10Monotone(NumLen(n), k);
    DigitsValueOf(n, k);
  }

  /** A padded numeral has exactly `width` digits when n has at most that many. */
  lemma PadNatWidth(n: nat, width: nat)
    requires 1 <= width && n < Pow10(width)
    ensures |PadNat(n, width)| == width
  {
    NumLenFits(n, width);
  }

  /** A numeral that does not fit is not cut: it keeps all its digits. */
  lemma PadNatOverflow(n: nat, width: nat)
    requires Pow10(width) <= n
    ensures width < |PadNat(n, width)|
  {
    if width >= 1 {
      NumLenFits(n, width);
    }
  }

  /** Python `int(s)` on a digit string; None where Python raises ValueError. */
  function ParseNatural(s: string): (r: Option<nat>)
    ensures r.Some? <==> s != [] && AllDigits(s)
    ensures r.Some? ==> r.value == DigitsValue(s)
  {
    if s != [] && AllDigits(s) then Some(DigitsValue(s)) else None
  }

  /** The index of the first '.' in s, or |s| when there is none. */
  function DotIndex(s: string): (k: nat)
    ensures k <= |s|
    ensures k < |s| ==> s[k] == '.'
  {
    if s == [] then 0
    else if s[0] == '.' then 0
    else 1 + DotIndex(s[1..])
  }

  /**
   * Python `float(s)` on `digits`, `digits.digits`, `digits.` or `.digits`;
   * None where Python raises ValueError.
   */
  function ParseDecimal(s: string): (r: Option<real>)
    ensures r.Some? ==> r.value >= 0.0
  {
    var k := DotIndex(s);
    if k == |s| then
      if s != [] && AllDigits(s) then Some(DigitsValue(s) as real) else None
    else ParsePointed(s[..k], s[k + 1..])
  }

  /** `whole.frac`, either side possibly empty but not both. */
  function ParsePointed(whole: string, frac: string): (r: Option<real>)
    ensures r.Some? <==> AllDigits(whole) && AllDigits(frac) && (whole != [] || frac != [])
    ensures r.Some? ==> r.value == DigitsValue(whole) as real + FractionValue(frac)
  {
    if AllDigits(whole) && AllDigits(frac) && (whole != [] || frac != []) then
      Some(DigitsValue(whole) as real + FractionValue(frac))
    else None
  }

  /** The value of the digits after a decimal point: 0.d0d1... = (d0 + 0.d1...) / 10. */
  function FractionValue(frac: string): (v: real)
    ensures 0.0 <= v < 1.0
  {
    if frac == [] then 0.0 else (DigitValue(frac[0]) as real + FractionValue(frac[1..])) / 10.0
  }

  /** Three fraction digits d0 d1 d2 stand for (100 d0 + 10 d1 + d2) / 1000. */
  lemma FractionValueThreeDigits(frac: string)
    requires |frac| == 3 && AllDigits(frac)
    ensures FractionValue(frac) == DigitsValue(frac) as real / 1000.0
  {
    var a, b, c := DigitValue(frac[0]), DigitValue(frac[1]), DigitValue(frac[2]);
    assert frac[1..][1..] == frac[2..];
    assert frac[2..][1..] == [];
    assert FractionValue(frac[2..]) == c as real / 10.0;
    assert FractionValue(frac[1..]) == (b as real + c as real / 10.0) / 10.0;
    assert frac[..2][..1] == frac[..1];
    assert DigitsValue(frac[..1]) == a;
    assert DigitsValue(frac[..2]) == a * 10 + b;
    assert DigitsValue(frac) == (a * 10 + b) * 10 + c;
  }

  /** A digit string reads back as that whole number. */
  lemma ParseDecimalWhole(s: string)
    requires s != [] && AllDigits(s)
    ensures ParseDecimal(s) == Some(DigitsValue(s) as real)
  {
    DotIndexDigits(s);
  }

  lemma {:induction false} DotIndexDigits(s: string)
    requires AllDigits(s)
    ensures DotIndex(s) == |s|
  {
    if s != [] {
      DotIndexDigits(s[1..]);
    }
  }

  /** `whole` + "." + `frac`, both digit strings, reads back as whole + frac / 10^|frac|. */
  lemma ParseDecimalFraction(whole: string, frac: string)
    requires whole != [] && AllDigits(whole) && AllDigits(frac)
    ensures ParseDecimal(whole + "." + frac) == Some(DigitsValue(whole) as real + FractionValue(frac))
  {
    var s := whole + "." + frac;
    assert s == whole + ("." + frac);
    DotIndexAfterDigits(whole, "." + frac);
    assert s[..|whole|] == whole;
    assert s[|whole| + 1..] == frac;
    ParseDecimalAt(s, |whole|);
    ParsePointedValue(whole, frac);
  }

  lemma ParsePointedValue(whole: string, frac: string)
    requires AllDigits(whole) && AllDigits(frac) && (whole != [] || frac != [])
    ensures ParsePointed(whole, frac) == Some(DigitsValue(whole) as real + FractionValue(frac))
  {
  }

  lemma ParseDecimalAt(s: string, k: nat)
    requires k < |s| && DotIndex(s) == k
    ensures ParseDecimal(s) == ParsePointed(s[..k], s[k + 1..])
  {
  }

  lemma {:induction false} DotIndexAfterDigits(d: string, rest: string)
    requires AllDigits(d) && rest != [] && rest[0] == '.'
    ensures DotIndex(d + rest) == |d|
  {
    if d != [] {
      assert (d + rest)[1..] == d[1..] + rest;
      DotIndexAfterDigits(d[1..], rest);
    } else {
      assert d + rest == rest;
    }
  }
}
