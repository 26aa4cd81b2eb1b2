/** A stand-in for Python's `float()` on the word that follows a sampling-rate key:
    an optional sign, decimal digits and at most one decimal point, with at least one
    digit. Exponents, `inf`, `nan` and underscores are not part of it. */
module Decimal {
  import opened Options
  import opened Strings

  predicate AllDigits(s: string) {
    forall k :: 0 <= k < |s| ==> IsDigit(s[k])
  }

  function DigitValue(c: char): (d: nat)
    requires IsDigit(c)
    ensures d < 10
  {
    c as int - '0' as int
  }

  function DigitChar(d: nat): (c: char)
    requires d < 10
    ensures IsDigit(c) && DigitValue(c) == d
  {
    ('0' as int + d) as char
  }

  /** The value of a string of decimal digits, most significant digit first. */
  function NatValue(ds: string): nat
    requires AllDigits(ds)
  {
    if ds == [] then 0 else 10 * NatValue(ds[..|ds| - 1]) + DigitValue(ds[|ds| - 1])
  }

  /** The value of the digits after a decimal point. */
  function FractionValue(ds: string): (f: real)
    requires AllDigits(ds)
    ensures 0.0 <= f < 1.0
  {
    if ds == [] then 0.0 else (DigitValue(ds[0]) as real + FractionValue(ds[1..])) / 10.0
  }

  /** Digits, at most one `.`, at least one digit; no sign. */
  function ParseUnsigned(s: string): (r: Option<real>)
    ensures r.Some? ==> r.value >= 0.0
  {
    var k := if '.' in s then FirstIndex(s, '.') else |s|;
    var whole := s[..k];
    var frac := if k < |s| then s[k + 1..] else [];
    if AllDigits(whole) && AllDigits(frac) && |whole| + |frac| > 0 then
      Some(NatValue(whole) as real + FractionValue(frac))
    else None
  }

  /** The number a rate word stands for, or `None` where `float()` raises `ValueError`. */
  function ParseDecimal(s: string): Option<real> {
    if s != [] && (s[0] == '-' || s[0] == '+') then
      match ParseUnsigned(s[1..])
      case None => None
      case Some(v) => Some(if s[0] == '-' then -v else v)
    else ParseUnsigned(s)
  }

  /** The decimal digits of `n`, without leading zeros. */
  function ShowNat(n: nat): (s: string)
    ensures s != [] && AllDigits(s) && '.' !in s
  {
    if n < 10 then [DigitChar(n)] else ShowNat(n / 10) + [DigitChar(n % 10)]
  }

  lemma {:induction false} NatValueShowNat(n: nat)
    ensures NatValue(ShowNat(n)) == n
  {
    if n >= 10 {
      NatValueShowNat(n / 10);
      var s := ShowNat(n);
      assert s[..|s| - 1] == ShowNat(n / 10);
    }
  }

  /** Reading back the digits of a whole number, with or without a sign, gives that number. */
  lemma ParseShowNat(n: nat)
    ensures ParseDecimal(ShowNat(n)) == Some(n as real)
    ensures ParseDecimal("-" + ShowNat(n)) == Some(-(n as real))
    ensures ParseDecimal("+" + ShowNat(n)) == Some(n as real)
  {
    var s := ShowNat(n);
    NatValueShowNat(n);
    assert s[..|s|] == s;
    assert ("-" + s)[1..] == s;
    assert ("+" + s)[1..] == s;
  }

  /** Digits, a point and digits read back as the whole part plus the fraction. */
  lemma {:induction false} ParsePointed(w: string, frac: string)
    requires w != [] && AllDigits(w) && AllDigits(frac)
    ensures ParseDecimal(w + "." + frac) == Some(NatValue(w) as real + FractionValue(frac))
  {
    var s := w + "." + frac;
    var k := |w|;
    assert s[..k] == w && s[k] == '.' && s[k + 1..] == frac;
    FirstIndexAt(s, '.', k);
    assert s[0] == w[0];
  }

  /** A whole number, a point and a fraction read back as their sum. */
  lemma ParseWithFraction(n: nat, frac: string)
    requires AllDigits(frac)
    ensures ParseDecimal(ShowNat(n) + "." + frac) == Some(n as real + FractionValue(frac))
  {
    ParsePointed(ShowNat(n), frac);
    NatValueShowNat(n);
  }

  /** Words that `float()` refuses. */
  lemma ParseRejects()
    ensures ParseDecimal("") == None && ParseDecimal(".") == None && ParseDecimal("-") == None
    ensures ParseDecimal("nicht") == None
  {
  }
}
