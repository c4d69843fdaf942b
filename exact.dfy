/** The exact value text `(1.f)_2 × 2^e` of a normal or subnormal pattern,
    kept as structured data, and the rational it denotes. */
module ExactValue {
  import opened Bits

  /** `(1.fraction)_2 × 2^exponent`, the fraction as printed. */
  datatype ExactForm = ExactForm(fraction: string, exponent: int)

  /** `s` without its trailing run of '0' (a replacement of the pattern
      `0+$` by nothing). */
  function StripTrailingZeros(s: string): (r: string)
    ensures |r| <= |s| && r == s[..|r|]
    ensures forall i :: |r| <= i < |s| ==> s[i] == '0'
    ensures r == [] || r[|r| - 1] != '0'
  {
    if s == [] || s[|s| - 1] != '0' then s else StripTrailingZeros(s[..|s| - 1])
  }

  /** What `formatExactValue` prints, without its markup: the fraction with
      trailing zeros removed, or "0" when nothing is left. */
  function FormatExactValue(fraction: string, exponent: int): (r: ExactForm)
    ensures r.exponent == exponent
    ensures r.fraction == "0" <==> forall i :: 0 <= i < |fraction| ==> fraction[i] == '0'
    ensures r.fraction != "0" ==>
      && r.fraction != [] && r.fraction[|r.fraction| - 1] != '0'
      && |r.fraction| <= |fraction|
      && fraction == r.fraction + fraction[|r.fraction|..]
      && forall i :: |r.fraction| <= i < |fraction| ==> fraction[i] == '0'
  {
    var stripped := StripTrailingZeros(fraction);
    ExactForm(if stripped == [] then "0" else stripped, exponent)
  }

  /** Printing an already printed fraction again changes nothing. */
  lemma {:induction false} FormatExactValueIdempotent(fraction: string, exponent: int)
    ensures FormatExactValue(FormatExactValue(fraction, exponent).fraction, exponent)
         == FormatExactValue(fraction, exponent)
  {
    var r := FormatExactValue(fraction, exponent);
    if r.fraction == "0" {
      assert StripTrailingZeros("0") == [];
    } else {
      assert StripTrailingZeros(r.fraction) == r.fraction;
    }
  }

  /** The rational that `(1.f)_2 × 2^e` denotes, written without division:
      the integer significand `1f` (the bits of f behind a leading one) times
      2^(e - |f|). */
  function FormValue(form: ExactForm): real
    requires IsBits(form.fraction)
  {
    Dyadic(Significand(form.fraction), form.exponent - |form.fraction|)
  }

  /** The integer whose binary numeral is '1' followed by `f`. */
  function Significand(f: string): nat
    requires IsBits(f)
  {
    Pow2(|f|) + BinVal(f)
  }

  lemma {:induction false} ZeroBitsValue(z: string)
    requires forall i :: 0 <= i < |z| ==> z[i] == '0'
    ensures IsBits(z) && BinVal(z) == 0
  {
    ValueZeroIffZeroBits(z);
  }

  /** The integer significand of `t + z` for all-zero `z` is that of `t`
      shifted left by |z|. */
  lemma {:induction false} ZeroPaddedSignificand(t: string, z: string)
    requires IsBits(t) && forall i :: 0 <= i < |z| ==> z[i] == '0'
    ensures IsBits(z) && IsBits(t + z)
    ensures Significand(t + z) == Significand(t) * Pow2(|z|)
  {
    ZeroBitsValue(z);
    var p, v, q := Pow2(|t|), BinVal(t), Pow2(|z|);
    assert BinVal(t + z) == v * q by { BinValAppend(t, z); }
    Pow2Lengths(t, z);
    Distribute(p, v, q, Pow2(|t + z|), BinVal(t + z), Significand(t));
  }

  lemma {:induction false} Pow2Lengths(t: string, z: string)
    ensures Pow2(|t + z|) == Pow2(|t|) * Pow2(|z|)
  {
    Pow2Add(|t|, |z|);
  }

  lemma {:induction false} Distribute(a: int, b: int, c: int, ac: int, bc: int, s: int)
    requires ac == a * c && bc == b * c && s == a + b
    ensures ac + bc == s * c
  {
  }

  /** Appending zero bits to a fraction does not change the value it
      denotes. */
  lemma {:induction false} ZeroPaddedForm(t: string, z: string, exponent: int)
    requires IsBits(t) && forall i :: 0 <= i < |z| ==> z[i] == '0'
    ensures IsBits(z) && IsBits(t + z)
    ensures FormValue(ExactForm(t + z, exponent)) == FormValue(ExactForm(t, exponent))
  {
    ZeroPaddedSignificand(t, z);
    var a := exponent - |t + z|;
    assert exponent - |t| == a + |z|;
    DyadicShift(Significand(t), |z|, a);
  }

  /** Removing trailing zeros from the fraction does not change the value the
      exact text denotes. */
  lemma {:induction false} FormatKeepsValue(fraction: string, exponent: int)
    requires IsBits(fraction)
    ensures IsBits(FormatExactValue(fraction, exponent).fraction)
    ensures FormValue(FormatExactValue(fraction, exponent)) == FormValue(ExactForm(fraction, exponent))
  {
    var r := FormatExactValue(fraction, exponent);
    var t := if r.fraction == "0" then [] else r.fraction;
    var z := fraction[|t|..];
    assert fraction == t + z;
    assert IsBits(t) by { assert forall i :: 0 <= i < |t| ==> t[i] == fraction[i]; }
    ZeroPaddedForm(t, z, exponent);
    if r.fraction == "0" {
      assert "0" == [] + "0";
      ZeroPaddedForm([], "0", exponent);
    }
  }
}
