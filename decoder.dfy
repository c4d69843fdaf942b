/** The decoder: slices the bit string of a hexadecimal pattern into sign,
    exponent and mantissa, classifies the pattern, and produces its
    description and its value. */
module Decoder {
  import opened Results
  import opened Bits
  import opened Hex
  import opened Format
  import opened ExactValue

  datatype Class = Zero | Subnormal | Infinity | NaN | Normal

  /** The three fields as the strings the decoder slices out. */
  datatype Fields = Fields(sign: string, exponent: string, mantissa: string)

  /** What follows the sign in the description text. */
  datatype Body = ZeroWord | InfinityMark | Exact(form: ExactForm)

  /** The description text: the bare label "NaN", or a '+' or '-' prefix
      followed by a body. */
  datatype Description = NaNLabel | Signed(negative: bool, body: Body)

  /** The magnitude of a finite value as the decoder computes it: the
      initial 0, `parseInt(m, 2) × 2^minExponent` for a subnormal, or
      `(1 + mantissa × 2^-mantissaBits) × 2^exponent` for a normal pattern. */
  datatype Magnitude =
    | NoMagnitude
    | Scaled(integer: nat, exponent: int)
    | Normalised(mantissa: nat, mantissaBits: int, exponent: int)

  /** The decoded number: a signed finite magnitude (zero keeps its sign), a
      signed infinity, or NaN. */
  datatype Value = Finite(negative: bool, magnitude: Magnitude) | Infinite(negative: bool) | NotANumber

  datatype Decoded = Decoded(fields: Fields, classification: Class, description: Description, value: Value)

  datatype DecodeError = InvalidHexLength | InvalidHexDigit

  /** Bit 0 is the sign; the next `exponentBits` bits are the exponent; the
      rest is the mantissa. */
  function SplitFields(b: string, p: FormatParams): (f: Fields)
    requires 0 <= p.exponentBits < |b|
    ensures f.sign + f.exponent + f.mantissa == b
    ensures |f.sign| == 1 && |f.exponent| == p.exponentBits
    ensures |f.mantissa| == |b| - 1 - p.exponentBits
  {
    assert b == b[..1] + b[1..p.exponentBits + 1] + b[p.exponentBits + 1..];
    Fields(b[..1], b[1..p.exponentBits + 1], b[p.exponentBits + 1..])
  }

  /** Fields of the widths `p` prescribes, made of bits. */
  predicate WellFormed(f: Fields, p: FormatParams)
  {
    && |f.sign| == 1 && IsBits(f.sign)
    && |f.exponent| == p.exponentBits && IsBits(f.exponent)
    && |f.mantissa| == p.mantissaBits && IsBits(f.mantissa)
  }

  /** The class the decoder's tests select: the exponent field all zeros
      (zero or subnormal), all ones (infinity or NaN), or neither (normal);
      then the mantissa field all zeros or not. */
  function Classify(e: string, m: string): Class
  {
    if AllZeros(e) then (if AllZeros(m) then Zero else Subnormal)
    else if AllOnes(e) then (if AllZeros(m) then Infinity else NaN)
    else Normal
  }

  /** The classification branches of the decoder. A sign field other than
      "0" selects the '-' prefix and the factor -1. */
  function DecodeFields(f: Fields, p: FormatParams): (d: Decoded)
    requires IsBits(f.exponent) && IsBits(f.mantissa)
    ensures d.fields == f && d.classification == Classify(f.exponent, f.mantissa)
    ensures d.description == NaNLabel <==> d.classification == NaN
    ensures d.value == NotANumber <==> d.classification == NaN
    ensures d.classification != NaN ==>
      && d.description.negative == (f.sign != "0")
      && d.value.negative == (f.sign != "0")
    ensures d.classification == Zero ==> d.description.body == ZeroWord && d.value.Finite? && d.value.magnitude == NoMagnitude
    ensures d.classification == Infinity ==> d.description.body == InfinityMark && d.value.Infinite?
    ensures d.classification == Subnormal ==> d.description.body.Exact? && d.value.Finite? && d.value.magnitude.Scaled?
    ensures d.classification == Normal ==> d.description.body.Exact? && d.value.Finite? && d.value.magnitude.Normalised?
  {
    var negative := f.sign != "0";
    var e, m := f.exponent, f.mantissa;
    match Classify(e, m)
    case Zero =>
      Decoded(f, Zero, Signed(negative, ZeroWord), Finite(negative, NoMagnitude))
    case Subnormal =>
      Decoded(f, Subnormal, Signed(negative, Exact(SubnormalForm(m, p.bias))),
              Finite(negative, Scaled(BinVal(m), p.minExponent)))
    case Infinity =>
      Decoded(f, Infinity, Signed(negative, InfinityMark), Infinite(negative))
    case NaN =>
      Decoded(f, NaN, NaNLabel, NotANumber)
    case Normal =>
      var exponent := BinVal(e) - p.bias;
      Decoded(f, Normal, Signed(negative, Exact(FormatExactValue(m, exponent))),
              Finite(negative, Normalised(BinVal(m), p.mantissaBits, exponent)))
  }

  /** The exact text of a subnormal pattern: the bits after the first one
      of the mantissa, at k positions below 2^-bias when that one is at
      position k. */
  function SubnormalForm(m: string, bias: int): ExactForm
  {
    var k := IndexOf(m, '1');
    FormatExactValue(m[k + 1..], -bias - k)
  }

  /** The exact rational a magnitude stands for. */
  function MagnitudeValue(g: Magnitude): real
  {
    match g
    case NoMagnitude => 0.0
    case Scaled(s, e) => Dyadic(s, e)
    case Normalised(m, mb, x) => (1.0 + Dyadic(m, -mb)) * Pow2R(x)
  }

  /** Decoding of a pattern of 8 or 16 characters. A character outside the
      nibble table's alphabet is reported as an error. */
  function Decode(h: string): (r: Result<Decoded, DecodeError>)
    requires |h| == 8 || |h| == 16
    ensures r.Failure? <==> !IsUpperHex(h)
    ensures r.Failure? ==> r.error == InvalidHexDigit
    ensures r.Success? ==>
      && WellFormed(r.value.fields, ParamsFor(|h|))
      && r.value.fields.sign + r.value.fields.exponent + r.value.fields.mantissa == HexBits(h)
      && r.value == DecodeFields(r.value.fields, ParamsFor(|h|))
  {
    if !IsUpperHex(h) then Failure(InvalidHexDigit)
    else
      var p := ParamsFor(|h|);
      var b := HexBits(h);
      var f := SplitFields(b, p);
      SplitWellFormed(b, p);
      Success(DecodeFields(f, p))
  }

  /** Slicing a bit string of the format's width gives well-formed fields. */
  lemma {:induction false} SplitWellFormed(b: string, p: FormatParams)
    requires IsBits(b) && p.exponentBits >= 0 && p.mantissaBits >= 0
    requires |b| == 1 + p.exponentBits + p.mantissaBits
    ensures WellFormed(SplitFields(b, p), p)
  {
    var f := SplitFields(b, p);
    assert forall i :: 0 <= i < |f.sign| ==> f.sign[i] == b[i];
    assert forall i :: 0 <= i < |f.exponent| ==> f.exponent[i] == b[1 + i];
    assert forall i :: 0 <= i < |f.mantissa| ==> f.mantissa[i] == b[1 + p.exponentBits + i];
  }

  /** The decoder as the source runs it: the expansion loop, then the
      parameter, field and classification logic. */
  method DecodeAndUpdate(h: string) returns (r: Result<Decoded, DecodeError>)
    requires |h| == 8 || |h| == 16
    ensures r == Decode(h)
  {
    var b := ExpandHex(h);
    if !IsUpperHex(h) {
      return Failure(InvalidHexDigit);
    }
    var p := ParamsFor(|h|);
    var f := SplitFields(b, p);
    SplitWellFormed(b, p);
    r := Success(DecodeFields(f, p));
  }

  // ---------------------------------------------------------------------
  // Properties of the classification and of the values

  /** Exactly one class applies, and each is the IEEE 754 condition on the
      unsigned values of the exponent and mantissa fields. */
  lemma {:induction false} ClassByFieldValues(f: Fields, p: FormatParams)
    requires WellFormed(f, p) && p.exponentBits >= 1 && p.mantissaBits >= 1
    ensures var d, ev, mv, top := DecodeFields(f, p), BinVal(f.exponent), BinVal(f.mantissa), Pow2(p.exponentBits) - 1;
      && (d.classification == Zero <==> ev == 0 && mv == 0)
      && (d.classification == Subnormal <==> ev == 0 && mv > 0)
      && (d.classification == Infinity <==> ev == top && mv == 0)
      && (d.classification == NaN <==> ev == top && mv > 0)
      && (d.classification == Normal <==> 0 < ev < top)
  {
    AllZerosAllOnesValue(f.exponent);
    AllZerosAllOnesValue(f.mantissa);
    assert Pow2(p.exponentBits) >= 2 by {
      assert Pow2(p.exponentBits) == 2 * Pow2(p.exponentBits - 1);
    }
  }

  /** With a one-bit sign field, "other than 0" means the sign bit is 1. */
  lemma {:induction false} SignOfPattern(f: Fields, p: FormatParams)
    requires WellFormed(f, p)
    ensures var d := DecodeFields(f, p);
      && (d.classification != NaN ==> d.description.negative == (f.sign == "1"))
      && (d.value.Finite? || d.value.Infinite? ==> d.value.negative == (f.sign == "1"))
  {
    assert f.sign == [f.sign[0]];
  }

  /** The number shown for a finite value: its magnitude times the
      multiplier +1 or -1. */
  function SignedValue(v: Value): real
    requires v.Finite?
  {
    (if v.negative then -1.0 else 1.0) * MagnitudeValue(v.magnitude)
  }

  /** The number shown is 0 exactly for a zero pattern (of either sign);
      otherwise its sign is the sign bit. */
  lemma {:induction false} SignedValueSign(f: Fields, p: FormatParams)
    requires WellFormed(f, p) && Consistent(p, 1 + p.exponentBits + p.mantissaBits)
    requires DecodeFields(f, p).value.Finite?
    ensures var d := DecodeFields(f, p);
      var v := SignedValue(d.value);
      && (v == 0.0 <==> d.classification == Zero)
      && (v < 0.0 <==> f.sign == "1" && d.classification != Zero)
      && (v > 0.0 <==> f.sign == "0" && d.classification != Zero)
  {
    var d := DecodeFields(f, p);
    SignOfPattern(f, p);
    assert f.sign == "0" || f.sign == "1" by { assert f.sign == [f.sign[0]]; }
    var g := MagnitudeValue(d.value.magnitude);
    if d.classification == Subnormal {
      SubnormalAgreement(f, p);
    } else if d.classification == Normal {
      NormalValue(f, p);
    }
    assert d.classification == Zero ==> g == 0.0;
    assert d.classification != Zero ==> g > 0.0;
    RealSign(d.value.negative, g);
  }

  lemma {:induction false} RealSign(negative: bool, g: real)
    requires g >= 0.0
    ensures var v := (if negative then -1.0 else 1.0) * g;
      && (v == 0.0 <==> g == 0.0)
      && (v < 0.0 <==> negative && g > 0.0)
      && (v > 0.0 <==> !negative && g > 0.0)
  {
  }

  /** The normal magnitude is the integer significand `1m` (the mantissa
      behind a leading one) times 2^(exponent - mantissaBits). */
  lemma {:induction false} NormalMagnitudeDyadic(mantissa: nat, mantissaBits: nat, exponent: int)
    ensures MagnitudeValue(Normalised(mantissa, mantissaBits, exponent))
         == Dyadic(Pow2(mantissaBits) + mantissa, exponent - mantissaBits)
  {
    NormalMagnitudeSplit(mantissa, mantissaBits, exponent);
    LeadingPower(mantissa, mantissaBits, exponent);
  }

  /** `(1 + m × 2^-mb) × 2^x == 2^x + m × 2^(x - mb)` */
  lemma {:induction false} NormalMagnitudeSplit(mantissa: nat, mantissaBits: nat, exponent: int)
    ensures MagnitudeValue(Normalised(mantissa, mantissaBits, exponent))
         == Pow2R(exponent) + Dyadic(mantissa, exponent - mantissaBits)
  {
    var frac, scale := Dyadic(mantissa, -(mantissaBits as int)), Pow2R(exponent);
    var a := exponent - mantissaBits;
    assert MagnitudeValue(Normalised(mantissa, mantissaBits, exponent)) == (1.0 + frac) * scale;
    assert frac * scale == Dyadic(mantissa, a) by {
      DyadicScale(mantissa, -(mantissaBits as int), exponent);
      assert -(mantissaBits as int) + exponent == a;
    }
    UnitPlus(frac, scale);
  }

  lemma {:induction false} UnitPlus(x: real, w: real)
    ensures (1.0 + x) * w == w + x * w
  {
  }

  /** `2^x + m × 2^(x - mb) == (2^mb + m) × 2^(x - mb)` */
  lemma {:induction false} LeadingPower(mantissa: nat, mantissaBits: nat, exponent: int)
    ensures Pow2R(exponent) + Dyadic(mantissa, exponent - mantissaBits)
         == Dyadic(Pow2(mantissaBits) + mantissa, exponent - mantissaBits)
  {
    var a := exponent - mantissaBits;
    DyadicPow2(mantissaBits, a);
    assert a + mantissaBits == exponent;
    DyadicAdd(Pow2(mantissaBits), mantissa, a);
  }

  lemma {:induction false} LeadingOne(m: string, k: int)
    requires IsBits(m) && 0 <= k < |m| && m[k] == '1'
    requires forall i :: 0 <= i < k ==> m[i] == '0'
    ensures IsBits(m[k + 1..])
    ensures BinVal(m) == Pow2(|m| - k - 1) + BinVal(m[k + 1..])
  {
    var zeros, rest := m[..k], m[k + 1..];
    var lead := zeros + "1";
    assert m == lead + rest;
    assert IsBits(rest) by { assert forall i :: 0 <= i < |rest| ==> rest[i] == m[k + 1 + i]; }
    assert IsBits(lead) && BinVal(lead) == 1 by {
      ZeroBitsValue(zeros);
      assert IsBits("1") && BinVal("1") == 1 by { assert "1"[..0] == []; }
      BinValAppend(zeros, "1");
    }
    assert BinVal(m) == Pow2(|rest|) + BinVal(rest) by {
      BinValAppend(lead, rest);
    }
  }

  /** The normalised text of a subnormal, `(1.f)_2 × 2^(-bias-k)` with `f`
      the bits after the leading one at position `k`, denotes the mantissa's
      unsigned value times 2^minExponent. */
  lemma {:induction false} NormalisedSubnormal(m: string, k: int, bias: int, minExponent: int)
    requires IsBits(m) && 0 <= k < |m| && m[k] == '1'
    requires forall i :: 0 <= i < k ==> m[i] == '0'
    requires minExponent == 1 - bias - |m|
    ensures IsBits(m[k + 1..])
    ensures FormValue(ExactForm(m[k + 1..], -bias - k)) == Dyadic(BinVal(m), minExponent)
  {
    LeadingOne(m, k);
    assert Significand(m[k + 1..]) == BinVal(m);
    assert -bias - k - |m[k + 1..]| == minExponent;
  }

  /** The text of a subnormal pattern: an all-zero exponent field and a
      mantissa whose first one is at position k print as the exact form
      with the bits after that one as fraction and exponent -bias-k. */
  lemma {:induction false} SubnormalText(f: Fields, p: FormatParams, k: int)
    requires WellFormed(f, p) && AllZeros(f.exponent)
    requires 0 <= k < |f.mantissa| && f.mantissa[k] == '1'
    requires forall i :: 0 <= i < k ==> f.mantissa[i] == '0'
    ensures var d, m := DecodeFields(f, p), f.mantissa;
      && d.classification == Subnormal
      && d.description == Signed(f.sign == "1", Exact(FormatExactValue(m[k + 1..], -p.bias - k)))
  {
    var m := f.mantissa;
    var form := FormatExactValue(m[k + 1..], -p.bias - k);
    assert SubnormalForm(m, p.bias) == form by {
      IndexOfFirst(m, '1', k);
    }
    assert Classify(f.exponent, m) == Subnormal by {
      assert !AllZeros(m);
    }
    var d := DecodeFields(f, p);
    assert d.description.body == Exact(SubnormalForm(m, p.bias)) by {
      SubnormalShape(f, p);
    }
    assert d.description.negative == (f.sign == "1") by {
      SignOfPattern(f, p);
    }
  }

  /** The value of a subnormal pattern: its magnitude int(m) × 2^minExponent
      is what its exact text denotes, and lies strictly between 0 and the
      least normal magnitude 2^(1-bias). */
  lemma {:induction false} SubnormalAgreement(f: Fields, p: FormatParams)
    requires WellFormed(f, p) && p.mantissaBits >= 1
    requires p.minExponent == 1 - p.bias - p.mantissaBits
    requires DecodeFields(f, p).classification == Subnormal
    ensures var d := DecodeFields(f, p);
      && d.description.body.Exact? && IsBits(d.description.body.form.fraction)
      && d.value.magnitude == Scaled(BinVal(f.mantissa), p.minExponent)
      && MagnitudeValue(d.value.magnitude) == FormValue(d.description.body.form)
      && 0.0 < MagnitudeValue(d.value.magnitude) < Pow2R(1 - p.bias)
  {
    var d, m := DecodeFields(f, p), f.mantissa;
    var k := IndexOf(m, '1');
    var form, g := FormatExactValue(m[k + 1..], -p.bias - k), Scaled(BinVal(m), p.minExponent);
    assert d.description.body.form == form && d.value.magnitude == g && !AllZeros(m) by {
      SubnormalShape(f, p);
    }
    assert IsBits(form.fraction) && FormValue(form) == MagnitudeValue(g)
        && 0.0 < MagnitudeValue(g) < Pow2R(1 - p.bias) by {
      FirstOne(m);
      SubnormalMantissa(m, k, p);
    }
  }

  /** The value facts of a subnormal pattern, stated on its mantissa and
      the position k of its first one. */
  lemma {:induction false} SubnormalMantissa(m: string, k: int, p: FormatParams)
    requires IsBits(m) && |m| == p.mantissaBits && 0 <= k < |m| && m[k] == '1'
    requires forall i :: 0 <= i < k ==> m[i] == '0'
    requires p.minExponent == 1 - p.bias - p.mantissaBits
    ensures IsBits(FormatExactValue(m[k + 1..], -p.bias - k).fraction)
    ensures FormValue(FormatExactValue(m[k + 1..], -p.bias - k)) == MagnitudeValue(Scaled(BinVal(m), p.minExponent))
    ensures 0.0 < MagnitudeValue(Scaled(BinVal(m), p.minExponent)) < Pow2R(1 - p.bias)
  {
    LeadingOne(m, k);
    NormalisedSubnormal(m, k, p.bias, p.minExponent);
    FormatKeepsValue(m[k + 1..], -p.bias - k);
    assert p.minExponent + p.mantissaBits == 1 - p.bias;
    DyadicBelowPow2(BinVal(m), p.mantissaBits, p.minExponent);
  }

  /** The subnormal branch of the decoder, spelled out. */
  lemma {:induction false} SubnormalShape(f: Fields, p: FormatParams)
    requires IsBits(f.exponent) && IsBits(f.mantissa)
    requires Classify(f.exponent, f.mantissa) == Subnormal
    ensures AllZeros(f.exponent) && !AllZeros(f.mantissa)
    ensures var d := DecodeFields(f, p);
      && d.description.body == Exact(SubnormalForm(f.mantissa, p.bias))
      && d.value.magnitude == Scaled(BinVal(f.mantissa), p.minExponent)
  {
  }

  /** 0 < s < 2^n places s × 2^e strictly between 0 and 2^(e+n). */
  lemma {:induction false} DyadicBelowPow2(s: int, n: nat, e: int)
    requires 0 < s < Pow2(n)
    ensures 0.0 < Dyadic(s, e) < Pow2R(e + n)
  {
    DyadicMonotone(s, Pow2(n), e);
    DyadicPow2(n, e);
  }

  /** A mantissa that is not all zeros has a first one, with only zeros
      before it, and a positive value. */
  lemma {:induction false} FirstOne(m: string)
    requires IsBits(m) && |m| > 0 && !AllZeros(m)
    ensures var k := IndexOf(m, '1');
      && 0 <= k < |m| && m[k] == '1' && (forall i :: 0 <= i < k ==> m[i] == '0')
      && BinVal(m) > 0
  {
    var k := IndexOf(m, '1');
    ValueZeroIffZeroBits(m);
    assert '1' in m;
    forall i | 0 <= i < k ensures m[i] == '0' {
      assert m[..k][i] == m[i];
    }
  }

  /** A normal pattern: the unbiased exponent lies in [1 - bias, bias]; the
      magnitude `(1 + int(m) × 2^-mantissaBits) × 2^exponent` is what the
      exact text denotes, and it lies in [2^exponent, 2^(exponent+1)), so it
      is positive. */
  lemma {:induction false} NormalValue(f: Fields, p: FormatParams)
    requires WellFormed(f, p) && p.exponentBits >= 1 && p.mantissaBits >= 1
    requires p.bias == Pow2(p.exponentBits - 1) - 1
    requires DecodeFields(f, p).classification == Normal
    ensures var d, x := DecodeFields(f, p), BinVal(f.exponent) - p.bias;
      && 1 - p.bias <= x <= p.bias
      && d.description.body.Exact?
      && d.description.body.form.exponent == x
      && IsBits(d.description.body.form.fraction)
      && d.value.magnitude == Normalised(BinVal(f.mantissa), p.mantissaBits, x)
      && FormValue(d.description.body.form) == MagnitudeValue(d.value.magnitude)
      && Pow2R(x) <= MagnitudeValue(d.value.magnitude) < Pow2R(x + 1)
      && MagnitudeValue(d.value.magnitude) > 0.0
  {
    var d, x := DecodeFields(f, p), BinVal(f.exponent) - p.bias;
    NormalExponentRange(f, p);
    var form, g := FormatExactValue(f.mantissa, x), Normalised(BinVal(f.mantissa), p.mantissaBits, x);
    assert d.description.body == Exact(form) && d.value.magnitude == g by {
      NormalShape(f, p);
    }
    NormalMantissa(f.mantissa, p.mantissaBits, x);
  }

  /** The unbiased exponent of a normal pattern lies in [1 - bias, bias]. */
  lemma {:induction false} NormalExponentRange(f: Fields, p: FormatParams)
    requires WellFormed(f, p) && p.exponentBits >= 1 && p.mantissaBits >= 1
    requires p.bias == Pow2(p.exponentBits - 1) - 1
    requires Classify(f.exponent, f.mantissa) == Normal
    ensures 1 - p.bias <= BinVal(f.exponent) - p.bias <= p.bias
  {
    ClassByFieldValues(f, p);
    assert Pow2(p.exponentBits) == 2 * Pow2(p.exponentBits - 1);
  }

  /** The value facts of a normal pattern, stated on its mantissa and its
      unbiased exponent. */
  lemma {:induction false} NormalMantissa(m: string, mantissaBits: nat, x: int)
    requires IsBits(m) && |m| == mantissaBits
    ensures var form, g := FormatExactValue(m, x), Normalised(BinVal(m), mantissaBits, x);
      && IsBits(form.fraction)
      && FormValue(form) == MagnitudeValue(g)
      && Pow2R(x) <= MagnitudeValue(g) < Pow2R(x + 1)
      && MagnitudeValue(g) > 0.0
  {
    var form := FormatExactValue(m, x);
    assert IsBits(form.fraction) && FormValue(form) == Dyadic(Pow2(mantissaBits) + BinVal(m), x - mantissaBits) by {
      FormatKeepsValue(m, x);
      assert FormValue(ExactForm(m, x)) == Dyadic(Significand(m), x - |m|);
    }
    NormalMagnitudeDyadic(BinVal(m), mantissaBits, x);
    NormalisedBounds(BinVal(m), mantissaBits, x);
    Pow2RPositive(x);
  }

  /** The normal branch of the decoder, spelled out. */
  lemma {:induction false} NormalShape(f: Fields, p: FormatParams)
    requires IsBits(f.exponent) && IsBits(f.mantissa)
    requires Classify(f.exponent, f.mantissa) == Normal
    ensures var d, x := DecodeFields(f, p), BinVal(f.exponent) - p.bias;
      && d.description.body == Exact(FormatExactValue(f.mantissa, x))
      && d.value.magnitude == Normalised(BinVal(f.mantissa), p.mantissaBits, x)
  {
    var x, negative := BinVal(f.exponent) - p.bias, f.sign != "0";
    assert DecodeFields(f, p)
        == Decoded(f, Normal, Signed(negative, Exact(FormatExactValue(f.mantissa, x))),
                   Finite(negative, Normalised(BinVal(f.mantissa), p.mantissaBits, x)));
  }

  /** A mantissa below 2^mantissaBits places the normal magnitude in
      [2^x, 2^(x+1)). */
  lemma {:induction false} NormalisedBounds(mantissa: nat, mantissaBits: nat, x: int)
    requires mantissa < Pow2(mantissaBits)
    ensures Pow2R(x) <= MagnitudeValue(Normalised(mantissa, mantissaBits, x)) < Pow2R(x + 1)
  {
    var s, a := Pow2(mantissaBits) + mantissa, x - mantissaBits;
    NormalMagnitudeDyadic(mantissa, mantissaBits, x);
    assert Pow2(mantissaBits + 1) == 2 * Pow2(mantissaBits);
    DyadicMonotone(Pow2(mantissaBits), s, a);
    DyadicMonotone(s, Pow2(mantissaBits + 1), a);
    DyadicPow2(mantissaBits, a);
    DyadicPow2(mantissaBits + 1, a);
    assert a + mantissaBits == x && a + (mantissaBits + 1) == x + 1;
  }

  /** Flipping the sign bit keeps the class, the body of the description and
      the magnitude, and flips the sign of the description and of the
      value. */
  lemma {:induction false} SignSymmetry(e: string, m: string, p: FormatParams)
    requires IsBits(e) && IsBits(m)
    ensures var plus, minus := DecodeFields(Fields("0", e, m), p), DecodeFields(Fields("1", e, m), p);
      && plus.classification == minus.classification
      && (plus.classification != NaN ==>
          && plus.description == Signed(false, plus.description.body)
          && minus.description == Signed(true, plus.description.body))
      && (plus.value.Finite? ==> minus.value == Finite(true, plus.value.magnitude) && !plus.value.negative)
      && (plus.value.Infinite? ==> minus.value == Infinite(true) && plus.value == Infinite(false))
  {
    match Classify(e, m)
    case Zero =>
    case Subnormal =>
    case Infinity =>
    case NaN =>
    case Normal =>
  }

  /** The least positive subnormal: exponent field all zeros and mantissa
      0...01. Its text is (1.0)_2 × 2^minExponent and its value
      1 × 2^minExponent. */
  lemma {:induction false} LeastSubnormal(sign: string, e: string, z: string, p: FormatParams)
    requires AllZeros(e) && forall i :: 0 <= i < |z| ==> z[i] == '0'
    requires p.minExponent == 1 - p.bias - (|z| + 1)
    ensures IsBits(z + "1")
    ensures var d := DecodeFields(Fields(sign, e, z + "1"), p);
      && d.classification == Subnormal
      && d.description == Signed(sign != "0", Exact(ExactForm("0", p.minExponent)))
      && d.value == Finite(sign != "0", Scaled(1, p.minExponent))
      && MagnitudeValue(d.value.magnitude) == Pow2R(p.minExponent)
  {
    var m := z + "1";
    LeastSubnormalMantissa(z, p.bias, p.minExponent);
    assert IsBits(e) by { assert forall i :: 0 <= i < |e| ==> e[i] == '0'; }
    var negative := sign != "0";
    assert DecodeFields(Fields(sign, e, m), p)
        == Decoded(Fields(sign, e, m), Subnormal, Signed(negative, Exact(ExactForm("0", p.minExponent))),
                   Finite(negative, Scaled(1, p.minExponent)));
    DyadicOne(p.minExponent);
  }

  /** The mantissa 0...01: value 1, its only one at the last position, and
      an empty fraction after it. */
  lemma {:induction false} LeastSubnormalMantissa(z: string, bias: int, minExponent: int)
    requires forall i :: 0 <= i < |z| ==> z[i] == '0'
    requires minExponent == 1 - bias - (|z| + 1)
    ensures IsBits(z + "1") && !AllZeros(z + "1") && BinVal(z + "1") == 1
    ensures SubnormalForm(z + "1", bias) == ExactForm("0", minExponent)
  {
    var m := z + "1";
    assert BinVal(m) == 1 by {
      ZeroBitsValue(z);
      BinValAppend(z, "1");
    }
    assert m[|z|] == '1' && forall i :: 0 <= i < |z| ==> m[i] == z[i];
    assert IndexOf(m, '1') == |z|;
    assert m[|z| + 1..] == [];
    assert StripTrailingZeros([]) == [];
  }

  /** The pattern of 1.0: exponent field 01...1 (the bias itself) and
      mantissa all zeros. Its text is (1.0)_2 × 2^0 and its value 1. */
  lemma {:induction false} OneEncoding(sign: string, ones: string, m: string, p: FormatParams)
    requires AllOnes(ones) && AllZeros(m)
    requires p.bias == Pow2(|ones|) - 1 && p.mantissaBits == |m|
    ensures IsBits("0" + ones)
    ensures var d := DecodeFields(Fields(sign, "0" + ones, m), p);
      && d.classification == Normal
      && d.description == Signed(sign != "0", Exact(ExactForm("0", 0)))
      && d.value == Finite(sign != "0", Normalised(0, |m|, 0))
      && MagnitudeValue(d.value.magnitude) == 1.0
  {
    var e := "0" + ones;
    assert IsBits(ones) by { assert forall i :: 0 <= i < |ones| ==> ones[i] == '1'; }
    assert IsBits(m) by { assert forall i :: 0 <= i < |m| ==> m[i] == '0'; }
    ConcatBits("0", ones);
    assert !AllZeros(e) by { assert e[1] == ones[0]; }
    assert !AllOnes(e) by { assert e[0] == '0'; }
    assert BinVal(e) == p.bias by {
      AllZerosAllOnesValue(ones);
      BinValAppend("0", ones);
      assert BinVal("0") == 0;
    }
    assert BinVal(m) == 0 by { AllZerosAllOnesValue(m); }
    assert StripTrailingZeros(m) == [] by { StripAllZeros(m); }
    assert Dyadic(0, -(|m| as int)) == 0.0;
  }

  /** The least binary32 subnormal, the pattern 00000001 and its negative
      80000001: exponent field of 8 zeros and mantissa of 22 zeros and a
      one. Its text is (1.0)_2 × 2^-149 and its value 2^-149. */
  lemma {:induction false} LeastSubnormalBinary32(sign: string, e: string, z: string)
    requires |e| == 8 && AllZeros(e)
    requires |z| == 22 && forall i :: 0 <= i < |z| ==> z[i] == '0'
    ensures IsBits(z + "1")
    ensures var d := DecodeFields(Fields(sign, e, z + "1"), BINARY32);
      && d.classification == Subnormal
      && d.description == Signed(sign != "0", Exact(ExactForm("0", -149)))
      && MagnitudeValue(d.value.magnitude) == Pow2R(-149)
  {
    LeastSubnormal(sign, e, z, BINARY32);
  }

  /** The binary32 pattern BF800000: sign bit 1, exponent field 01111111
      and mantissa 23 zeros. Its text is -(1.0)_2 × 2^0 and the number shown
      is -1. */
  lemma {:induction false} MinusOneBinary32(ones: string, m: string)
    requires |ones| == 7 && AllOnes(ones)
    requires |m| == 23 && AllZeros(m)
    ensures IsBits("0" + ones)
    ensures var d := DecodeFields(Fields("1", "0" + ones, m), BINARY32);
      && d.classification == Normal
      && d.description == Signed(true, Exact(ExactForm("0", 0)))
      && d.value.Finite? && SignedValue(d.value) == -1.0
  {
    assert Pow2(7) == 128;
    OneEncoding("1", ones, m, BINARY32);
  }

  /** An all-zeros fraction strips to nothing. */
  lemma {:induction false} StripAllZeros(s: string)
    requires forall i :: 0 <= i < |s| ==> s[i] == '0'
    ensures StripTrailingZeros(s) == []
    decreases |s|
  {
    if s != [] {
      StripAllZeros(s[..|s| - 1]);
    }
  }
}
