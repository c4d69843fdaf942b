/** The two binary interchange formats the decoder handles (binary32 and
    binary64 of IEEE 754-2008, sections 3.4 and 3.6) and the derivation of
    their parameters from the hexadecimal string length. */
module Format {
  import opened Bits

  /** Field widths, exponent bias and the exponent of the least subnormal. */
  datatype FormatParams = FormatParams(exponentBits: int, mantissaBits: int, bias: int, minExponent: int)

  const BINARY32: FormatParams := FormatParams(8, 23, 127, -149)
  const BINARY64: FormatParams := FormatParams(11, 52, 1023, -1074)

  /** The relations IEEE 754 fixes between the parameters of a format whose
      encoding is `totalBits` wide: one sign bit, bias 2^(w-1) - 1 for an
      exponent field of width w, least subnormal exponent 1 - bias - p. */
  predicate Consistent(p: FormatParams, totalBits: int)
  {
    && p.exponentBits >= 2
    && p.mantissaBits >= 1
    && 1 + p.exponentBits + p.mantissaBits == totalBits
    && p.bias == Pow2(p.exponentBits - 1) - 1
    && p.minExponent == 1 - p.bias - p.mantissaBits
  }

  /** The parameters the decoder derives from the length of its input: 8
      exponent bits for 8 digits and 11 otherwise, the rest after the sign
      bit for the mantissa. */
  function ParamsFor(hexLength: nat): (p: FormatParams)
    ensures hexLength == 8 ==> p == BINARY32
    ensures hexLength == 16 ==> p == BINARY64
    ensures 1 + p.exponentBits + p.mantissaBits == 4 * hexLength
    ensures hexLength >= 4 ==> Consistent(p, 4 * hexLength)
  {
    var exponentBits := if hexLength == 8 then 8 else 11;
    var mantissaBits := hexLength * 4 - exponentBits - 1;
    var bias := Pow2(exponentBits - 1) - 1;
    assert Pow2(7) == 128 && Pow2(10) == 1024;
    FormatParams(exponentBits, mantissaBits, bias, 1 - bias - mantissaBits)
  }

  /** Both named formats obey the IEEE 754 relations for their widths: they
      are the parameters derived for 8 and 16 digits. */
  lemma NamedFormatsConsistent()
    ensures Consistent(BINARY32, 32)
    ensures Consistent(BINARY64, 64)
  {
    var single, double := ParamsFor(8), ParamsFor(16);
    assert single == BINARY32 && double == BINARY64;
  }
}
