# IEEE-754 hexadecimal decoder and encoder page — a Dafny model

`ieee754.js` runs a page with two parts. The decoder takes a binary32 or
binary64 bit pattern, typed as 8 or 16 hexadecimal digits. It expands the
digits into a bit string through a nibble table and slices out the sign,
exponent and mantissa fields. It classifies the pattern as zero, subnormal,
infinity, NaN or normal, and prints two things: a description (the label
"NaN", or a '+'/'-' prefix followed by "Zero", the infinity sign or the exact
form `(1.f)_2 × 2^e`) and the number the pattern stands for. The encoder lets
the platform narrow a decimal number to 32 and 64 bits and renders the
resulting bytes as lower-case hexadecimal. It reverses the bytes first on a
little-endian platform. Two gates guard the inputs: a keypress filter and
length check on the hexadecimal field, and a regular expression on the
decimal field.

The model has these modules:

- `Bits` defines bit strings, their big-endian value (`parseInt(s, 2)`), the
  all-zeros and all-ones tests, `indexOf`, and exact powers of two over
  `real`.
- `Hex` holds the nibble table and the expansion loop (`ExpandHex`).
- `Format` derives the format parameters from the input length.
- `ExactValue` models `formatExactValue` and the rational its text denotes.
- `Decoder` covers field slicing, classification, the description and the
  value.
- `ByteHex` models `byteArrayToHex`, with the host byte order as a parameter.
- `Gates` models the keypress filter, the keyup length check and the
  decimal regular expression.
- `Results` holds `Option` and `Result`.

Values are exact rationals rather than doubles. For binary32 and binary64
patterns, every value the decoder computes is a dyadic rational that a
double represents exactly, so the model loses nothing there (see "Left out"
for the printing).

## Model

| member | source | states |
|---|---|---|
| Hex.TranslateRows | ieee754.js:14-17 | row i of the nibble table is a 4-character bit string whose big-endian value is i, for each of its 16 rows |
| Hex.Nibble | ieee754.js:37 | for a character of the alphabet, one loop step appends the table row at its `indexOf` position, which is its 4-bit binary; for any other character it appends the text "undefined" |
| Hex.ExpandHex | ieee754.js:35-38 | the loop builds exactly the concatenation of the rows of the characters, left to right; the invariant is the expansion of the prefix read so far |
| Hex.HexBits | ieee754.js:35-38 | the string the loop holds after reading `h`; for an input of alphabet characters it is a bit string of 4 bits per character (its digit-by-digit content is `Hex.HexBitsNibble`) |
| Hex.DigitValue | ieee754.js:37 | the `indexOf` position of a character in "0123456789ABCDEF": for an alphabet character a position below 16 that holds it, otherwise -1 |
| Hex.HexBitsNibble | ieee754.js:36-38 | bits [4i, 4i+4) of the expansion are the table row of digit i, and read as the value of that digit |
| Hex.HexBitsValue | ieee754.js:36-38 | the expanded bit string, read in binary, equals the hexadecimal input read in base 16 |
| Format.ParamsFor | ieee754.js:41-44 | 8 digits give binary32 (8, 23, 127, -149) and 16 digits give binary64 (11, 52, 1023, -1074); the widths always fill 4 bits per digit; the IEEE 754 relations between bias, widths and least exponent hold |
| Format.NamedFormatsConsistent | ieee754.js:41-44 | binary32 and binary64 satisfy the IEEE 754 relations for 32 and 64 bits |
| Decoder.SplitFields | ieee754.js:47-49 | sign, exponent and mantissa concatenate back to the bit string, with widths 1, exponentBits and the rest |
| Decoder.SplitWellFormed | ieee754.js:47-49 | slicing a bit string of the format's width yields fields of the prescribed widths, made of bits |
| Decoder.DecodeFields | ieee754.js:51-81 | the class is selected by the all-zeros/all-ones tests; the description is the bare "NaN" label exactly for NaN, else it carries the sign; each class gets its own body (Zero word, infinity mark, exact form) and value kind (zero, infinity, NaN, scaled, normalised) |
| Decoder.Classify | ieee754.js:55-81 | the three regular-expression tests in the source's order; `Decoder.ClassByFieldValues` proves each outcome equivalent to its IEEE 754 condition on the field values |
| Decoder.SubnormalForm | ieee754.js:60-61 | the exact form of a subnormal, cut after the first one of the mantissa; `Decoder.SubnormalText` states it for the first one fixed by leading zeros, and `Decoder.SubnormalAgreement` proves it denotes the subnormal's value |
| Decoder.MagnitudeValue | ieee754.js:51-80 | the rationals the source assigns to `value` (0, `parseInt(m, 2) × 2^minExponent`, `(1 + mantissa × 2^-mantissaBits) × 2^exponent`); their agreement with the exact text and their bounds are `Decoder.SubnormalAgreement` and `Decoder.NormalValue` |
| Decoder.SignedValue | ieee754.js:88 | `value × multiplier` for a finite value; `Decoder.SignedValueSign` proves it is 0 exactly for a zero pattern and otherwise carries the sign bit |
| Decoder.Decode | ieee754.js:32-81 | fails exactly when a character is outside the nibble alphabet, with InvalidHexDigit; on success the fields are well formed for the format of that length, are the slices of the expansion, and the result is the classification of those fields (`DecodeFields`) |
| Decoder.DecodeAndUpdate | ieee754.js:32-81 | the imperative decoder (expansion loop, then parameters, fields and branches) returns what `Decode` specifies |
| Decoder.ClassByFieldValues | ieee754.js:55-81 | each class is exactly its IEEE 754 condition on the unsigned field values: zero (0, 0), subnormal (0, >0), infinity (max, 0), NaN (max, >0), normal (strictly between) |
| Decoder.SignOfPattern | ieee754.js:52-53 | for a one-bit sign field, the '-' prefix and the factor -1 are chosen exactly when the sign bit is 1 |
| Decoder.SignSymmetry | ieee754.js:52-53 | flipping the sign bit keeps the class, description body and magnitude, and flips only the sign of description and value |
| Decoder.SignedValueSign | ieee754.js:53 | the printed number, value × multiplier, is 0 exactly for a zero pattern; it is negative exactly when the sign bit is 1 and the pattern is not zero, and positive exactly when the sign bit is 0 and the pattern is not zero |
| Decoder.FirstOne | ieee754.js:60 | a mantissa that is not all zeros has its first one at `indexOf("1")`, with only zeros before it and a positive value |
| Decoder.SubnormalText | ieee754.js:55-61 | an all-zero exponent field and a mantissa whose first one is at position k (only zeros before it) classify as subnormal, and the description is the sign bit's prefix followed by the exact form of the bits after that one, with exponent -bias-k |
| Decoder.SubnormalAgreement | ieee754.js:60-62 | a subnormal's value `parseInt(m, 2) × 2^minExponent` equals the rational its exact text denotes, and lies strictly between 0 and the least normal magnitude 2^(1-bias) |
| Decoder.LeastSubnormal | ieee754.js:55-62 | exponent zeros and mantissa 0…01 decode as a subnormal with text (1.0)_2 × 2^minExponent and value exactly 2^minExponent |
| Decoder.NormalExponentRange | ieee754.js:77 | the unbiased exponent of a normal pattern lies in [1-bias, bias] |
| Decoder.NormalValue | ieee754.js:76-80 | a normal's value `(1 + m × 2^-mantissaBits) × 2^exponent` equals the rational its exact text denotes, lies in [2^exponent, 2^(exponent+1)), and is positive |
| Decoder.NormalMagnitudeDyadic | ieee754.js:80 | the normal magnitude is the integer significand 1m times 2^(exponent - mantissaBits) |
| Decoder.OneEncoding | ieee754.js:75-80 | exponent field 01…1 with an all-zero mantissa decodes as normal, with text (1.0)_2 × 2^0 and value exactly 1 |
| Decoder.LeastSubnormalBinary32 | ieee754.js:55-62 | binary32 patterns 00000001 and 80000001 (exponent field 8 zeros, mantissa 22 zeros and a one) are subnormal, print (1.0)_2 × 2^-149 with the sign bit's prefix, and have magnitude 2^-149 |
| Decoder.MinusOneBinary32 | ieee754.js:75-80 | binary32 pattern BF800000 (sign 1, exponent field 01111111, mantissa 23 zeros) is normal, prints -(1.0)_2 × 2^0, and the number shown is -1 |
| ExactValue.FormatExactValue | ieee754.js:23-25 | the exponent is printed unchanged; the fraction is "0" exactly when the input is all zeros; otherwise it is the input with its trailing zeros removed, non-empty and not ending in '0' |
| ExactValue.StripTrailingZeros | ieee754.js:24 | `replace(/0+$/, "")`: a prefix of the input, with only zeros cut away, and ending in a character other than '0' when not empty |
| ExactValue.FormatExactValueIdempotent | ieee754.js:23-25 | formatting an already formatted fraction changes nothing |
| ExactValue.FormatKeepsValue | ieee754.js:23-25 | removing trailing zeros (or printing "0") denotes the same rational (1.f)_2 × 2^e as the unstripped fraction |
| Bits.IndexOf | ieee754.js:60 | -1 exactly when the character is absent; otherwise the position of its first occurrence |
| Bits.IndexOfFirst | ieee754.js:60 | a position holding the character with no occurrence before it is exactly what `indexOf` returns |
| Bits.AllZerosAllOnesValue | ieee754.js:11-12 | the `^0+$` and `^1+$` tests on a non-empty bit string hold exactly when its value is 0 or 2^n - 1 |
| Bits.AllZeros | ieee754.js:11 | the test `/^0+$/`: a non-empty run of '0'; `Bits.AllZerosAllOnesValue` proves it holds on a bit string exactly when its value is 0 |
| Bits.AllOnes | ieee754.js:12 | the test `/^1+$/`: a non-empty run of '1'; `Bits.AllZerosAllOnesValue` proves it holds on a bit string exactly when its value is 2^n - 1 |
| Bits.BinVal | ieee754.js:62 | the value of an n-bit string is below 2^n |
| ByteHex.PadByte | ieee754.js:96-98 | the base-16 numeral of a byte, zero-padded to two characters, is its high digit followed by its low digit |
| ByteHex.ToString16 | ieee754.js:97 | `byte.toString(16)`: a numeral of at least one lower-case digit; `ByteHex.PadByte` proves that for a byte the padded numeral is its high and low digit |
| ByteHex.JoinHex | ieee754.js:96-99 | the joined text has two lower-case hexadecimal characters per byte |
| ByteHex.Reverse | ieee754.js:94 | the order `unshift` builds: element i of the result is element n-1-i of the input |
| ByteHex.ByteArrayToHex | ieee754.js:91-100 | the unshift/push loop collects the bytes reversed on a little-endian platform and in order otherwise, and the result is their joined numerals, 2 characters per byte |
| ByteHex.ParseJoinHex | ieee754.js:96-99 | reading the joined text back two digits at a time gives back the bytes: rendering loses nothing |
| ByteHex.RenderedByteOrder | ieee754.js:93-99 | digit pair i of the output spells byte i of the input, or byte n-1-i on a little-endian platform |
| ByteHex.ByteArrayToHexReadBack | ieee754.js:91-99 | the rendered text reads back as the collected bytes, and undoing the little-endian reversal gives the bytes in memory order |
| Gates.KeyAllowedTranslates | ieee754.js:113-118 | a key passes the `[\dA-Fa-f]` filter exactly when its upper-case form is in the nibble alphabet |
| Gates.KeyAllowed | ieee754.js:115 | the class `[\dA-Fa-f]` the keypress filter tests; `Gates.KeyAllowedTranslates` proves it admits exactly the characters whose upper case is in the nibble alphabet |
| Gates.ToUpperCase | ieee754.js:122 | upper-casing keeps the length and maps each character independently |
| Gates.KeyUpDecode | ieee754.js:121-129 | the fields are erased (InvalidHexLength) exactly when the length is neither 8 nor 16; otherwise the result is the decoding of the upper-cased text |
| Gates.FilteredKeysDecode | ieee754.js:113-129 | text made only of keys the filter admits, of length 8 or 16, always decodes successfully |
| Gates.DecimalGate | ieee754.js:134 | the regular expression `^\d+(\.\d*([Ee][+-]?\d+)?)?$` as a left-to-right scan; `Gates.DecimalGateSound` and `Gates.DecimalGateComplete` prove it accepts exactly the texts of that grammar |
| Gates.FractionTail | ieee754.js:134 | the part `\d*([Ee][+-]?\d+)?$` after the point; `Gates.FractionSound` and `Gates.FractionComplete` prove it matches that grammar |
| Gates.ExponentTail | ieee754.js:134 | the part `[+-]?\d+$` after the exponent marker; `Gates.ExponentSound` and `Gates.ExponentComplete` prove it matches that grammar |
| Gates.FractionSound | ieee754.js:134 | every fraction text of the grammar's shape passes the fraction part of the scan |
| Gates.FractionComplete | ieee754.js:134 | every text the fraction part of the scan accepts has the grammar's shape |
| Gates.ExponentSound | ieee754.js:134 | every exponent text of the grammar's shape passes the exponent part of the scan |
| Gates.ExponentComplete | ieee754.js:134 | every text the exponent part of the scan accepts has the grammar's shape |
| Gates.DecimalGateSound | ieee754.js:134 | every text of the shape digits ( '.' digits* ( [Ee] [+-]? digits )? )? passes the gate |
| Gates.DecimalGateComplete | ieee754.js:134 | every text that passes the gate has that shape, so the gate and the grammar agree |
| Gates.DecimalGateAcceptsPlain | ieee754.js:134 | "1" and "1." pass |
| Gates.DecimalGateAcceptsExponent | ieee754.js:134 | "1.5e-3" and "1.e5" pass |
| Gates.DecimalGateRejects | ieee754.js:134 | "-1", "" and "1e5" are refused |
| Gates.SignedInputRejected | ieee754.js:134 | no text starting with '+' or '-' passes, so negative numbers cannot be encoded |

## Left out

- Page wiring (lines 6, 84-88, 107-109, 113-140): jQuery, the DOM, the event
  handlers and the HTML markup are not modelled. The model returns the
  values the handlers would write into the page: the three fields, the
  description and the value. An erased decoder is the result
  `Failure(InvalidHexLength)`.
- `encodeAndUpdate` (lines 106-110): the narrowing of the decimal text to a
  double and then to a `Float32Array`/`Float64Array` is floating-point
  conversion done by the platform. It is not modelled; its bytes are an
  input of `ByteHex.ByteArrayToHex`.
- Endianness probe (line 9): the probe reads the host's memory layout. It
  is the `littleEndian` parameter of `ByteHex.ByteArrayToHex`.
- Floating point: values are exact rationals (`Decoder.MagnitudeValue`), not
  doubles. The decimal printing of the value (line 88), `Infinity` and `NaN`
  are not modelled. Nor is the sign of a negative zero, which JavaScript
  prints as "0": reals have no negative zero, and the model keeps the sign
  bit in `Value.Finite` instead.
- Decoder.SignedValue has no contract of its own. `Decoder.SignedValueSign`
  states its sign.
- Gates.KeyUpDecode: lengths are counted in characters (Unicode scalar
  values), not in the UTF-16 code units that JavaScript's `length` and
  `charAt` count (lines 36-37, 123). A character outside the Basic
  Multilingual Plane counts once here and twice in the source. Pasted text
  with such a character can therefore be erased by the source and decoded
  here, where it is refused as `InvalidHexDigit` (for example seven zeros
  and U+1F600). It can also be decoded by the source, one "undefined" per
  surrogate, and erased here (six zeros and U+1F600). The keypress filter
  admits no such character.
- Decoder.Decode: a character outside the nibble alphabet makes the source
  append the text "undefined" (that is `Hex.Nibble`) and then slice
  whatever results. `Decode` reports such input as `InvalidHexDigit`
  instead of modelling that slicing. The keypress filter keeps such
  characters out of typed input (`Gates.FilteredKeysDecode`), but text that
  is pasted or dropped into the field skips the keypress handler and still
  reaches the keyup handler. The source then decodes a bit string that
  contains "undefined", and the model does not capture that output.
- Gates.ToUpperCase: only ASCII letters are upper-cased. JavaScript's full
  Unicode case mapping, which can change the length of a string, is not
  modelled.
- Text-only outputs: the HTML entities and the spacing of the description
  are not modelled. `Decoder.Description` keeps its structure (the sign,
  the zero word, the infinity mark, the exact form).
