/** Expansion of an upper-case hexadecimal string into the bit string the
    decoder slices: each character selects a row of a 16-entry nibble table. */
module Hex {
  import opened Bits

  /** The alphabet whose `indexOf` selects a row of the nibble table. */
  const HEX_DIGITS: string := "0123456789ABCDEF"

  /** The nibble table: row i is meant to be the 4-bit binary of i. */
  const TRANSLATE: seq<string> := [
    "0000", "0001", "0010", "0011", "0100", "0101", "0110", "0111",
    "1000", "1001", "1010", "1011", "1100", "1101", "1110", "1111"
  ]

  /** Every character of `h` has a row in the nibble table. */
  predicate IsUpperHex(h: string)
  {
    forall i :: 0 <= i < |h| ==> h[i] in HEX_DIGITS
  }

  /** The value of a digit: its position in the alphabet. */
  function DigitValue(c: char): (d: int)
    ensures c in HEX_DIGITS ==> 0 <= d < 16 && HEX_DIGITS[d] == c
    ensures c !in HEX_DIGITS ==> d == -1
  {
    IndexOf(HEX_DIGITS, c)
  }

  lemma {:induction false} BinVal4(t: string)
    requires |t| == 4 && IsBits(t)
    ensures BinVal(t) == 8 * Bit(t[0]) + 4 * Bit(t[1]) + 2 * Bit(t[2]) + Bit(t[3])
  {
    assert t[..3][..2] == t[..2] && t[..3][2] == t[2];
    assert t[..2][..1] == t[..1] && t[..2][1] == t[1];
    assert t[..1][..0] == [] && t[..1][0] == t[0];
    assert BinVal(t[..1]) == Bit(t[0]);
    assert BinVal(t[..2]) == 2 * Bit(t[0]) + Bit(t[1]);
    assert BinVal(t[..3]) == 4 * Bit(t[0]) + 2 * Bit(t[1]) + Bit(t[2]);
  }

  /** Row i of the nibble table is a 4-bit big-endian bit string whose value
      is i. */
  lemma TranslateRows()
    ensures |TRANSLATE| == 16
    ensures forall i :: 0 <= i < 16 ==>
      |TRANSLATE[i]| == 4 && IsBits(TRANSLATE[i]) && BinVal(TRANSLATE[i]) == i
  {
    forall i | 0 <= i < 16
      ensures |TRANSLATE[i]| == 4 && IsBits(TRANSLATE[i]) && BinVal(TRANSLATE[i]) == i
    {
      TranslateRow(i);
    }
  }

  lemma {:induction false} TranslateRow(i: int)
    requires 0 <= i < 16
    ensures |TRANSLATE[i]| == 4 && IsBits(TRANSLATE[i]) && BinVal(TRANSLATE[i]) == i
  {
    var t := TRANSLATE[i];
    assert t == [t[0], t[1], t[2], t[3]];
    assert t[0] == (if i >= 8 then '1' else '0');
    assert t[1] == (if i % 8 >= 4 then '1' else '0');
    assert t[2] == (if i % 4 >= 2 then '1' else '0');
    assert t[3] == (if i % 2 == 1 then '1' else '0');
    BinVal4(t);
  }

  /** What one step of the expansion loop appends for character `c`: the row
      `indexOf(c)` of the nibble table, or, for a character outside the
      alphabet, the text "undefined" that concatenating the missing row
      `translate[-1]` yields. */
  function Nibble(c: char): (t: string)
    ensures c in HEX_DIGITS ==> t == TRANSLATE[DigitValue(c)]
    ensures c in HEX_DIGITS ==> |t| == 4 && IsBits(t) && BinVal(t) == DigitValue(c)
    ensures c !in HEX_DIGITS ==> t == "undefined"
  {
    TranslateRows();
    var i := IndexOf(HEX_DIGITS, c);
    if i < 0 then "undefined" else TRANSLATE[i]
  }

  /** The bit string the expansion loop has built after reading all of `h`. */
  function HexBits(h: string): (b: string)
    ensures IsUpperHex(h) ==> |b| == 4 * |h| && IsBits(b)
  {
    if h == [] then []
    else
      var p := HexBits(h[..|h| - 1]);
      var t := Nibble(h[|h| - 1]);
      if IsUpperHex(h) then
        assert IsUpperHex(h[..|h| - 1]);
        ConcatBits(p, t);
        p + t
      else
        p + t
  }

  /** Builds the bit string of `h` by appending one nibble-table row per
      character, left to right. */
  method ExpandHex(h: string) returns (b: string)
    ensures b == HexBits(h)
  {
    b := "";
    var i, n := 0, |h|;
    while i < n
      invariant 0 <= i <= n == |h|
      invariant b == HexBits(h[..i])
    {
      assert h[..i + 1][..i] == h[..i];
      b := b + Nibble(h[i]);
      i := i + 1;
    }
    assert h[..n] == h;
  }

  /** The value of `h` read as a big-endian base-16 numeral. */
  function HexValue(h: string): nat
    requires IsUpperHex(h)
  {
    if h == [] then 0 else 16 * HexValue(h[..|h| - 1]) + DigitValue(h[|h| - 1])
  }

  /** Bits [4i, 4i+4) of the expansion are the nibble-table row of digit i:
      nibble order follows digit order. */
  lemma {:induction false} HexBitsNibble(h: string, i: int)
    requires IsUpperHex(h) && 0 <= i < |h|
    ensures |HexBits(h)| == 4 * |h|
    ensures HexBits(h)[4 * i .. 4 * i + 4] == TRANSLATE[DigitValue(h[i])]
    ensures BinVal(HexBits(h)[4 * i .. 4 * i + 4]) == DigitValue(h[i])
    decreases |h|
  {
    var p := h[..|h| - 1];
    assert IsUpperHex(p);
    var q, t := HexBits(p), Nibble(h[|h| - 1]);
    assert HexBits(h) == q + t;
    if i == |h| - 1 {
      SliceRight(q, t);
    } else {
      HexBitsNibble(p, i);
      assert p[i] == h[i];
      SliceLeft(q, t, 4 * i, 4 * i + 4);
    }
  }

  lemma {:induction false} SliceLeft(q: string, t: string, lo: int, hi: int)
    requires 0 <= lo <= hi <= |q|
    ensures (q + t)[lo..hi] == q[lo..hi]
  {
  }

  lemma {:induction false} SliceRight(q: string, t: string)
    ensures (q + t)[|q|..|q| + |t|] == t
  {
  }

  /** The bit string is the binary numeral of the hexadecimal one. */
  lemma {:induction false} HexBitsValue(h: string)
    requires IsUpperHex(h)
    ensures BinVal(HexBits(h)) == HexValue(h)
    decreases |h|
  {
    if h != [] {
      var p := h[..|h| - 1];
      assert IsUpperHex(p);
      HexBitsValue(p);
      var t := Nibble(h[|h| - 1]);
      BinValAppend(HexBits(p), t);
      assert Pow2(4) == 16;
    }
  }
}
