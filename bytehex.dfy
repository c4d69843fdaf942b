/** Rendering of the bytes of an encoded number as lower-case hexadecimal
    text, two digits per byte, in memory order or reversed when the platform
    is little-endian. */
module ByteHex {
  import opened Results

  newtype byte = x: int | 0 <= x < 256

  /** The digit `Number.prototype.toString(16)` writes for 0 <= d < 16. */
  function HexChar(d: int): (c: char)
    requires 0 <= d < 16
    ensures IsLowerHexChar(c)
  {
    if d < 10 then (('0' as int) + d) as char else (('a' as int) + d - 10) as char
  }

  predicate IsLowerHexChar(c: char)
  {
    '0' <= c <= '9' || 'a' <= c <= 'f'
  }

  /** The value of a lower-case hexadecimal digit, or -1 for any other
      character. */
  function HexCharValue(c: char): (d: int)
    ensures -1 <= d < 16
    ensures d >= 0 <==> IsLowerHexChar(c)
    ensures d >= 0 ==> HexChar(d) == c
  {
    if '0' <= c <= '9' then c as int - '0' as int
    else if 'a' <= c <= 'f' then c as int - 'a' as int + 10
    else -1
  }

  /** Every digit reads back as the value it was written for. */
  lemma {:induction false} HexCharRoundTrip(d: int)
    requires 0 <= d < 16
    ensures HexCharValue(HexChar(d)) == d
  {
  }

  /** `x.toString(16)`: the base-16 numeral of x without leading zeros. */
  function ToString16(x: nat): (r: string)
    ensures |r| >= 1
    decreases x
  {
    if x < 16 then [HexChar(x)] else ToString16(x / 16) + [HexChar(x % 16)]
  }

  /** The callback given to `map`: the numeral of a byte, padded with one '0'
      when it has a single digit. It is the two-digit big-endian numeral of
      the byte. */
  function PadByte(x: byte): (r: string)
    ensures r == [HexChar(x as int / 16), HexChar(x as int % 16)]
  {
    var hex := ToString16(x as nat);
    assert x < 16 ==> hex == [HexChar(x as int)];
    assert x >= 16 ==> hex == ToString16(x as nat / 16) + [HexChar(x as int % 16)];
    if |hex| == 1 then "0" + hex else "" + hex
  }

  /** The two-digit numerals of the bytes, in order, joined without a
      separator. */
  function JoinHex(bs: seq<byte>): (r: string)
    ensures |r| == 2 * |bs|
    ensures forall i :: 0 <= i < |r| ==> IsLowerHexChar(r[i])
  {
    if bs == [] then "" else JoinHex(bs[..|bs| - 1]) + PadByte(bs[|bs| - 1])
  }

  function Reverse(s: seq<byte>): (r: seq<byte>)
    ensures |r| == |s|
    ensures forall i :: 0 <= i < |s| ==> r[i] == s[|s| - 1 - i]
  {
    if s == [] then [] else [s[|s| - 1]] + Reverse(s[..|s| - 1])
  }

  /** Reversing twice gives back the original sequence. */
  lemma {:induction false} ReverseReverse(s: seq<byte>)
    ensures Reverse(Reverse(s)) == s
  {
  }

  /** Collects the bytes with `unshift` on a little-endian platform and with
      `push` otherwise, then maps and joins them. */
  method ByteArrayToHex(b: seq<byte>, littleEndian: bool) returns (hex: string)
    ensures hex == JoinHex(if littleEndian then Reverse(b) else b)
    ensures |hex| == 2 * |b|
  {
    var collected: seq<byte> := [];
    var i := 0;
    while i < |b|
      invariant 0 <= i <= |b|
      invariant collected == if littleEndian then Reverse(b[..i]) else b[..i]
    {
      assert b[..i + 1][..i] == b[..i] && b[..i + 1][i] == b[i];
      if littleEndian {
        collected := [b[i]] + collected;
      } else {
        collected := collected + [b[i]];
      }
      i := i + 1;
    }
    assert b[..|b|] == b;
    hex := JoinHex(collected);
  }

  /** Reads hexadecimal text back two digits at a time, most significant
      digit first; None when the length is odd or a character is not a
      lower-case digit. */
  function ParseHex(h: string): (r: Option<seq<byte>>)
    ensures r.Some? ==> 2 * |r.value| == |h|
  {
    if h == [] then Some([])
    else if |h| == 1 then None
    else
      var hi, lo := HexCharValue(h[|h| - 2]), HexCharValue(h[|h| - 1]);
      if hi < 0 || lo < 0 then None
      else
        match ParseHex(h[..|h| - 2])
        case None => None
        case Some(bs) => Some(bs + [(16 * hi + lo) as byte])
  }

  /** The text read back is the bytes that were rendered: rendering loses
      nothing. */
  lemma {:induction false} ParseJoinHex(bs: seq<byte>)
    ensures ParseHex(JoinHex(bs)) == Some(bs)
    decreases |bs|
  {
    if bs != [] {
      var front, last := bs[..|bs| - 1], bs[|bs| - 1];
      ParseJoinHex(front);
      ParseAppendByte(JoinHex(front), front, last);
      SplitLast(bs);
    }
  }

  /** Reading the two digits of a byte after text that reads as `bs` gives
      `bs` followed by that byte. */
  lemma {:induction false} ParseAppendByte(p: string, bs: seq<byte>, x: byte)
    requires ParseHex(p) == Some(bs)
    ensures ParseHex(p + PadByte(x)) == Some(bs + [x])
  {
    var hi, lo := x as int / 16, x as int % 16;
    HexCharRoundTrip(hi);
    HexCharRoundTrip(lo);
    ParseHexStep(p, HexChar(hi), HexChar(lo));
    DigitsOfByte(x);
  }

  /** Reading two more digits appends the byte they spell. */
  lemma {:induction false} ParseHexStep(p: string, a: char, b: char)
    requires HexCharValue(a) >= 0 && HexCharValue(b) >= 0
    ensures ParseHex(p).Some? ==>
      ParseHex(p + [a, b]) == Some(ParseHex(p).value + [(16 * HexCharValue(a) + HexCharValue(b)) as byte])
  {
    var h := p + [a, b];
    assert h[..|h| - 2] == p && h[|h| - 2] == a && h[|h| - 1] == b;
  }

  /** A byte is its high digit times 16 plus its low digit. */
  lemma {:induction false} DigitsOfByte(x: byte)
    ensures (16 * (x as int / 16) + x as int % 16) as byte == x
  {
  }

  lemma {:induction false} SplitLast(bs: seq<byte>)
    requires bs != []
    ensures bs[..|bs| - 1] + [bs[|bs| - 1]] == bs
  {
  }

  /** Characters 2i and 2i+1 of the text are the two digits of byte i. */
  lemma {:induction false} JoinHexDigits(bs: seq<byte>, i: int)
    requires 0 <= i < |bs|
    ensures JoinHex(bs)[2 * i] == HexChar(bs[i] as int / 16)
    ensures JoinHex(bs)[2 * i + 1] == HexChar(bs[i] as int % 16)
    decreases |bs|
  {
    var front := bs[..|bs| - 1];
    var q, t := JoinHex(front), PadByte(bs[|bs| - 1]);
    assert JoinHex(bs) == q + t;
    if i < |bs| - 1 {
      JoinHexDigits(front, i);
      assert bs[i] == front[i];
      assert (q + t)[2 * i] == q[2 * i] && (q + t)[2 * i + 1] == q[2 * i + 1];
    } else {
      assert (q + t)[2 * i] == t[0] && (q + t)[2 * i + 1] == t[1];
    }
  }

  /** The rendered text reads back as the collected bytes, and undoing the
      little-endian reversal gives the bytes in memory order. */
  lemma {:induction false} ByteArrayToHexReadBack(b: seq<byte>, littleEndian: bool)
    ensures var collected := if littleEndian then Reverse(b) else b;
      && ParseHex(JoinHex(collected)) == Some(collected)
      && (if littleEndian then Reverse(collected) else collected) == b
  {
    var collected := if littleEndian then Reverse(b) else b;
    ParseJoinHex(collected);
    if littleEndian {
      ReverseReverse(b);
    }
  }

  /** Digit pair i of the rendered text spells byte i of the input, or byte
      |b|-1-i when the platform is little-endian. */
  lemma {:induction false} RenderedByteOrder(b: seq<byte>, littleEndian: bool, i: int)
    requires 0 <= i < |b|
    ensures var hex, x := JoinHex(if littleEndian then Reverse(b) else b), b[if littleEndian then |b| - 1 - i else i];
      && hex[2 * i] == HexChar(x as int / 16)
      && hex[2 * i + 1] == HexChar(x as int % 16)
  {
    JoinHexDigits(if littleEndian then Reverse(b) else b, i);
  }
}
