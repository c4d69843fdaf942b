/** The input gates of the page: the keypress filter on the hexadecimal
    field, the length check before decoding, and the regular expression a
    decimal input must match before it is encoded. */
module Gates {
  import opened Results
  import opened Hex
  import opened Decoder

  /** The keypress filter: a typed character is let into the field when it
      matches the class `[\dA-Fa-f]`. */
  predicate KeyAllowed(c: char)
  {
    '0' <= c <= '9' || 'A' <= c <= 'F' || 'a' <= c <= 'f'
  }

  /** `toUpperCase` on ASCII letters; other characters are kept. */
  function UpperAscii(c: char): (u: char)
    ensures 'a' <= c <= 'z' ==> u as int == c as int - 32
    ensures !('a' <= c <= 'z') ==> u == c
  {
    if 'a' <= c <= 'z' then (c as int - 32) as char else c
  }

  function ToUpperCase(s: string): (r: string)
    ensures |r| == |s|
    ensures forall i :: 0 <= i < |s| ==> r[i] == UpperAscii(s[i])
  {
    if s == [] then [] else [UpperAscii(s[0])] + ToUpperCase(s[1..])
  }

  /** A key passes the filter exactly when upper-casing it gives a character
      of the nibble table's alphabet. */
  lemma {:induction false} KeyAllowedTranslates(c: char)
    ensures KeyAllowed(c) <==> UpperAscii(c) in HEX_DIGITS
  {
    var u := UpperAscii(c);
    if KeyAllowed(c) {
      var k := if '0' <= u <= '9' then u as int - '0' as int else u as int - 'A' as int + 10;
      assert HEX_DIGITS[k] == u;
    }
    if u in HEX_DIGITS {
      var i :| 0 <= i < 16 && HEX_DIGITS[i] == u;
      assert i < 10 ==> HEX_DIGITS[i] as int == '0' as int + i;
      assert i >= 10 ==> HEX_DIGITS[i] as int == 'A' as int + i - 10;
    }
  }

  /** The keyup handler: the field's text, upper-cased, is decoded when it
      has 8 or 16 characters; otherwise the decoded fields are erased, which
      is the InvalidHexLength outcome here. */
  function KeyUpDecode(raw: string): (r: Result<Decoded, DecodeError>)
    ensures r == Failure(InvalidHexLength) <==> !(|raw| == 8 || |raw| == 16)
    ensures (|raw| == 8 || |raw| == 16) ==> r == Decode(ToUpperCase(raw))
  {
    var h := ToUpperCase(raw);
    if |h| == 8 || |h| == 16 then Decode(h) else Failure(InvalidHexLength)
  }

  /** Text typed through the keypress filter, of length 8 or 16, always
      decodes. */
  lemma {:induction false} FilteredKeysDecode(raw: string)
    requires forall i :: 0 <= i < |raw| ==> KeyAllowed(raw[i])
    requires |raw| == 8 || |raw| == 16
    ensures KeyUpDecode(raw).Success?
  {
    var h := ToUpperCase(raw);
    forall i | 0 <= i < |h| ensures h[i] in HEX_DIGITS {
      KeyAllowedTranslates(raw[i]);
    }
  }

  // ---------------------------------------------------------------------
  // The decimal gate `^\d+(\.\d*([Ee][+-]?\d+)?)?$`

  predicate IsDigit(c: char)
  {
    '0' <= c <= '9'
  }

  predicate AllDigits(s: string)
  {
    forall i :: 0 <= i < |s| ==> IsDigit(s[i])
  }

  /** The length of the run of digits that starts `s`. */
  function DigitRun(s: string): (n: nat)
    ensures n <= |s| && AllDigits(s[..n])
    ensures n < |s| ==> !IsDigit(s[n])
  {
    if s != [] && IsDigit(s[0]) then
      var n := DigitRun(s[1..]);
      assert s[..n + 1] == [s[0]] + s[1..][..n];
      n + 1
    else 0
  }

  /** The regular expression, scanned left to right: one or more digits,
      then either the end or a '.' followed by the fraction part. */
  predicate DecimalGate(s: string)
  {
    var n := DigitRun(s);
    n > 0 && (n == |s| || (s[n] == '.' && FractionTail(s[n + 1..])))
  }

  /** `\d*([Ee][+-]?\d+)?$` */
  predicate FractionTail(t: string)
  {
    var n := DigitRun(t);
    n == |t| || (t[n] in "Ee" && ExponentTail(t[n + 1..]))
  }

  /** `[+-]?\d+$` */
  predicate ExponentTail(t: string)
  {
    var u := if t != [] && t[0] in "+-" then t[1..] else t;
    var n := DigitRun(u);
    n > 0 && n == |u|
  }

  /** The shapes the regular expression describes. */
  datatype DecimalText = DecimalText(whole: string, fraction: Option<FractionText>)
  datatype FractionText = FractionText(digits: string, exponent: Option<ExponentText>)
  datatype ExponentText = ExponentText(marker: char, sign: Option<char>, digits: string)

  predicate WellFormedText(d: DecimalText)
  {
    && |d.whole| > 0 && AllDigits(d.whole)
    && (d.fraction.Some? ==> WellFormedFraction(d.fraction.value))
  }

  predicate WellFormedFraction(f: FractionText)
  {
    && AllDigits(f.digits)
    && (f.exponent.Some? ==> WellFormedExponent(f.exponent.value))
  }

  predicate WellFormedExponent(e: ExponentText)
  {
    && e.marker in "Ee"
    && (e.sign.Some? ==> e.sign.value in "+-")
    && |e.digits| > 0 && AllDigits(e.digits)
  }

  function Render(d: DecimalText): string
  {
    d.whole + match d.fraction
      case None => ""
      case Some(f) => "." + RenderFraction(f)
  }

  function RenderFraction(f: FractionText): string
  {
    f.digits + match f.exponent
      case None => ""
      case Some(e) => RenderExponent(e)
  }

  function RenderExponent(e: ExponentText): string
  {
    [e.marker] + (match e.sign case None => "" case Some(c) => [c]) + e.digits
  }

  /** A run of digits followed by text that does not start with a digit is
      measured exactly. */
  lemma {:induction false} DigitRunPrefix(a: string, b: string)
    requires AllDigits(a) && (b == [] || !IsDigit(b[0]))
    ensures DigitRun(a + b) == |a| && (a + b)[|a|..] == b
    decreases |a|
  {
    if a != [] {
      assert (a + b)[1..] == a[1..] + b;
      DigitRunPrefix(a[1..], b);
    } else {
      assert a + b == b;
    }
  }

  lemma {:induction false} ExponentSound(e: ExponentText)
    requires WellFormedExponent(e)
    ensures ExponentTail(RenderExponent(e)[1..])
  {
    var t := RenderExponent(e)[1..];
    var u := if t != [] && t[0] in "+-" then t[1..] else t;
    assert u == e.digits;
    DigitRunPrefix(e.digits, []);
    assert e.digits + [] == e.digits;
  }

  lemma {:induction false} FractionSound(f: FractionText)
    requires WellFormedFraction(f)
    ensures FractionTail(RenderFraction(f))
  {
    var rest := match f.exponent case None => "" case Some(e) => RenderExponent(e);
    assert RenderFraction(f) == f.digits + rest;
    DigitRunPrefix(f.digits, rest);
    if f.exponent.Some? {
      ExponentSound(f.exponent.value);
      assert rest[1..] == (f.digits + rest)[|f.digits| + 1..];
    }
  }

  /** Every text of the described shape passes the gate. */
  lemma {:induction false} DecimalGateSound(d: DecimalText)
    requires WellFormedText(d)
    ensures DecimalGate(Render(d))
  {
    var rest := match d.fraction case None => "" case Some(f) => "." + RenderFraction(f);
    assert Render(d) == d.whole + rest;
    DigitRunPrefix(d.whole, rest);
    if d.fraction.Some? {
      FractionSound(d.fraction.value);
      assert rest[1..] == (d.whole + rest)[|d.whole| + 1..];
    }
  }

  lemma {:induction false} ExponentComplete(t: string) returns (e: ExponentText)
    requires t != [] && t[0] in "Ee" && ExponentTail(t[1..])
    ensures WellFormedExponent(e) && RenderExponent(e) == t
  {
    var s := t[1..];
    if s != [] && s[0] in "+-" {
      e := ExponentText(t[0], Some(s[0]), s[1..]);
      assert s[1..][..|s[1..]|] == s[1..];
      assert t == [t[0]] + [s[0]] + s[1..];
    } else {
      e := ExponentText(t[0], None, s);
      assert s[..|s|] == s;
      assert t == [t[0]] + s;
    }
  }

  lemma {:induction false} FractionComplete(t: string) returns (f: FractionText)
    requires FractionTail(t)
    ensures WellFormedFraction(f) && RenderFraction(f) == t
  {
    var n := DigitRun(t);
    if n == |t| {
      f := FractionText(t, None);
      assert t[..n] == t;
    } else {
      var e := ExponentComplete(t[n..]);
      assert t[n..][1..] == t[n + 1..];
      f := FractionText(t[..n], Some(e));
      assert RenderFraction(f) == t[..n] + RenderExponent(e);
      assert t == t[..n] + t[n..];
    }
  }

  /** Every text that passes the gate has the described shape. */
  lemma {:induction false} DecimalGateComplete(s: string) returns (d: DecimalText)
    requires DecimalGate(s)
    ensures WellFormedText(d) && Render(d) == s
  {
    var n := DigitRun(s);
    if n == |s| {
      d := DecimalText(s, None);
      assert s[..n] == s;
    } else {
      var f := FractionComplete(s[n + 1..]);
      d := DecimalText(s[..n], Some(f));
      assert Render(d) == s[..n] + ("." + RenderFraction(f));
      assert s == s[..n] + ("." + s[n + 1..]);
    }
  }

  /** Inputs without an exponent that the gate lets through: a point may
      end the text. */
  lemma DecimalGateAcceptsPlain()
    ensures DecimalGate("1") && DecimalGate("1.")
  {
    var one := DecimalText("1", None);
    var point := DecimalText("1", Some(FractionText("", None)));
    assert Render(one) == "1" && Render(point) == "1.";
    DecimalGateSound(one);
    DecimalGateSound(point);
  }

  /** Inputs with an exponent that the gate lets through: the exponent may
      follow the point with or without fraction digits. */
  lemma DecimalGateAcceptsExponent()
    ensures DecimalGate("1.5e-3") && DecimalGate("1.e5")
  {
    var small := DecimalText("1", Some(FractionText("5", Some(ExponentText('e', Some('-'), "3")))));
    var large := DecimalText("1", Some(FractionText("", Some(ExponentText('e', None, "5")))));
    assert Render(small) == "1.5e-3" && Render(large) == "1.e5";
    DecimalGateSound(small);
    DecimalGateSound(large);
  }

  /** Inputs the gate refuses: a leading sign, the empty text, and an
      exponent without a point before it. */
  lemma DecimalGateRejects()
    ensures !DecimalGate("-1") && !DecimalGate("") && !DecimalGate("1e5")
  {
    assert DigitRun("-1") == 0;
    assert DigitRun("1e5") == 1;
  }

  /** A leading sign is never accepted. */
  lemma {:induction false} SignedInputRejected(s: string)
    requires s != [] && s[0] in "+-"
    ensures !DecimalGate(s)
  {
  }
}
