/** Bit strings as the decoder keeps them (strings over '0' and '1', most
    significant bit first), their unsigned values, and exact powers of two. */
module Bits {

  /** Every character is '0' or '1'. */
  predicate IsBits(s: string)
  {
    forall i :: 0 <= i < |s| ==> s[i] == '0' || s[i] == '1'
  }

  function Pow2(n: nat): (r: nat)
    ensures r >= 1
  {
    if n == 0 then 1 else 2 * Pow2(n - 1)
  }

  lemma {:induction false} Pow2Add(a: nat, b: nat)
    ensures Pow2(a + b) == Pow2(a) * Pow2(b)
    decreases b
  {
    if b > 0 {
      Pow2Add(a, b - 1);
      assert Pow2(a + b) == 2 * Pow2(a + b - 1);
    }
  }

  function Bit(c: char): nat
  {
    if c == '1' then 1 else 0
  }

  /** The unsigned value of a big-endian bit string; for a non-empty bit
      string this is what `parseInt(s, 2)` returns. */
  function BinVal(s: string): (v: nat)
    requires IsBits(s)
    ensures v < Pow2(|s|)
    decreases |s|
  {
    if s == [] then 0 else 2 * BinVal(s[..|s| - 1]) + Bit(s[|s| - 1])
  }

  lemma {:induction false} ConcatBits(a: string, b: string)
    requires IsBits(a) && IsBits(b)
    ensures IsBits(a + b)
  {
    forall i | 0 <= i < |a + b| ensures (a + b)[i] == '0' || (a + b)[i] == '1' {
      if i < |a| { assert (a + b)[i] == a[i]; } else { assert (a + b)[i] == b[i - |a|]; }
    }
  }

  /** Appending bits shifts the value of the prefix left by their number. */
  lemma {:induction false} BinValAppend(a: string, b: string)
    requires IsBits(a) && IsBits(b)
    ensures IsBits(a + b)
    ensures BinVal(a + b) == BinVal(a) * Pow2(|b|) + BinVal(b)
    decreases |b|
  {
    ConcatBits(a, b);
    if b == [] {
      assert a + b == a;
    } else {
      var b' := b[..|b| - 1];
      assert IsBits(b');
      BinValAppend(a, b');
      var x, y, p, c := BinVal(a), BinVal(b'), Pow2(|b'|), Bit(b[|b| - 1]);
      assert BinVal(a + b) == 2 * (x * p + y) + c by {
        assert (a + b)[..|a + b| - 1] == a + b';
        assert (a + b)[|a + b| - 1] == b[|b| - 1];
      }
      assert BinVal(b) == 2 * y + c;
      assert Pow2(|b|) == 2 * p;
      ShiftStep(x, p, y, c);
    }
  }

  lemma {:induction false} ShiftStep(x: int, p: int, y: int, c: int)
    ensures 2 * (x * p + y) + c == x * (2 * p) + (2 * y + c)
  {
  }

  /** The test `/^0+$/`: a non-empty run of '0'. */
  predicate AllZeros(s: string)
  {
    |s| > 0 && forall i :: 0 <= i < |s| ==> s[i] == '0'
  }

  /** The test `/^1+$/`: a non-empty run of '1'. */
  predicate AllOnes(s: string)
  {
    |s| > 0 && forall i :: 0 <= i < |s| ==> s[i] == '1'
  }

  /** A bit string has value 0 exactly when all of its bits are '0'. */
  lemma {:induction false} ValueZeroIffZeroBits(s: string)
    requires IsBits(s)
    ensures BinVal(s) == 0 <==> forall i :: 0 <= i < |s| ==> s[i] == '0'
    decreases |s|
  {
    if s != [] {
      var p := s[..|s| - 1];
      ValueZeroIffZeroBits(p);
      assert forall i :: 0 <= i < |p| ==> p[i] == s[i];
    }
  }

  /** A bit string has the largest value of its width exactly when all of its
      bits are '1'. */
  lemma {:induction false} ValueMaxIffOneBits(s: string)
    requires IsBits(s)
    ensures BinVal(s) == Pow2(|s|) - 1 <==> forall i :: 0 <= i < |s| ==> s[i] == '1'
    decreases |s|
  {
    if s != [] {
      var p := s[..|s| - 1];
      ValueMaxIffOneBits(p);
      assert forall i :: 0 <= i < |p| ==> p[i] == s[i];
      assert Pow2(|s|) == 2 * Pow2(|p|);
    }
  }

  /** Relates the two anchored regular-expression tests to the field's
      unsigned value. */
  lemma {:induction false} AllZerosAllOnesValue(s: string)
    requires IsBits(s) && |s| > 0
    ensures AllZeros(s) <==> BinVal(s) == 0
    ensures AllOnes(s) <==> BinVal(s) == Pow2(|s|) - 1
  {
    ValueZeroIffZeroBits(s);
    ValueMaxIffOneBits(s);
  }

  /** `s.indexOf(c)`: the first position of `c` in `s`, or -1 when `c` does
      not occur. */
  function IndexOf(s: string, c: char): (r: int)
    ensures -1 <= r < |s|
    ensures r == -1 <==> c !in s
    ensures 0 <= r ==> s[r] == c && c !in s[..r]
  {
    if s == [] then -1
    else if s[0] == c then 0
    else
      var k := IndexOf(s[1..], c);
      assert s == [s[0]] + s[1..];
      if k < 0 then -1
      else
        assert s[..k + 1] == [s[0]] + s[1..][..k];
        k + 1
  }

  /** A position holding `c` with no `c` before it is what `indexOf` finds. */
  lemma {:induction false} IndexOfFirst(s: string, c: char, k: int)
    requires 0 <= k < |s| && s[k] == c
    requires forall i :: 0 <= i < k ==> s[i] != c
    ensures IndexOf(s, c) == k
  {
    assert c in s;
  }

  /** 2 raised to an integer power, as an exact rational. */
  function Pow2R(e: int): real
    decreases if e < 0 then -e else e
  {
    if e == 0 then 1.0
    else if e > 0 then 2.0 * Pow2R(e - 1)
    else Pow2R(e + 1) / 2.0
  }

  lemma {:induction false} Pow2RPositive(e: int)
    ensures Pow2R(e) > 0.0
    decreases if e < 0 then -e else e
  {
    if e > 0 {
      Pow2RPositive(e - 1);
    } else if e < 0 {
      Pow2RPositive(e + 1);
    }
  }

  lemma {:induction false} Pow2RSucc(e: int)
    ensures Pow2R(e + 1) == 2.0 * Pow2R(e)
  {
  }

  lemma {:induction false} Pow2RAddNat(a: int, b: nat)
    ensures Pow2R(a + b) == Pow2R(a) * Pow2R(b)
    decreases b
  {
    if b > 0 {
      var x, y, z := Pow2R(a), Pow2R(b - 1), Pow2R(a + b - 1);
      assert z == x * y by { Pow2RAddNat(a, b - 1); }
      assert Pow2R(a + b) == 2.0 * z by { Pow2RSucc(a + b - 1); }
      assert Pow2R(b) == 2.0 * y by { Pow2RSucc(b - 1); }
      RealDouble(x, y, z);
    }
  }

  lemma {:induction false} Pow2RAdd(a: int, b: int)
    ensures Pow2R(a + b) == Pow2R(a) * Pow2R(b)
  {
    if b >= 0 {
      Pow2RAddNat(a, b);
    } else {
      Pow2RAddNeg(a, b);
    }
  }

  lemma {:induction false} Pow2RAddNeg(a: int, b: int)
    requires b < 0
    ensures Pow2R(a + b) == Pow2R(a) * Pow2R(b)
  {
    var n: nat := -b;
    var x, z, y, w := Pow2R(a), Pow2R(a + b), Pow2R(b), Pow2R(n);
    assert x == z * w by {
      Pow2RAddNat(a + b, n);
      assert a + b + n == a;
    }
    assert y * w == 1.0 by {
      Pow2RAddNat(b, n);
      assert b + n == 0;
    }
    assert z == x * y by {
      RealCancel(x, z, y, w);
    }
  }

  lemma {:induction false} RealCancel(x: real, z: real, y: real, w: real)
    requires x == z * w && y * w == 1.0
    ensures z == x * y
  {
    assert x * y == z * (w * y);
  }

  lemma {:induction false} RealDouble(x: real, y: real, z: real)
    requires z == x * y
    ensures 2.0 * z == x * (2.0 * y)
  {
  }

  lemma {:induction false} Pow2RNat(n: nat)
    ensures Pow2R(n) == Pow2(n) as real
    decreases n
  {
    if n > 0 {
      Pow2RNat(n - 1);
    }
  }

  /** Raising the exponent by n multiplies by the integer 2^n. */
  lemma {:induction false} Pow2RShift(a: int, n: nat)
    ensures Pow2R(a + n) == (Pow2(n) as real) * Pow2R(a)
  {
    Pow2RAdd(n, a);
    Pow2RNat(n);
  }

  /** The rational s × 2^e. */
  function Dyadic(s: int, e: int): real
  {
    (s as real) * Pow2R(e)
  }

  /** Moving a factor 2^n from the integer s into the exponent keeps the
      value. */
  lemma {:induction false} DyadicShift(s: int, n: nat, e: int)
    ensures Dyadic(s * Pow2(n), e) == Dyadic(s, e + n)
  {
    Pow2RShift(e, n);
    CastProduct(s, Pow2(n), Pow2R(e), Pow2R(e + n));
  }

  lemma {:induction false} CastProduct(s: int, p: int, w: real, v: real)
    requires v == (p as real) * w
    ensures ((s * p) as real) * w == (s as real) * v
  {
    assert ((s * p) as real) == (s as real) * (p as real);
  }

  /** 2^e is the dyadic rational 1 × 2^e. */
  lemma {:induction false} DyadicOne(e: int)
    ensures Dyadic(1, e) == Pow2R(e)
  {
  }

  /** An integer power of two times 2^e is 2^(e + n). */
  lemma {:induction false} DyadicPow2(n: nat, e: int)
    ensures Dyadic(Pow2(n), e) == Pow2R(e + n)
  {
    DyadicShift(1, n, e);
    DyadicOne(e + n);
  }

  /** Dyadic rationals with the same exponent add by their integers. */
  lemma {:induction false} DyadicAdd(s: int, t: int, e: int)
    ensures Dyadic(s, e) + Dyadic(t, e) == Dyadic(s + t, e)
  {
    RealSum(s as real, t as real, (s + t) as real, Pow2R(e));
  }

  lemma {:induction false} RealSum(x: real, y: real, z: real, w: real)
    requires z == x + y
    ensures x * w + y * w == z * w
  {
  }

  /** Multiplying by 2^b adds b to the exponent. */
  lemma {:induction false} DyadicScale(s: int, a: int, b: int)
    ensures Dyadic(s, a) * Pow2R(b) == Dyadic(s, a + b)
  {
    Pow2RAdd(a, b);
    assert Dyadic(s, a) * Pow2R(b) == ((s as real) * Pow2R(a)) * Pow2R(b);
    assert Dyadic(s, a + b) == (s as real) * Pow2R(a + b);
    RealAssoc(s as real, Pow2R(a), Pow2R(b), Pow2R(a + b));
  }

  lemma {:induction false} RealAssoc(x: real, y: real, z: real, yz: real)
    requires yz == y * z
    ensures (x * y) * z == x * yz
  {
  }

  /** With a common exponent, the order of dyadic rationals is that of their
      integers. */
  lemma {:induction false} DyadicMonotone(s: int, t: int, e: int)
    ensures s < t ==> Dyadic(s, e) < Dyadic(t, e)
    ensures s <= t ==> Dyadic(s, e) <= Dyadic(t, e)
    ensures s > 0 ==> Dyadic(s, e) > 0.0
  {
    Pow2RPositive(e);
    RealOrder(s as real, t as real, Pow2R(e));
  }

  lemma {:induction false} RealOrder(x: real, y: real, w: real)
    requires w > 0.0
    ensures x < y ==> x * w < y * w
    ensures x <= y ==> x * w <= y * w
    ensures x > 0.0 ==> x * w > 0.0
  {
  }
}
