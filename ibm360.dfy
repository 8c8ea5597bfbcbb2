/** `ibm360` of nasa.py: the decoder of the archive's 32-bit base-16 floating
    point words, as the code computes it.

    The value is modelled as an exact `real`. It equals the Python float the
    code returns: the fraction has at most 24 significant bits, `16**ex` is a
    power of two no larger than 2^252, and a product of the two is neither
    rounded nor out of range. (A set sign bit with a zero mantissa gives the
    float -0.0 in Python; as a real it is 0.) */
module IbmFloat {
  import opened Arith
  import opened BigEndian

  const SignWeight: nat := 0x8000_0000      // bit 31
  const Bit30Weight: nat := 0x4000_0000     // bit 30, the top exponent bit of the IBM format
  const ExponentWeight: nat := 0x100_0000   // bit 24, the lowest exponent bit
  const WordLimit: nat := 0x1_0000_0000     // 2^32

  function Pow16(n: nat): (r: nat)
    ensures r > 0
  {
    if n == 0 then 1 else 16 * Pow16(n - 1)
  }

  /** `b >> 31`: a single bit for a 32-bit word. */
  function SignOf(b: nat): (s: nat)
    ensures b < WordLimit ==> s < 2
  {
    b / SignWeight
  }

  /** Bit 30, which the code never looks at. */
  function Bit30Of(b: nat): nat { (b / Bit30Weight) % 2 }

  /** `(b >> 24) & 127 - 64`, which Python groups as `(b >> 24) & (127 - 64)`:
      the six bits 24..29, with no bias subtracted. */
  function ExponentOf(b: nat): (e: nat)
    ensures e < 64
  {
    (b / ExponentWeight) % 64
  }

  /** `b & ((2 << 23) - 1)`: the low 24 bits. */
  function MantissaOf(b: nat): (m: nat)
    ensures m < ExponentWeight
  {
    b % ExponentWeight
  }

  /** The digits of `hex(m)[2:]`, most significant first: no leading zero,
      and the single digit 0 for zero. */
  function HexDigits(m: nat): (ds: seq<nat>)
    ensures 1 <= |ds|
    ensures forall k :: 0 <= k < |ds| ==> ds[k] < 16
    decreases m
  {
    if m < 16 then [m] else HexDigits(m / 16) + [m % 16]
  }

  /** `hex()` writes as many digits as the number needs and no more:
      16^(d-1) <= m < 16^d for d digits (only the upper bound for m = 0). */
  lemma {:induction false} HexDigitsBounds(m: nat)
    ensures m < Pow16(|HexDigits(m)|)
    ensures m > 0 ==> Pow16(|HexDigits(m)| - 1) <= m
    ensures m > 0 ==> HexDigits(m)[0] != 0
    decreases m
  {
    if m >= 16 {
      HexDigitsBounds(m / 16);
      assert HexDigits(m) == HexDigits(m / 16) + [m % 16];
    }
  }

  /** `float.fromhex('.' + digits)`: the first digit counts sixteenths and
      the digits after it are a fraction of one sixteenth. */
  function FromHexFraction(ds: seq<nat>): real
  {
    if ds == [] then 0.0
    else ((ds[0] as real) + FromHexFraction(ds[1..])) / 16.0
  }

  /** `frac` of the source. */
  function Fraction(m: nat): real
  {
    FromHexFraction(HexDigits(m))
  }

  /** `(-sign or 1)`: -sign unless sign is 0, and then 1. Never 0, and
      positive exactly for sign 0. */
  function Multiplier(sign: nat): (r: int)
    ensures r != 0
    ensures r > 0 <==> sign == 0
  {
    if sign == 0 then 1 else -(sign as int)
  }

  /** `(-sign or 1) * frac * 16**ex` */
  function Value(sign: nat, ex: nat, mantissa: nat): real
  {
    (Multiplier(sign) as real) * Fraction(mantissa) * (Pow16(ex) as real)
  }

  /** The value the code computes from the integer `b` of a word. */
  function DecodeBits(b: nat): real
  {
    Value(SignOf(b), ExponentOf(b), MantissaOf(b))
  }

  /** `ibm360(dat)`: the value of the word's big-endian integer. */
  function Ibm360(w: Word): real
  {
    DecodeBits(Int(w))
  }

  // ----- bit fields -----

  /** The word with the given sign, bit 30, exponent bits and mantissa. */
  function Compose(s: nat, t: nat, e: nat, m: nat): nat
    requires s < 2 && t < 2 && e < 64 && m < ExponentWeight
  {
    s * SignWeight + t * Bit30Weight + e * ExponentWeight + m
  }

  lemma ComposeFields(s: nat, t: nat, e: nat, m: nat)
    requires s < 2 && t < 2 && e < 64 && m < ExponentWeight
    ensures Compose(s, t, e, m) < WordLimit
    ensures SignOf(Compose(s, t, e, m)) == s
    ensures Bit30Of(Compose(s, t, e, m)) == t
    ensures ExponentOf(Compose(s, t, e, m)) == e
    ensures MantissaOf(Compose(s, t, e, m)) == m
  {
    var c := Compose(s, t, e, m);
    var q := s * 128 + t * 64 + e;
    DivUnique(c, ExponentWeight, q, m);
    DivUnique(q, 64, 2 * s + t, e);
    DivUnique(c, SignWeight, s, t * Bit30Weight + e * ExponentWeight + m);
    DivUnique(c, Bit30Weight, 2 * s + t, e * ExponentWeight + m);
    DivUnique(2 * s + t, 2, s, t);
  }

  /** Every 32-bit word is composed of its four fields. */
  lemma Decompose(b: nat)
    requires b < WordLimit
    ensures SignOf(b) < 2 && Bit30Of(b) < 2
    ensures b == Compose(SignOf(b), Bit30Of(b), ExponentOf(b), MantissaOf(b))
  {
    var s, r1 := b / SignWeight, b % SignWeight;
    var t, r2 := r1 / Bit30Weight, r1 % Bit30Weight;
    var e, m := r2 / ExponentWeight, r2 % ExponentWeight;
    assert b == Compose(s, t, e, m);
    ComposeFields(s, t, e, m);
  }

  // ----- the fraction -----

  /** A digit appended to a hex fraction adds that digit at the next place. */
  lemma {:induction false} AppendDigit(xs: seq<nat>, d: nat)
    ensures FromHexFraction(xs + [d]) == FromHexFraction(xs) + (d as real) / (Pow16(|xs| + 1) as real)
    decreases |xs|
  {
    if xs == [] {
      assert [d][1..] == [];
      assert FromHexFraction([d]) == ((d as real) + 0.0) / 16.0;
    } else {
      var ys := xs + [d];
      assert ys[0] == xs[0] && ys[1..] == xs[1..] + [d];
      AppendDigit(xs[1..], d);
      var a, p := (xs[0] as real) + FromHexFraction(xs[1..]), Pow16(|xs|) as real;
      assert FromHexFraction(ys) == (a + (d as real) / p) / 16.0;
      assert FromHexFraction(xs) == a / 16.0;
      assert Pow16(|xs| + 1) as real == 16.0 * p;
      ShiftDigit(a, d as real, p);
    }
  }

  /** The hex-string route of the source is the mantissa over 16 to the number of its hex digits. */
  lemma {:induction false} FractionClosedForm(m: nat)
    ensures Fraction(m) == (m as real) / (Pow16(|HexDigits(m)|) as real)
    decreases m
  {
    var ds := HexDigits(m);
    if m < 16 {
      assert ds == [m];
      assert ds[1..] == [];
      assert FromHexFraction(ds) == ((ds[0] as real) + FromHexFraction(ds[1..])) / 16.0;
    } else {
      var q, r := m / 16, m % 16;
      var qs := HexDigits(q);
      assert ds == qs + [r];
      var p := Pow16(|qs|) as real;
      assert Pow16(|ds|) as real == 16.0 * p;
      AppendDigit(qs, r);
      FractionClosedForm(q);
      assert Fraction(m) == (q as real) / p + (r as real) / (16.0 * p);
      AddDigit(q as real, r as real, p);
      assert m as real == 16.0 * (q as real) + r as real;
    }
  }

  lemma {:induction false} Pow16Less(a: nat, b: nat)
    requires a < b
    ensures Pow16(a) < Pow16(b)
    decreases b
  {
    if a < b - 1 { Pow16Less(a, b - 1); }
  }

  /** The fraction is zero exactly for a zero mantissa, and otherwise lies in [1/16, 1). */
  lemma FractionRange(m: nat)
    ensures Fraction(m) == 0.0 <==> m == 0
    ensures m > 0 ==> 0.0625 <= Fraction(m) < 1.0
  {
    FractionClosedForm(m);
    HexDigitsBounds(m);
    var d := |HexDigits(m)|;
    var p := Pow16(d) as real;
    if m > 0 {
      assert Pow16(d) == 16 * Pow16(d - 1);
      QuotientBounds(m as real, p);
    } else {
      assert Fraction(m) == 0.0 / p;
    }
  }

  // ----- the value -----

  /** +1 or -1 according to the sign bit. */
  function Sign(s: nat): real
  {
    if s == 1 then -1.0 else 1.0
  }

  /** A fraction scaled by `16**ex`. */
  function Magnitude(frac: real, ex: nat): real
  {
    frac * (Pow16(ex) as real)
  }

  lemma ValueSplit(s: nat, e: nat, m: nat)
    requires s < 2
    ensures Value(s, e, m) == Sign(s) * Magnitude(Fraction(m), e)
  {
    MulAssoc(Multiplier(s) as real, Fraction(m), Pow16(e) as real);
  }

  /** The magnitude is zero for a zero mantissa and at least 1/16 otherwise. */
  lemma MagnitudeRange(e: nat, m: nat)
    ensures m == 0 ==> Magnitude(Fraction(m), e) == 0.0
    ensures m > 0 ==> Magnitude(Fraction(m), e) >= 0.0625
  {
    FractionRange(m);
    var f, p := Fraction(m), Pow16(e) as real;
    if m > 0 {
      ScaledAtLeast(f, p);
    } else {
      assert f == 0.0;
    }
  }

  lemma MagnitudeStep(f: real, e: nat)
    ensures Magnitude(f, e + 1) == 16.0 * Magnitude(f, e)
  {
    var p := Pow16(e) as real;
    assert Pow16(e + 1) as real == 16.0 * p;
    MulAssoc(f, 16.0, p);
    assert f * 16.0 == 16.0 * f;
    MulAssoc(16.0, f, p);
  }

  /** `(-sign or 1) * frac * 16**ex` is zero exactly for a zero mantissa, and
      negative exactly for a non-zero sign with a non-zero mantissa. */
  lemma ValueSign(sign: nat, ex: nat, mantissa: nat)
    ensures Value(sign, ex, mantissa) == 0.0 <==> mantissa == 0
    ensures Value(sign, ex, mantissa) < 0.0 <==> sign > 0 && mantissa > 0
  {
    FractionRange(mantissa);
    ProductSign(Multiplier(sign) as real, Fraction(mantissa), Pow16(ex) as real);
  }

  /** An all-zero mantissa decodes to zero whatever the sign and exponent. */
  lemma ZeroMantissa(b: nat)
    requires MantissaOf(b) == 0
    ensures DecodeBits(b) == 0.0
  {
    FractionRange(0);
  }

  /** With a non-zero mantissa the value is negative exactly when bit 31 is set. */
  lemma SignOfValue(b: nat)
    requires b < WordLimit && MantissaOf(b) != 0
    ensures DecodeBits(b) < 0.0 <==> SignOf(b) == 1
    ensures DecodeBits(b) > 0.0 <==> SignOf(b) == 0
  {
    Decompose(b);
    var s, e, m := SignOf(b), ExponentOf(b), MantissaOf(b);
    ValueSplit(s, e, m);
    MagnitudeRange(e, m);
  }

  /** The word with only bit 31 inverted. */
  function FlipSign(b: nat): nat
  {
    if SignOf(b) == 0 then b + SignWeight else b - SignWeight
  }

  /** The word with only bit 30 inverted. */
  function FlipBit30(b: nat): nat
  {
    if Bit30Of(b) == 0 then b + Bit30Weight else b - Bit30Weight
  }

  /** Inverting the sign bit negates the value and keeps its magnitude. */
  lemma SignFlip(b: nat)
    requires b < WordLimit
    ensures FlipSign(b) < WordLimit
    ensures DecodeBits(FlipSign(b)) == -DecodeBits(b)
  {
    Decompose(b);
    var s, t, e, m := SignOf(b), Bit30Of(b), ExponentOf(b), MantissaOf(b);
    assert FlipSign(b) == Compose(1 - s, t, e, m);
    ComposeFields(1 - s, t, e, m);
    ValueSplit(s, e, m);
    ValueSplit(1 - s, e, m);
  }

  /** Bit 30 never changes the value. */
  lemma Bit30Ignored(b: nat)
    requires b < WordLimit
    ensures FlipBit30(b) < WordLimit
    ensures DecodeBits(FlipBit30(b)) == DecodeBits(b)
  {
    Decompose(b);
    var s, t, e, m := SignOf(b), Bit30Of(b), ExponentOf(b), MantissaOf(b);
    assert FlipBit30(b) == Compose(s, 1 - t, e, m);
    ComposeFields(s, 1 - t, e, m);
  }

  /** Raising the six exponent bits by one (below 63) multiplies the value by 16. */
  lemma ExponentStep(b: nat)
    requires b < WordLimit && ExponentOf(b) < 63
    ensures b + ExponentWeight < WordLimit
    ensures ExponentOf(b + ExponentWeight) == ExponentOf(b) + 1
    ensures DecodeBits(b + ExponentWeight) == 16.0 * DecodeBits(b)
  {
    Decompose(b);
    var s, t, e, m := SignOf(b), Bit30Of(b), ExponentOf(b), MantissaOf(b);
    assert b + ExponentWeight == Compose(s, t, e + 1, m);
    ComposeFields(s, t, e + 1, m);
    ValueSplit(s, e, m);
    ValueSplit(s, e + 1, m);
    MagnitudeStep(Fraction(m), e);
    var g, x := Sign(s), Magnitude(Fraction(m), e);
    MulAssoc(g, 16.0, x);
    MulAssoc(16.0, g, x);
    assert g * 16.0 == 16.0 * g;
  }

  // ----- agreement with the published format -----

  /** Bits 24..30: the seven-bit exponent of the IBM System/360 short format. */
  function FormatExponentOf(b: nat): nat { (b / ExponentWeight) % 128 }

  /** 16 to an integer power. */
  function Scale(k: int): (r: real)
    ensures r > 0.0
  {
    if k >= 0 then Pow16(k) as real else 1.0 / (Pow16(-k) as real)
  }

  /** The short hexadecimal floating-point format of the Floating-Point Arithmetic
      chapter of IBM System/360 Principles of Operation: the exponent excess 64,
      the fraction always six hex digits. Not what the code computes. */
  function FormatValue(b: nat): real
  {
    Sign(SignOf(b)) * FormatMagnitude(Bit30Of(b), ExponentOf(b), MantissaOf(b))
  }

  /** The fraction scaled by 16 to the seven-bit exponent, bit 30 `t` above the
      six bits `e`, less 64. */
  function FormatMagnitude(t: nat, e: nat, m: nat): real
  {
    FormatFraction(m) * Scale(64 * t + e - 64)
  }

  /** Six hex digits of fraction: the mantissa over 16^6. */
  function FormatFraction(m: nat): (r: real)
    ensures r >= 0.0
    ensures r == 0.0 <==> m == 0
    ensures m < ExponentWeight ==> r < 1.0
  {
    (m as real) / (ExponentWeight as real)
  }

  /** In the format too a value is zero exactly for a zero mantissa, and negative
      exactly when bit 31 is set and the mantissa is not zero. */
  lemma FormatSign(b: nat)
    ensures FormatValue(b) == 0.0 <==> MantissaOf(b) == 0
    ensures FormatValue(b) < 0.0 <==> SignOf(b) == 1 && MantissaOf(b) > 0
  {
    FormatMagnitudeSign(Bit30Of(b), ExponentOf(b), MantissaOf(b));
  }

  lemma FormatMagnitudeSign(t: nat, e: nat, m: nat)
    ensures FormatMagnitude(t, e, m) >= 0.0
    ensures FormatMagnitude(t, e, m) == 0.0 <==> m == 0
  {
    MulLess(0.0, FormatFraction(m), Scale(64 * t + e - 64));
  }

  /** The format's seven-bit exponent is bit 30 above the six bits the code reads. */
  lemma FormatExponentFields(b: nat)
    requires b < WordLimit
    ensures FormatExponentOf(b) == 64 * Bit30Of(b) + ExponentOf(b)
  {
    Decompose(b);
    var s, t, e, m := SignOf(b), Bit30Of(b), ExponentOf(b), MantissaOf(b);
    var q := s * 128 + t * 64 + e;
    DivUnique(b, ExponentWeight, q, m);
    DivUnique(q, 128, s, t * 64 + e);
  }

  /** The exponent is in excess 64: at exponent 64 the value is the signed fraction. */
  lemma FormatUnbiased(b: nat)
    requires b < WordLimit && FormatExponentOf(b) == 64
    ensures FormatValue(b) == Sign(SignOf(b)) * FormatFraction(MantissaOf(b))
  {
    FormatExponentFields(b);
  }

  /** The number of hex digits is fixed by the bounds of the number. */
  lemma HexDigitCount(m: nat, d: nat)
    requires d >= 1 && Pow16(d - 1) <= m < Pow16(d)
    ensures |HexDigits(m)| == d
  {
    var n := |HexDigits(m)|;
    HexDigitsBounds(m);
    if n < d { Pow16AtMost(n, d - 1); }
    if n > d { Pow16AtMost(d, n - 1); }
  }

  lemma {:induction false} Pow16AtMost(a: nat, b: nat)
    requires a <= b
    ensures Pow16(a) <= Pow16(b)
  {
    if a < b { Pow16Less(a, b); }
  }

  /** A non-zero fraction of the code equals the six-digit fraction of the
      format exactly when the leading hex digit is not 0, and is larger otherwise. */
  lemma FractionAgainstFormat(m: nat)
    requires 0 < m < ExponentWeight
    ensures Fraction(m) == FormatFraction(m) <==> m >= 0x10_0000
  {
    var d := |HexDigits(m)|;
    assert Pow16(6) == ExponentWeight;
    assert Pow16(5) == 0x10_0000;
    FractionClosedForm(m);
    HexDigitsBounds(m);
    if d > 6 { Pow16AtMost(6, d - 1); }
    if m >= 0x10_0000 {
      HexDigitCount(m, 6);
    } else {
      if d == 6 { assert false; }
      Pow16Less(d, 6);
      FractionLarger(m as real, Pow16(d) as real, ExponentWeight as real);
    }
  }

  lemma AgreementBit30Set(e: nat, m: nat)
    requires e < 64 && 0 < m < ExponentWeight
    ensures Magnitude(Fraction(m), e) == FormatMagnitude(1, e, m) <==> m >= 0x10_0000
  {
    FormatMagnitudeBit30Set(e, m);
    SameScale(Fraction(m), FormatFraction(m), e);
    FractionAgainstFormat(m);
  }

  /** Scaling by the same power of 16 keeps fractions apart. */
  lemma SameScale(f1: real, f2: real, e: nat)
    ensures Magnitude(f1, e) == Magnitude(f2, e) <==> f1 == f2
  {
    EqualByFactor(Magnitude(f1, e), Magnitude(f2, e), f1, f2, Pow16(e) as real);
  }

  /** With bit 30 set the format scales by 16^e, as the code does. */
  lemma FormatMagnitudeBit30Set(e: nat, m: nat)
    ensures FormatMagnitude(1, e, m) == Magnitude(FormatFraction(m), e)
  {
    assert Scale(64 * 1 + e - 64) == Pow16(e) as real;
  }

  lemma AgreementBit30Clear(e: nat, m: nat)
    requires e < 64 && 0 < m < ExponentWeight
    ensures Magnitude(Fraction(m), e) != FormatMagnitude(0, e, m)
  {
    FormatBelowSixteenth(e, m);
    MagnitudeRange(e, m);
  }

  /** With bit 30 clear the format's exponent is negative, so its value is below 1/16. */
  lemma FormatBelowSixteenth(e: nat, m: nat)
    requires e < 64 && m < ExponentWeight
    ensures FormatMagnitude(0, e, m) < 0.0625
  {
    var q := Pow16(64 - e) as real;
    FormatMagnitudeBit30Clear(e, m);
    Pow16AtMost(1, 64 - e);
    assert FormatFraction(m) < 1.0;
    SmallScaled(FormatFraction(m), q);
  }

  lemma FormatMagnitudeBit30Clear(e: nat, m: nat)
    requires e < 64
    ensures FormatMagnitude(0, e, m) == FormatFraction(m) * (1.0 / (Pow16(64 - e) as real))
  {
    assert Scale(64 * 0 + e - 64) == 1.0 / (Pow16(64 - e) as real);
  }

  /** The magnitudes agree exactly for a zero mantissa, or for bit 30 set
      (exponent at least 64 in the format) with a leading hex digit that is not 0. */
  lemma MagnitudeAgreement(t: nat, e: nat, m: nat)
    requires t < 2 && e < 64 && m < ExponentWeight
    ensures Magnitude(Fraction(m), e) == FormatMagnitude(t, e, m) <==> m == 0 || (t == 1 && m >= 0x10_0000)
  {
    if m == 0 {
      FractionRange(0);
      assert Magnitude(Fraction(m), e) == 0.0 * (Pow16(e) as real);
    } else if t == 1 {
      AgreementBit30Set(e, m);
    } else {
      AgreementBit30Clear(e, m);
    }
  }

  /** The code agrees with the format exactly on a zero mantissa and on words
      with bit 30 set and a non-zero leading hex digit; everywhere else it does not. */
  lemma AgreesWithFormat(b: nat)
    requires b < WordLimit
    ensures DecodeBits(b) == FormatValue(b) <==>
      MantissaOf(b) == 0 || (Bit30Of(b) == 1 && MantissaOf(b) >= 0x10_0000)
  {
    Decompose(b);
    FieldsAgreement(SignOf(b), Bit30Of(b), ExponentOf(b), MantissaOf(b));
  }

  /** The agreement of the two readings, stated on the four fields of a word. */
  lemma FieldsAgreement(s: nat, t: nat, e: nat, m: nat)
    requires s < 2 && t < 2 && e < 64 && m < ExponentWeight
    ensures Value(s, e, m) == Sign(s) * FormatMagnitude(t, e, m) <==>
      m == 0 || (t == 1 && m >= 0x10_0000)
  {
    ValueSplit(s, e, m);
    MagnitudeAgreement(t, e, m);
    SignCancel(Sign(s), Magnitude(Fraction(m), e), FormatMagnitude(t, e, m));
  }

  /** A word decodes to the same value as its 32-bit integer. */
  lemma WordBits(w: Word)
    ensures Int(w) < WordLimit
    ensures Ibm360(w) == DecodeBits(Int(w))
  {
    Pow256Monotone(|w|, 4);
    assert Pow256(4) == WordLimit;
  }
}
