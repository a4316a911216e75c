/**
  ScalarType of vllm/scalar_type.py: the largest and smallest values, re-encoded as the bits of an
  IEEE 754 double, and the range of the integer types. The ids are in ScalarTypeIds.
 */
module ScalarTypes {
  datatype NanRepr = NONE | IEEE_754 | EXTD_RANGE_MAX_MIN

  datatype ScalarType = ScalarType(exponent: nat, mantissa: nat, signed: bool, bias: int,
                                   finiteValuesOnly: bool, nanRepr: NanRepr)
  {
    function SizeBits(): nat { exponent + mantissa + if signed then 1 else 0 }
  }

  // ---------- bits ----------

  function Pow2(n: nat): (p: nat)
    ensures p >= 1
  {
    if n == 0 then 1 else 2 * Pow2(n - 1)
  }

  /** x << k */
  function Shl(x: nat, k: nat): nat { if k == 0 then x else 2 * Shl(x, k - 1) }

  /** Bitwise or of two naturals. */
  function Or(a: nat, b: nat): nat
    decreases a + b
  {
    if a == 0 then b else if b == 0 then a
    else (if a % 2 == 1 || b % 2 == 1 then 1 else 0) + 2 * Or(a / 2, b / 2)
  }

  /** Bits that do not overlap add up. */
  lemma {:induction false} OrDisjoint(a: nat, b: nat, k: nat)
    requires a < Pow2(k)
    ensures Or(a, Shl(b, k)) == a + Shl(b, k)
    decreases k
  {
    if k > 0 {
      OrDisjoint(a / 2, b, k - 1);
      assert a == a % 2 + 2 * (a / 2);
    }
  }

  lemma {:induction false} ShlAdds(x: nat, y: nat, k: nat)
    ensures Shl(x + y, k) == Shl(x, k) + Shl(y, k)
    decreases k
  {
    if k > 0 { ShlAdds(x, y, k - 1); }
  }

  lemma {:induction false} ShlLess(x: nat, y: nat, k: nat)
    requires x < y
    ensures Shl(x, k) < Shl(y, k)
    decreases k
  {
    if k > 0 { ShlLess(x, y, k - 1); }
  }

  lemma {:induction false} ShlOfPow2(m: nat, k: nat)
    ensures Shl(Pow2(m), k) == Pow2(m + k)
    decreases k
  {
    if k > 0 { ShlOfPow2(m, k - 1); }
  }

  lemma {:induction false} Pow2Grows(a: nat, b: nat)
    requires a <= b
    ensures Pow2(a) <= Pow2(b)
    decreases b - a
  {
    if a < b { Pow2Grows(a, b - 1); }
  }

  // ---------- values of codes ----------

  /** Powers of two with any integer exponent. */
  function Exp2(k: int): (r: real)
    ensures r > 0.0
    decreases if k >= 0 then k else -k
  {
    if k == 0 then 1.0 else if k > 0 then 2.0 * Exp2(k - 1) else Exp2(k + 1) / 2.0
  }

  lemma Exp2Step(k: int)
    ensures Exp2(k + 1) == 2.0 * Exp2(k)
  {}

  /** n times 2^k, as repeated addition. */
  function Scaled(n: nat, k: int): real
    decreases n
  {
    if n == 0 then 0.0 else Scaled(n - 1, k) + Exp2(k)
  }

  lemma {:induction false} ScaledIsProduct(n: nat, k: int)
    ensures Scaled(n, k) == n as real * Exp2(k)
    decreases n
  {
    if n > 0 { ScaledIsProduct(n - 1, k); }
  }

  lemma {:induction false} ScaledAdds(m: nat, n: nat, k: int)
    ensures Scaled(m + n, k) == Scaled(m, k) + Scaled(n, k)
    decreases n
  {
    if n > 0 { ScaledAdds(m, n - 1, k); }
  }

  lemma {:induction false} ScaledIsPositive(n: nat, k: int)
    ensures Scaled(n, k) >= 0.0 && (n > 0 ==> Scaled(n, k) > 0.0)
    decreases n
  {
    if n > 0 { ScaledIsPositive(n - 1, k); }
  }

  lemma ScaledGrows(m: nat, n: nat, k: int)
    requires m <= n
    ensures 0.0 <= Scaled(m, k) <= Scaled(n, k)
    ensures m < n ==> Scaled(m, k) < Scaled(n, k)
  {
    ScaledAdds(m, n - m, k);
    ScaledIsPositive(m, k);
    ScaledIsPositive(n - m, k);
  }

  lemma {:induction false} ScaledPow2(n: nat, k: int)
    ensures Scaled(Pow2(n), k) == Exp2(k + n)
    decreases n
  {
    if n == 0 {
      assert Scaled(0, k) == 0.0 && Scaled(1, k) == Scaled(0, k) + Exp2(k);
    } else {
      ScaledPow2(n - 1, k);
      ScaledAdds(Pow2(n - 1), Pow2(n - 1), k);
      Exp2Step(k + n - 1);
    }
  }

  lemma {:induction false} ScaledDoubles(m: nat, k: int)
    ensures Scaled(2 * m, k) == Scaled(m, k + 1)
    decreases m
  {
    if m > 0 {
      ScaledDoubles(m - 1, k);
      assert Scaled(2 * m, k) == Scaled(2 * m - 1, k) + Exp2(k) &&
        Scaled(2 * m - 1, k) == Scaled(2 * m - 2, k) + Exp2(k);
      Exp2Step(k);
    }
  }

  /** Shifting n bits from the factor to the exponent. */
  lemma {:induction false} ScaledShifts(m: nat, n: nat, k: int)
    ensures Scaled(Shl(m, n), k) == Scaled(m, k + n)
    decreases n
  {
    if n > 0 {
      ScaledDoubles(Shl(m, n - 1), k);
      ScaledShifts(m, n - 1, k + 1);
    }
  }

  lemma {:induction false} Exp2Grows(j: int, k: int)
    requires j <= k
    ensures Exp2(j) <= Exp2(k)
    decreases k - j
  {
    if j < k {
      Exp2Grows(j, k - 1);
      Exp2Step(k - 1);
    }
  }

  /** A bit pattern, split into its fields. */
  datatype Code = Code(negative: bool, exp: nat, man: nat)

  function ExponentBias(exponent: nat): nat
    requires exponent >= 1
  {
    Pow2(exponent - 1) - 1
  }

  /** Exponent field 0 means no hidden bit, at the scale of exponent field 1. */
  function Significand(mantissa: nat, c: Code): nat { if c.exp == 0 then c.man else Pow2(mantissa) + c.man }

  function Scale(exponent: nat, mantissa: nat, c: Code): int
    requires exponent >= 1
  {
    (if c.exp == 0 then 1 else c.exp) - ExponentBias(exponent) - mantissa
  }

  /** The value of a finite code, as in section 3.4 of IEEE 754-2019, for any field widths. */
  function Value(exponent: nat, mantissa: nat, c: Code): real
    requires exponent >= 1
  {
    var magnitude := Scaled(Significand(mantissa, c), Scale(exponent, mantissa, c));
    if c.negative then -magnitude else magnitude
  }

  ghost predicate IsCode(t: ScalarType, c: Code) {
    c.exp < Pow2(t.exponent) && c.man < Pow2(t.mantissa) && (c.negative ==> t.signed)
  }

  /** Which codes are finite, by the representation of NaNs. */
  ghost predicate IsFinite(t: ScalarType, c: Code) {
    IsCode(t, c) &&
    match t.nanRepr
    case NONE => true
    case IEEE_754 => c.exp + 1 < Pow2(t.exponent)
    case EXTD_RANGE_MAX_MIN => c.exp + 1 < Pow2(t.exponent) || c.man + 1 < Pow2(t.mantissa)
  }

  /**
    The codes of real values. infs are the codes that stand for an infinity: none when
    _finite_values_only, and otherwise left open here, because no code is named for types without
    IEEE NaNs. The all-ones exponent of IEEE 754 is excluded already.
   */
  ghost predicate HasValue(t: ScalarType, infs: iset<Code>, c: Code) { IsFinite(t, c) && c !in infs }

  /** 1 << 63 and 1 << 52: the sign bit of a double, and the weight of its exponent field. */
  const SIGN_BIT := 0x8000_0000_0000_0000

  const FRACTION := 0x10_0000_0000_0000

  /** The fields of a 64-bit pattern read as a double. */
  function DecodeDouble(bits: nat): Code {
    Code(bits / SIGN_BIT % 2 == 1, bits / FRACTION % 2048, bits % FRACTION)
  }

  function DoubleValue(bits: nat): real { Value(11, 52, DecodeDouble(bits)) }

  // ---------- the largest value, as the bits of a double ----------

  /** StructError: struct.pack("!Q", ...) of a negative number. */
  datatype Raw = AssertionError | StructError | Bits(bits: nat)

  function MaxMantissa(t: ScalarType): int {
    Pow2(t.mantissa) - 1 - if t.nanRepr == EXTD_RANGE_MAX_MIN then 1 else 0
  }

  function MaxExponent(t: ScalarType): nat
    requires t.exponent >= 1
  {
    Pow2(t.exponent) - 2 + if t.nanRepr == IEEE_754 then 0 else 1
  }

  /** The exponent under the bias of a double. */
  function MaxExponentDouble(t: ScalarType): int
    requires t.exponent >= 1
  {
    MaxExponent(t) - ExponentBias(t.exponent) + 1023
  }

  /** Mantissa and exponent shifted into the positions of a double. */
  function DoubleBits(man: nat, widening: nat, exp: nat): nat { Or(Shl(man, widening), Shl(exp, 52)) }

  /** _floating_point_max_int; a mantissa of -1 makes the number negative. */
  function FloatingPointMaxInt(t: ScalarType): Raw
    requires t.exponent >= 1
  {
    if t.mantissa > 52 || t.exponent > 11 then AssertionError
    else if t.nanRepr != IEEE_754 && t.exponent >= 11 then AssertionError
    else if MaxMantissa(t) < 0 then StructError
    else if MaxExponentDouble(t) < 0 then StructError
    else Bits(DoubleBits(MaxMantissa(t), 52 - t.mantissa, MaxExponentDouble(t)))
  }

  function MaxCode(t: ScalarType): Code
    requires t.exponent >= 1 && MaxMantissa(t) >= 0
  {
    Code(false, MaxExponent(t), MaxMantissa(t))
  }

  lemma TenMoreBits(x: nat, k: nat)
    ensures Shl(x, k + 10) == 1024 * Shl(x, k)
  {
    assert Shl(x, k + 2) == 4 * Shl(x, k) && Shl(x, k + 4) == 4 * Shl(x, k + 2);
    assert Shl(x, k + 6) == 4 * Shl(x, k + 4) && Shl(x, k + 8) == 4 * Shl(x, k + 6);
  }

  lemma ThirtyMoreBits(x: nat, k: nat)
    ensures Shl(x, k + 30) == 0x4000_0000 * Shl(x, k)
  {
    TenMoreBits(x, k);
    TenMoreBits(x, k + 10);
    TenMoreBits(x, k + 20);
  }

  lemma PowerOf52()
    ensures Pow2(52) == FRACTION
  {
    ThirtyMoreBits(1, 22);
    TenMoreBits(1, 12);
    TenMoreBits(1, 2);
    ShlOfPow2(0, 52);
  }

  lemma FractionWeight(x: nat)
    ensures Shl(x, 52) == x * FRACTION
    ensures Pow2(52) == FRACTION
  {
    ThirtyMoreBits(x, 22);
    TenMoreBits(x, 12);
    TenMoreBits(x, 2);
    assert Shl(x, 0) == x;
    assert Shl(x, 1) == 2 * Shl(x, 0);
    assert Shl(x, 2) == 2 * Shl(x, 1);
    PowerOf52();
  }

  lemma SignWeight()
    ensures Shl(1, 63) == Pow2(63) == SIGN_BIT
  {
    ThirtyMoreBits(1, 33);
    ThirtyMoreBits(1, 3);
    ShlOfPow2(0, 63);
  }

  lemma ExponentConstants()
    ensures Pow2(10) == 1024 && Pow2(11) == 2048 && ExponentBias(11) == 1023
  {
    ShlOfPow2(0, 10);
    TenMoreBits(1, 0);
    assert Pow2(0) == 1 && Pow2(11) == 2 * Pow2(10);
  }

  lemma FieldsOfDouble(bits: nat, man: nat, exp: nat)
    requires man < FRACTION && exp < 2048 && bits == man + exp * FRACTION
    ensures DecodeDouble(bits) == Code(false, exp, man)
    ensures bits < SIGN_BIT
  {
    assert bits / FRACTION == exp && bits % FRACTION == man;
  }

  /** The exponent of the double is in the normal range. */
  lemma MaxExponentDoubleIsNormal(t: ScalarType)
    requires 1 <= t.exponent <= 11 && (t.nanRepr != IEEE_754 ==> t.exponent < 11)
    ensures 1 <= MaxExponentDouble(t) < 2047
  {
    ExponentConstants();
    Pow2Grows(t.exponent - 1, if t.nanRepr == IEEE_754 then 10 else 9);
    assert Pow2(t.exponent) == 2 * Pow2(t.exponent - 1);
  }

  /** A pattern results unless an assertion fails or the largest mantissa is -1. */
  lemma PatternResultsIff(t: ScalarType)
    requires t.exponent >= 1
    ensures FloatingPointMaxInt(t).Bits?
       <==> && t.mantissa <= 52 && t.exponent <= 11 && (t.nanRepr != IEEE_754 ==> t.exponent < 11)
            && !(t.mantissa == 0 && t.nanRepr == EXTD_RANGE_MAX_MIN)
    ensures FloatingPointMaxInt(t).StructError?
       <==> t.mantissa == 0 && t.nanRepr == EXTD_RANGE_MAX_MIN && t.exponent < 11
  {
    if t.exponent <= 11 && (t.nanRepr != IEEE_754 ==> t.exponent < 11) { MaxExponentDoubleIsNormal(t); }
    assert Pow2(0) == 1;
    if t.mantissa >= 1 { Pow2Grows(1, t.mantissa); }
  }

  lemma WidenedMantissaFits(m: nat, man: nat)
    requires m <= 52 && man < Pow2(m)
    ensures Shl(man, 52 - m) < FRACTION
  {
    ShlLess(man, Pow2(m), 52 - m);
    ShlOfPow2(m, 52 - m);
    PowerOf52();
  }

  lemma OrOfFields(man: nat, exp: nat)
    requires man < FRACTION
    ensures Or(man, Shl(exp, 52)) == man + exp * FRACTION
  {
    FractionWeight(exp);
    OrDisjoint(man, exp, 52);
  }

  lemma DoubleBitsDecode(man: nat, widening: nat, exp: nat)
    requires Shl(man, widening) < FRACTION && exp < 2048
    ensures DecodeDouble(DoubleBits(man, widening, exp)) == Code(false, exp, Shl(man, widening))
    ensures DoubleBits(man, widening, exp) < SIGN_BIT
  {
    OrOfFields(Shl(man, widening), exp);
    FieldsOfDouble(DoubleBits(man, widening, exp), Shl(man, widening), exp);
  }

  /** The bits decode to the largest mantissa, widened, and the largest exponent, re-biased. */
  lemma MaxBitsDecode(t: ScalarType)
    requires t.exponent >= 1 && FloatingPointMaxInt(t).Bits?
    ensures DecodeDouble(FloatingPointMaxInt(t).bits) ==
      Code(false, MaxExponentDouble(t), Shl(MaxMantissa(t), 52 - t.mantissa))
    ensures 1 <= MaxExponentDouble(t) && FloatingPointMaxInt(t).bits < SIGN_BIT
  {
    MaxExponentDoubleIsNormal(t);
    WidenedMantissaFits(t.mantissa, MaxMantissa(t));
    DoubleBitsDecode(MaxMantissa(t), 52 - t.mantissa, MaxExponentDouble(t));
  }

  lemma SignificandWidens(m: nat, man: nat, n: nat)
    ensures Shl(Pow2(m) + man, n) == Pow2(m + n) + Shl(man, n)
  {
    ShlAdds(Pow2(m), man, n);
    ShlOfPow2(m, n);
  }

  /** Widening the mantissa to n bits and re-biasing the exponent to e bits keeps a normal value. */
  lemma WideningKeepsValue(t: ScalarType, c: Code, e: nat, n: nat, d: Code)
    requires 1 <= t.exponent && 1 <= e && t.mantissa <= n && c.exp >= 1 && d.exp >= 1 && !c.negative && !d.negative
    requires d.exp - ExponentBias(e) == c.exp - ExponentBias(t.exponent) && d.man == Shl(c.man, n - t.mantissa)
    ensures Value(e, n, d) == Value(t.exponent, t.mantissa, c)
  {
    SignificandWidens(t.mantissa, c.man, n - t.mantissa);
    ScaledShifts(Significand(t.mantissa, c), n - t.mantissa, Scale(e, n, d));
  }

  /** The value of an unsigned code grows with the exponent field, then with the mantissa field. */
  lemma ValueIsMonotone(t: ScalarType, c: Code, d: Code)
    requires t.exponent >= 1 && !c.negative && !d.negative && d.exp >= 1
    requires c.man < Pow2(t.mantissa) && (c.exp < d.exp || (c.exp == d.exp && c.man <= d.man))
    ensures 0.0 <= Value(t.exponent, t.mantissa, c) <= Value(t.exponent, t.mantissa, d)
    ensures c != d ==> Value(t.exponent, t.mantissa, c) < Value(t.exponent, t.mantissa, d)
  {
    var m, j, k := t.mantissa, Scale(t.exponent, t.mantissa, c), Scale(t.exponent, t.mantissa, d);
    if j == k {
      ScaledGrows(Significand(m, c), Significand(m, d), j);
    } else {
      ScaledGrows(Significand(m, c), Pow2(m + 1), j);
      ScaledPow2(m + 1, j);
      Exp2Grows(j + m + 1, k + m);
      ScaledPow2(m, k);
      ScaledGrows(Pow2(m), Significand(m, d), k);
    }
  }

  lemma MaxIsPositive(t: ScalarType)
    requires t.exponent >= 1 && MaxMantissa(t) >= 0 && MaxExponent(t) >= 1
    ensures Value(t.exponent, t.mantissa, MaxCode(t)) > 0.0
  {
    var c := MaxCode(t);
    ScaledIsPositive(Significand(t.mantissa, c), Scale(t.exponent, t.mantissa, c));
  }

  lemma NegativesStayBelowZero(t: ScalarType, c: Code)
    requires t.exponent >= 1 && c.negative
    ensures Value(t.exponent, t.mantissa, c) <= 0.0
  {
    ScaledIsPositive(Significand(t.mantissa, c), Scale(t.exponent, t.mantissa, c));
  }

  lemma FiniteCodesAreBelowMax(t: ScalarType, c: Code)
    requires t.exponent >= 1 && MaxMantissa(t) >= 0
    ensures IsFinite(t, MaxCode(t))
    ensures IsFinite(t, c) ==> c.exp < MaxExponent(t) || (c.exp == MaxExponent(t) && c.man <= MaxMantissa(t))
  {
    assert Pow2(t.exponent) == 2 * Pow2(t.exponent - 1);
  }

  ghost predicate IsLargestFinite(t: ScalarType, infs: iset<Code>, v: real)
    requires t.exponent >= 1
  {
    && (exists c :: HasValue(t, infs, c) && Value(t.exponent, t.mantissa, c) == v)
    && forall c :: HasValue(t, infs, c) ==> Value(t.exponent, t.mantissa, c) <= v
  }

  /** Every other finite code is smaller. */
  lemma MaxCodeIsLargest(t: ScalarType, c: Code)
    requires t.exponent >= 1 && MaxMantissa(t) >= 0 && MaxExponent(t) >= 1 && IsFinite(t, c) && c != MaxCode(t)
    ensures Value(t.exponent, t.mantissa, c) < Value(t.exponent, t.mantissa, MaxCode(t))
  {
    FiniteCodesAreBelowMax(t, c);
    MaxIsPositive(t);
    if c.negative {
      NegativesStayBelowZero(t, c);
    } else {
      ValueIsMonotone(t, c, MaxCode(t));
    }
  }

  lemma MaxValue(t: ScalarType)
    requires t.exponent >= 1 && FloatingPointMaxInt(t).Bits? && MaxExponent(t) >= 1
    ensures DoubleValue(FloatingPointMaxInt(t).bits) == Value(t.exponent, t.mantissa, MaxCode(t))
  {
    ExponentConstants();
    MaxBitsDecode(t);
    WideningKeepsValue(t, MaxCode(t), 11, 52, DecodeDouble(FloatingPointMaxInt(t).bits));
  }

  lemma NormalMaxIsLargestIff(t: ScalarType, infs: iset<Code>)
    requires t.exponent >= 1 && FloatingPointMaxInt(t).Bits? && MaxExponent(t) >= 1
    ensures IsLargestFinite(t, infs, DoubleValue(FloatingPointMaxInt(t).bits)) <==> MaxCode(t) !in infs
  {
    MaxValue(t);
    FiniteCodesAreBelowMax(t, MaxCode(t));
    forall c | IsFinite(t, c) && c != MaxCode(t)
      ensures Value(t.exponent, t.mantissa, c) < Value(t.exponent, t.mantissa, MaxCode(t))
    {
      MaxCodeIsLargest(t, c);
    }
    if MaxCode(t) !in infs { assert HasValue(t, infs, MaxCode(t)); }
  }

  /** With one exponent bit and IEEE NaNs every finite code is subnormal: below 2 - 2^-m. */
  lemma SubnormalsStayBelow(t: ScalarType, c: Code)
    requires t.exponent == 1 && t.nanRepr == IEEE_754 && IsFinite(t, c)
    ensures Value(t.exponent, t.mantissa, c) < Scaled(2 * Pow2(t.mantissa) - 1, 0 - t.mantissa)
  {
    assert Pow2(0) == 1 && Pow2(1) == 2 && c.exp == 0;
    var k := 0 - t.mantissa;
    ScaledDoubles(c.man, k);
    ScaledGrows(2 * c.man, 2 * Pow2(t.mantissa) - 1, k);
    ScaledIsPositive(c.man, k + 1);
  }

  /** 1.11...1 with m ones, in a wider format: 2 - 2^-m. */
  lemma AllOnesWidened(m: nat, e: nat, n: nat, d: Code)
    requires 1 < e && m <= n && d == Code(false, ExponentBias(e), Shl(Pow2(m) - 1, n - m))
    ensures Value(e, n, d) == Scaled(2 * Pow2(m) - 1, 0 - m)
  {
    assert Pow2(e - 1) == 2 * Pow2(e - 2);
    SignificandWidens(m, Pow2(m) - 1, n - m);
    ScaledShifts(2 * Pow2(m) - 1, n - m, 0 - n);
  }

  lemma OneBitFields(t: ScalarType)
    requires t.exponent == 1 && t.nanRepr == IEEE_754
    ensures MaxExponentDouble(t) == 1023 && MaxMantissa(t) == Pow2(t.mantissa) - 1
  {
    assert Pow2(0) == 1 && Pow2(1) == 2;
  }

  lemma OneBitWidened(t: ScalarType, e: nat, n: nat, d: Code)
    requires t.exponent == 1 && t.nanRepr == IEEE_754 && 1 < e && t.mantissa <= n && ExponentBias(e) == 1023
    requires MaxMantissa(t) >= 0 && MaxExponentDouble(t) >= 0
    requires d == Code(false, MaxExponentDouble(t), Shl(MaxMantissa(t), n - t.mantissa))
    ensures Value(e, n, d) == Scaled(2 * Pow2(t.mantissa) - 1, 0 - t.mantissa)
  {
    OneBitFields(t);
    AllOnesWidened(t.mantissa, e, n, d);
  }

  lemma OneBitMaxValue(t: ScalarType)
    requires t.exponent == 1 && t.nanRepr == IEEE_754 && FloatingPointMaxInt(t).Bits?
    ensures DoubleValue(FloatingPointMaxInt(t).bits) == Scaled(2 * Pow2(t.mantissa) - 1, 0 - t.mantissa)
  {
    MaxBitsDecode(t);
    var d := Code(false, MaxExponentDouble(t), Shl(MaxMantissa(t), 52 - t.mantissa));
    assert DoubleValue(FloatingPointMaxInt(t).bits) == Value(11, 52, d);
    ExponentConstants();
    OneBitWidened(t, 11, 52, d);
  }

  /**
    Whichever codes are infinities: the bits are those of the largest finite value, except for one-bit
    exponents with IEEE NaNs, and unless the largest code is itself an infinity.
   */
  lemma MaxIsLargestFiniteIff(t: ScalarType, infs: iset<Code>)
    requires t.exponent >= 1 && FloatingPointMaxInt(t).Bits?
    ensures IsLargestFinite(t, infs, DoubleValue(FloatingPointMaxInt(t).bits))
       <==> !(t.exponent == 1 && t.nanRepr == IEEE_754) && MaxCode(t) !in infs
  {
    if t.exponent == 1 && t.nanRepr == IEEE_754 {
      OneBitMaxValue(t);
      forall c | IsFinite(t, c) ensures Value(t.exponent, t.mantissa, c) != DoubleValue(FloatingPointMaxInt(t).bits) {
        SubnormalsStayBelow(t, c);
      }
    } else {
      assert Pow2(1) == 2 && Pow2(2) == 4;
      if t.exponent >= 2 { Pow2Grows(2, t.exponent); }
      NormalMaxIsLargestIff(t, infs);
    }
  }

  // ---------- the smallest value ----------

  /** _raw_min of a floating-point type: the bits of the maximum with the sign bit set. */
  function FloatingPointMinInt(t: ScalarType): Raw
    requires t.exponent >= 1
  {
    if !t.signed then AssertionError
    else
      var max := FloatingPointMaxInt(t);
      if max.Bits? then Bits(Or(max.bits, SIGN_BIT)) else max
  }

  lemma SignBit(bits: nat)
    requires bits < SIGN_BIT
    ensures !DecodeDouble(bits).negative
    ensures DecodeDouble(bits + SIGN_BIT) == DecodeDouble(bits).(negative := true)
  {}

  lemma NegatedValue(exponent: nat, mantissa: nat, c: Code)
    requires exponent >= 1
    ensures Value(exponent, mantissa, c.(negative := !c.negative)) == -Value(exponent, mantissa, c)
  {}

  lemma OrHighBit(bits: nat, high: nat, k: nat)
    requires bits < Pow2(k) && high == Shl(1, k)
    ensures Or(bits, high) == bits + high
  {
    OrDisjoint(bits, 1, k);
  }

  lemma OrSignBit(bits: nat)
    requires bits < SIGN_BIT
    ensures Or(bits, SIGN_BIT) == bits + SIGN_BIT
  {
    SignWeight();
    OrHighBit(bits, SIGN_BIT, 63);
  }

  lemma SetSignBit(max: nat)
    requires max < SIGN_BIT
    ensures DoubleValue(Or(max, SIGN_BIT)) == -DoubleValue(max)
  {
    OrSignBit(max);
    SignBit(max);
    NegatedValue(11, 52, DecodeDouble(max));
  }

  lemma MinBitsDecode(t: ScalarType)
    requires t.exponent >= 1 && FloatingPointMinInt(t).Bits?
    ensures FloatingPointMaxInt(t).Bits?
    ensures DoubleValue(FloatingPointMinInt(t).bits) == -DoubleValue(FloatingPointMaxInt(t).bits)
  {
    var max := FloatingPointMaxInt(t).bits;
    assert max < SIGN_BIT by { MaxBitsDecode(t); }
    SetSignBit(max);
  }

  ghost predicate IsSmallestFinite(t: ScalarType, infs: iset<Code>, v: real)
    requires t.exponent >= 1
  {
    && (exists c :: HasValue(t, infs, c) && Value(t.exponent, t.mantissa, c) == v)
    && forall c :: HasValue(t, infs, c) ==> v <= Value(t.exponent, t.mantissa, c)
  }

  function Negated(c: Code): Code { c.(negative := !c.negative) }

  /** With a code for infinity there is one for minus infinity. */
  ghost predicate AreSymmetric(infs: iset<Code>) { forall c :: Negated(c) in infs <==> c in infs }

  lemma Negate(t: ScalarType, infs: iset<Code>, c: Code)
    requires t.exponent >= 1 && t.signed && AreSymmetric(infs) && HasValue(t, infs, c)
    ensures HasValue(t, infs, Negated(c))
    ensures Value(t.exponent, t.mantissa, Negated(c)) == -Value(t.exponent, t.mantissa, c)
  {}

  lemma LargestNegates(t: ScalarType, infs: iset<Code>, v: real)
    requires t.exponent >= 1 && t.signed && AreSymmetric(infs) && IsLargestFinite(t, infs, v)
    ensures IsSmallestFinite(t, infs, -v)
  {
    var top :| HasValue(t, infs, top) && Value(t.exponent, t.mantissa, top) == v;
    Negate(t, infs, top);
    assert Value(t.exponent, t.mantissa, Negated(top)) == -v;
    forall c | HasValue(t, infs, c) ensures -v <= Value(t.exponent, t.mantissa, c) {
      Negate(t, infs, c);
      assert Value(t.exponent, t.mantissa, Negated(c)) <= v;
    }
  }

  lemma SmallestNegates(t: ScalarType, infs: iset<Code>, w: real)
    requires t.exponent >= 1 && t.signed && AreSymmetric(infs) && IsSmallestFinite(t, infs, w)
    ensures IsLargestFinite(t, infs, -w)
  {
    var low :| HasValue(t, infs, low) && Value(t.exponent, t.mantissa, low) == w;
    Negate(t, infs, low);
    assert Value(t.exponent, t.mantissa, Negated(low)) == -w;
    forall c | HasValue(t, infs, c) ensures Value(t.exponent, t.mantissa, c) <= -w {
      Negate(t, infs, c);
      assert w <= Value(t.exponent, t.mantissa, Negated(c));
    }
  }

  lemma NegatedLimits(t: ScalarType, infs: iset<Code>, v: real, w: real)
    requires t.exponent >= 1 && t.signed && AreSymmetric(infs) && w == -v
    ensures IsLargestFinite(t, infs, v) <==> IsSmallestFinite(t, infs, w)
  {
    if IsLargestFinite(t, infs, v) { LargestNegates(t, infs, v); }
    if IsSmallestFinite(t, infs, w) { SmallestNegates(t, infs, w); }
  }

  /** A pattern of the minimum results iff the type is signed and the maximum has one. */
  lemma MinResultsIff(t: ScalarType)
    requires t.exponent >= 1
    ensures FloatingPointMinInt(t).Bits?
       <==> && t.signed && t.mantissa <= 52 && t.exponent <= 11 && (t.nanRepr != IEEE_754 ==> t.exponent < 11)
            && !(t.mantissa == 0 && t.nanRepr == EXTD_RANGE_MAX_MIN)
    ensures FloatingPointMinInt(t).StructError?
       <==> t.signed && t.mantissa == 0 && t.nanRepr == EXTD_RANGE_MAX_MIN && t.exponent < 11
  {
    PatternResultsIff(t);
  }

  /** The minimum is the negation of the maximum, so it is the least finite value when that is the largest. */
  lemma MinIsNegatedMax(t: ScalarType, infs: iset<Code>)
    requires t.exponent >= 1 && FloatingPointMinInt(t).Bits? && AreSymmetric(infs)
    ensures FloatingPointMaxInt(t).Bits?
    ensures DoubleValue(FloatingPointMinInt(t).bits) == -DoubleValue(FloatingPointMaxInt(t).bits)
    ensures IsLargestFinite(t, infs, DoubleValue(FloatingPointMaxInt(t).bits)) <==>
      IsSmallestFinite(t, infs, DoubleValue(FloatingPointMinInt(t).bits))
  {
    MinBitsDecode(t);
    NegatedLimits(t, infs, DoubleValue(FloatingPointMaxInt(t).bits), DoubleValue(FloatingPointMinInt(t).bits));
  }

  // ---------- integer types ----------

  datatype Limit = NoLimit | Limit(value: int)

  /** _raw_max of an integer type; the bound on the size is the code's assertion. */
  function IntegerRawMax(t: ScalarType): Limit {
    if t.SizeBits() < 64 || (t.SizeBits() == 64 && t.signed) then Limit(Shl(1, t.mantissa) - 1) else NoLimit
  }

  function IntegerRawMin(t: ScalarType): Limit
    requires t.SizeBits() >= 1
  {
    if t.signed && t.SizeBits() > 64 then NoLimit
    else if t.signed then Limit(0 - Shl(1, t.SizeBits() - 1)) else Limit(0)
  }

  /** max() and min() take the bias off. */
  function Unbiased(t: ScalarType, l: Limit): Limit { if l.NoLimit? then l else Limit(l.value - t.bias) }

  /** The number that a stored pattern stands for: two's complement, less the bias. */
  function IntegerValue(t: ScalarType, pattern: nat): int
    requires t.SizeBits() >= 1
  {
    (if t.signed && pattern >= Pow2(t.SizeBits() - 1) then pattern - Pow2(t.SizeBits()) else pattern) - t.bias
  }

  lemma Pow2Compares(a: nat, b: nat)
    ensures Pow2(a) <= Pow2(b) <==> a <= b
  {
    if a <= b {
      Pow2Grows(a, b);
    } else {
      Pow2Grows(b + 1, a);
      assert Pow2(b + 1) == 2 * Pow2(b);
    }
  }

  lemma ShlOne(k: nat)
    ensures Shl(1, k) == Pow2(k)
  {
    ShlOfPow2(0, k);
    assert Pow2(0) == 1;
  }

  /** A limit of an integer type results iff it is a 64-bit signed integer. */
  lemma LimitResultsIff(t: ScalarType)
    requires t.exponent == 0 && t.SizeBits() >= 1
    ensures IntegerRawMax(t).Limit? <==> Pow2(t.mantissa) - 1 < Pow2(63)
    ensures IntegerRawMax(t).Limit? ==> IntegerRawMax(t).value == Pow2(t.mantissa) - 1
    ensures IntegerRawMin(t).Limit? <==> (t.signed ==> Pow2(t.SizeBits() - 1) <= Pow2(63))
    ensures IntegerRawMin(t).Limit? ==> IntegerRawMin(t).value == if t.signed then 0 - Pow2(t.SizeBits() - 1) else 0
  {
    ShlOne(t.mantissa);
    ShlOne(t.SizeBits() - 1);
    Pow2Compares(t.mantissa, 63);
    Pow2Compares(t.SizeBits() - 1, 63);
  }

  /** Exactly the integers from min() to max() have a pattern. */
  lemma IntegerRangeIsExact(t: ScalarType, v: int)
    requires t.exponent == 0 && t.SizeBits() >= 1
    requires Unbiased(t, IntegerRawMax(t)).Limit? && Unbiased(t, IntegerRawMin(t)).Limit?
    ensures (exists p: nat :: p < Pow2(t.SizeBits()) && IntegerValue(t, p) == v)
       <==> Unbiased(t, IntegerRawMin(t)).value <= v <= Unbiased(t, IntegerRawMax(t)).value
  {
    var size := t.SizeBits();
    assert Pow2(0) == 1 && Pow2(size) == 2 * Pow2(size - 1);
    ShlOfPow2(0, size - 1);
    ShlOfPow2(0, t.mantissa);
    if Unbiased(t, IntegerRawMin(t)).value <= v <= Unbiased(t, IntegerRawMax(t)).value {
      var p := if v + t.bias < 0 then v + t.bias + Pow2(size) else v + t.bias;
      assert p < Pow2(size) && IntegerValue(t, p) == v;
    }
  }
}
