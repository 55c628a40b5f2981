/** Conversions between binary64 and integers (softfp_template_icvt.h). */
module IntegerConversion {
  import opened MachineWords
  import opened PowersOfTwo
  import opened Rounding
  import opened Binary64
  import opened StickyBits
  import opened RoundPack

  /** The C integer type of a conversion. */
  datatype IntType = IntType(size: nat, unsigned: bool)

  predicate Supported(t: IntType) { t.size == 32 || t.size == 64 }

  function MaxValue(t: IntType): int
    requires Supported(t)
  {
    if t.unsigned then (if t.size == 32 then 0x1_0000_0000 else TWO64) - 1
    else (if t.size == 32 then 0x8000_0000 else TWO63) - 1
  }

  function MinValue(t: IntType): int
    requires Supported(t)
  {
    if t.unsigned then 0 else -MaxValue(t) - 1
  }

  function Clamp(n: int, t: IntType): int
    requires Supported(t)
  {
    if n < MinValue(t) then MinValue(t) else if n > MaxValue(t) then MaxValue(t) else n
  }

  /** |a| as a real number. */
  ghost function RealMagnitude(a: Bits): real {
    ScaleBy(Magnitude(a) as real, -1074)
  }

  /** n is a rounded to an integer by mode rm and then saturated; NaN goes the
      way of +infinity. */
  ghost predicate IsConversion(a: Bits, rm: RoundingMode, t: IntType, n: int)
    requires Supported(t)
  {
    if IsNaN(a) then n == MaxValue(t)
    else if IsInfinite(a) then n == if SignOf(a) == 1 then MinValue(t) else MaxValue(t)
    else exists k: nat :: RoundsToInteger(RealMagnitude(a), k, DirectionOf(rm, SignOf(a)))
                       && n == Clamp(if SignOf(a) == 1 then 0 - k else k, t)
  }

  /** internal_cvt_sf_i: the result word, and the integer it stands for. */
  method CvtSfI(a: Bits, rm: RoundingMode, t: IntType) returns (n: int)
    requires Supported(t)
    ensures IsConversion(a, rm, t, n)
  {
    hide Pow2, Exp2, IsScaled, SignOf, ExponentOf, FractionOf, Magnitude;
    hide Agree, RshiftRnd, RoundsToInteger, IsConversion, RealMagnitude, Increments;
    var aSign, aExp: int, aMant: nat := SignOf(a), ExponentOf(a), FractionOf(a);
    if aExp == EXP_MASK && aMant != 0 {
      aSign := 0;
    }
    if aExp == 0 {
      aExp := 1;
    } else {
      aMant := aMant + P52;
    }
    assert aMant == Significand(a);
    aMant := aMant * 1024;
    aExp := aExp - 1023 - 52;
    var rMax: nat := if aSign == 1 then -MinValue(t) else MaxValue(t);
    var r: nat;
    MagnitudeReal(a, aExp);
    if aExp >= 0 {
      if aExp <= t.size - 1 - 52 {
        r := aMant / 1024 * Pow2(aExp);
        ExactConversion(a, aExp, aMant / 1024, r, rm, t);
        if r > rMax {
          return if aSign == 1 then MinValue(t) else MaxValue(t);
        }
      } else {
        HugeConversion(a, aExp, rm, t);
        return if aSign == 1 then MinValue(t) else MaxValue(t);
      }
    } else {
      ghost var m := Significand(a);
      aMant := RshiftRnd(aMant, -aExp);
      ghost var s := aMant;
      var rndBits := aMant % 1024;
      aMant := (aMant + Addend(aSign, rm)) / 1024;
      if rm == RNE && rndBits == 512 {
        aMant := aMant - aMant % 2;
      }
      RoundedConversion(a, aExp, m, s, aMant, rm, t);
      if aMant > rMax {
        return if aSign == 1 then MinValue(t) else MaxValue(t);
      }
      r := aMant;
    }
    n := if aSign == 1 then 0 - r else r;
  }

  lemma MagnitudeReal(a: Bits, e: int)
    requires e == EffectiveExponent(a) - 1075
    ensures IsScaled(RealMagnitude(a), Significand(a) as real, e)
  {
    hide Pow2, Exp2, IsScaled, ScaleBy, Magnitude, Significand, EffectiveExponent;
    MagnitudeAsExp2(a);
    IsScaledIntro(Magnitude(a) as real, Significand(a) as real, e + 1074);
    ScaleTrans(RealMagnitude(a), Magnitude(a) as real, Significand(a) as real, -1074, e + 1074);
  }

  lemma ConversionIntro(a: Bits, rm: RoundingMode, t: IntType, k: nat, n: int)
    requires Supported(t) && IsFinite(a)
    requires RoundsToInteger(RealMagnitude(a), k, DirectionOf(rm, SignOf(a)))
    requires n == Clamp(if SignOf(a) == 1 then 0 - k else k, t)
    ensures IsConversion(a, rm, t, n)
  {
  }

  lemma IntegerRoundsToItself(k: nat, d: Direction)
    ensures RoundsToInteger(k as real, k, d)
  {
  }

  lemma ScaledInteger(x: real, m: nat, e: nat)
    requires IsScaled(x, m as real, e)
    ensures x == (m * Pow2(e)) as real
  {
    Exp2Nat(e);
    hide Pow2, Exp2;
    CastProduct(m, Pow2(e));
  }

  lemma ExactConversion(a: Bits, e: nat, m: nat, r: nat, rm: RoundingMode, t: IntType)
    requires Supported(t) && e <= t.size - 53 && m == Significand(a) && r == m * Pow2(e)
    requires e == EffectiveExponent(a) - 1075 && IsScaled(RealMagnitude(a), m as real, e)
    ensures IsConversion(a, rm, t, Clamp(if SignOf(a) == 1 then 0 - r else r, t))
  {
    hide Pow2, IsScaled, RealMagnitude, IsConversion, RoundsToInteger;
    ScaledInteger(RealMagnitude(a), m, e);
    IntegerRoundsToItself(r, DirectionOf(rm, SignOf(a)));
    ConversionIntro(a, rm, t, r, Clamp(if SignOf(a) == 1 then 0 - r else r, t));
  }

  lemma HugeConversion(a: Bits, e: nat, rm: RoundingMode, t: IntType)
    requires Supported(t) && e > t.size - 53 && e == EffectiveExponent(a) - 1075
    requires IsScaled(RealMagnitude(a), Significand(a) as real, e)
    ensures IsConversion(a, rm, t, if SignOf(a) == 1 && !IsNaN(a) then MinValue(t) else MaxValue(t))
  {
    hide Pow2, IsScaled, RealMagnitude, IsConversion, RoundsToInteger, Significand;
    if IsFinite(a) {
      var r := Significand(a) * Pow2(e);
      HugeInteger(a, e, t);
      ScaledInteger(RealMagnitude(a), Significand(a), e);
      IntegerRoundsToItself(r, DirectionOf(rm, SignOf(a)));
      ConversionIntro(a, rm, t, r, if SignOf(a) == 1 then MinValue(t) else MaxValue(t));
    } else {
      SpecialConversion(a, rm, t);
    }
  }

  lemma SpecialConversion(a: Bits, rm: RoundingMode, t: IntType)
    requires Supported(t) && !IsFinite(a)
    ensures IsConversion(a, rm, t, if SignOf(a) == 1 && !IsNaN(a) then MinValue(t) else MaxValue(t))
  {
  }

  lemma HugeInteger(a: Bits, e: nat, t: IntType)
    requires Supported(t) && e > t.size - 53 && e == EffectiveExponent(a) - 1075
    ensures Significand(a) * Pow2(e) >= if t.size == 64 then TWO64 else P52
  {
    assert Pow2(12) == 4096;
    hide Pow2;
    if t.size == 64 {
      Pow2Monotone(12, e);
      MulLower(P52, Significand(a), Pow2(e), 4096);
    } else {
      MulLower(P52, Significand(a), Pow2(e), 1);
    }
  }

  lemma RoundedConversion(a: Bits, e: int, m: nat, s: nat, k: nat, rm: RoundingMode, t: IntType)
    requires Supported(t) && e < 0 && m == Significand(a) && s == RshiftRnd(m * 1024, -e)
    requires e == EffectiveExponent(a) - 1075 && IsScaled(RealMagnitude(a), m as real, e)
    requires k == RoundOff(s, SignOf(a), rm)
    ensures IsConversion(a, rm, t, Clamp(if SignOf(a) == 1 then 0 - k else k, t))
  {
    var x := RealMagnitude(a);
    var w := 1024.0 * x;
    ShiftedOperand(m, e, x, w);
    hide Pow2, IsScaled, RealMagnitude, IsConversion, RoundsToInteger, Agree, RoundOff, Increments;
    RoundOffIncrements(s, w, x, 1, s / 1024, s / 1024, SignOf(a), rm);
    IncrementRoundsToInteger(x, s / 1024, k, DirectionOf(rm, SignOf(a)));
    ConversionIntro(a, rm, t, k, Clamp(if SignOf(a) == 1 then 0 - k else k, t));
  }

  lemma ShiftedOperand(m: nat, e: int, x: real, w: real)
    requires e < 0 && m < P53 && IsScaled(x, m as real, e) && w == 1024.0 * x
    ensures Agree(w, RshiftRnd(m * 1024, -e), 512)
  {
    hide Pow2, Exp2, IsScaled, Agree, RshiftRnd;
    var d: nat := -e;
    ScaleInverse(x, m as real, e);
    UnscaleNat(m as real, x, d);
    AgreeExact(m * 1024, 512);
    assert (m * 1024) as real == w * (Pow2(d) as real) by {
      MulAssoc(1024.0, x, Pow2(d) as real);
    }
    AgreeShift((m * 1024) as real, m * 1024, 512, d, w);
  }

  lemma UnscaleNat(y: real, x: real, d: nat)
    requires IsScaled(y, x, d)
    ensures y == x * (Pow2(d) as real)
  {
    Exp2Nat(d);
  }

  // ----- integer to float -----

  /** internal_cvt_i_sf: the integer n, correctly rounded. */
  method CvtISf(n: int, rm: RoundingMode, t: IntType) returns (r: Bits)
    requires Supported(t) && MinValue(t) <= n <= MaxValue(t)
    ensures RoundsTo(IntegerMagnitude(n), if n < 0 then 1 else 0, rm, r)
  {
    hide Pow2, Exp2, IsScaled, Agree, RshiftRnd, RoundsTo, IntegerMagnitude, BitLength;
    var aSign, m: nat := if n < 0 then 1 else 0, if n < 0 then -n else n;
    ghost var a := m;
    var aExp := 1023 + 62;
    LeadingBits(m, t);
    var l := t.size - (t.size - BitLength(m)) - 63;
    ghost var v := a as real;
    IntegerScale(n, a);
    if l > 0 {
      m := RshiftRnd(m, 1);
      aExp := aExp + 1;
      v := (a as real) / 2.0;
      HalvedInteger(n, a, v);
    }
    r := NormalizeSf(aSign, aExp, m, rm, v, IntegerMagnitude(n));
  }

  /** |n| in units of 2^-1074. */
  ghost function IntegerMagnitude(n: int): real {
    ScaleBy((if n < 0 then -n else n) as real, 1074)
  }

  lemma LeadingBits(m: nat, t: IntType)
    requires Supported(t) && m < TWO64
    ensures BitLength(m) <= 64 && (BitLength(m) == 64 <==> m >= TWO63)
  {
    hide Pow2, BitLength;
    Pow2Values();
    BitLengthAtMost(m, 64);
    if m >= TWO63 {
      BitLengthAtLeast(m, 63);
    } else {
      BitLengthAtMost(m, 63);
    }
  }

  lemma IntegerScale(n: int, m: nat)
    requires m == if n < 0 then -n else n
    ensures IsScaled(IntegerMagnitude(n), m as real, 1074)
  {
  }

  lemma HalvedInteger(n: int, m: nat, v: real)
    requires m == (if n < 0 then -n else n) && TWO63 <= m < TWO64 && v == (m as real) / 2.0
    ensures IsScaled(IntegerMagnitude(n), v, 1075)
    ensures Agree(v, RshiftRnd(m, 1), 2) && 0x40_0000_0000_0000 <= RshiftRnd(m, 1) < TWO63
  {
    assert Pow2(1) == 2 && Exp2(1) == 2.0;
    assert IsScaled(m as real, v, 1);
    IntegerScale(n, m);
    AgreeExact(m, 2);
    assert 0x40_0000_0000_0000 <= RshiftRnd(m, 1) < TWO63;
    hide Exp2, Pow2, IsScaled, Agree, RshiftRnd, IntegerMagnitude;
    AgreeShift(m as real, m, 2, 1, v);
    ScaleTrans(IntegerMagnitude(n), m as real, v, 1074, 1);
  }
}
