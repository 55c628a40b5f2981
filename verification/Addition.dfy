/** add_sf and sub_sf of the soft-float library. */
module Addition {
  import opened MachineWords
  import opened PowersOfTwo
  import opened Rounding
  import opened Binary64
  import opened StickyBits
  import opened RoundPack

  /** The sign of an exact zero sum (section 6.3 of IEEE 754-2019). */
  function ZeroSumSign(a: Bits, b: Bits, rm: RoundingMode): nat {
    if SignOf(a) == SignOf(b) then SignOf(a) else if rm == RDN then 1 else 0
  }

  function Abs(n: int): nat {
    if n < 0 then -n else n
  }

  /** r is the sum a + b as IEEE 754-2019 defines it. */
  ghost predicate IsSum(a: Bits, b: Bits, rm: RoundingMode, r: Bits) {
    if IsNaN(a) || IsNaN(b) then r == QNAN
    else if IsInfinite(a) then r == if IsInfinite(b) && SignOf(a) != SignOf(b) then QNAN else a
    else if IsInfinite(b) then r == b
    else
      var s := SignedValue(a) + SignedValue(b);
      if s == 0 then r == Pack(ZeroSumSign(a, b, rm), 0, 0)
      else RoundsTo(Abs(s) as real, if s < 0 then 1 else 0, rm, r)
  }

  method AddSf(a0: Bits, b0: Bits, rm: RoundingMode) returns (r: Bits)
    ensures IsSum(a0, b0, rm, r)
  {
    hide Pow2, Exp2, IsScaled, ScaleBy, SignOf, ExponentOf, FractionOf, Magnitude, SignedValue;
    hide Agree, Aligned, RshiftRnd, RoundsTo, IsSum;
    var a, b := a0, b0;
    if a % TWO63 < b % TWO63 {
      a, b := b, a;
    }
    SumSymmetric(a0, b0, rm);
    var aSign, bSign := SignOf(a), SignOf(b);
    var aExp, bExp := ExponentOf(a), ExponentOf(b);
    var aMant, bMant := FractionOf(a) * 8, FractionOf(b) * 8;
    if aExp == EXP_MASK {
      SpecialSum(a, b, rm);
      if aMant != 0 {
        return QNAN;
      } else if bExp == EXP_MASK && aSign != bSign {
        return QNAN;
      } else {
        return a;
      }
    }
    if aExp == 0 {
      aExp := 1;
    } else {
      aMant := aMant + P52 * 8;
    }
    if bExp == 0 {
      bExp := 1;
    } else {
      bMant := bMant + P52 * 8;
    }
    ghost var ea: int, eb: int := aExp, bExp;
    ghost var vb := ScaleBy((8 * Significand(b)) as real, eb - ea);
    AlignOperand(a, b, ea, eb, vb);
    bMant := RshiftRnd(bMant, aExp - bExp);
    ghost var v: real, x: real;
    if aSign == bSign {
      v, x := (aMant as real) + vb, (Magnitude(a) + Magnitude(b)) as real;
      AddAligned(aMant, bMant, vb);
      aMant := aMant + bMant;
    } else {
      v, x := (aMant as real) - vb, (Magnitude(a) - Magnitude(b)) as real;
      AddAligned(aMant, bMant, vb);
      aMant := aMant - bMant;
      if aMant == 0 {
        aSign := if rm == RDN then 1 else 0;
      }
    }
    SumValue(a, b, ea, eb, vb, v, x);
    AgreeSum(v, aMant);
    ZeroScale(v, x, ea - 4);
    aExp := aExp + 7;
    r := NormalizeSf(aSign, aExp, aMant, rm, v, x);
    SumResult(a, b, rm, aSign, x, r);
  }

  /** NaN and infinite operands; the larger one by bits is special if any is. */
  lemma SpecialSum(a: Bits, b: Bits, rm: RoundingMode)
    requires b % TWO63 <= a % TWO63 && ExponentOf(a) == EXP_MASK
    ensures IsSum(a, b, rm,
                  if FractionOf(a) != 0 || (ExponentOf(b) == EXP_MASK && SignOf(a) != SignOf(b)) then QNAN else a)
  {
    PackFields(a);
    PackFields(b);
  }

  lemma SumSymmetric(a: Bits, b: Bits, rm: RoundingMode)
    ensures forall r: Bits :: IsSum(a, b, rm, r) <==> IsSum(b, a, rm, r)
  {
    hide Magnitude, RoundsTo;
    forall r: Bits
      ensures IsSum(a, b, rm, r) <==> IsSum(b, a, rm, r)
    {
      if IsInfinite(a) && IsInfinite(b) && SignOf(a) == SignOf(b) {
        PackFields(a);
        PackFields(b);
      }
    }
  }

  /** The larger operand by bits has the larger exponent and magnitude. */
  lemma LargerOperand(a: Bits, b: Bits)
    requires b % TWO63 <= a % TWO63
    ensures EffectiveExponent(b) <= EffectiveExponent(a)
    ensures EffectiveExponent(b) == EffectiveExponent(a) ==> Significand(b) <= Significand(a)
    ensures EffectiveExponent(b) < EffectiveExponent(a) ==> P52 <= Significand(a)
    ensures Magnitude(b) <= Magnitude(a)
  {
    hide Magnitude;
    PackFields(a);
    PackFields(b);
    if b % TWO63 < a % TWO63 {
      MagnitudeStrictlyMonotone(b, a);
    } else {
      SameLowBits(a, b);
    }
  }

  /** Alignment: the shifted smaller operand agrees with its exact value, and
      is exact unless the larger operand dominates it by two bits or more. */
  lemma AlignOperand(a: Bits, b: Bits, ea: int, eb: int, vb: real)
    requires b % TWO63 <= a % TWO63 && ea == EffectiveExponent(a) && eb == EffectiveExponent(b)
    requires IsScaled(vb, (8 * Significand(b)) as real, eb - ea)
    ensures eb <= ea
    ensures Aligned(8 * Significand(a), RshiftRnd(8 * Significand(b), ea - eb), vb)
  {
    hide Pow2, Exp2, Magnitude, Significand, EffectiveExponent, Agree, Aligned, RshiftRnd;
    LargerOperand(a, b);
    var sa, sb, d := Significand(a), Significand(b), ea - eb;
    AlignAgrees(8 * sb, d, vb);
    AlignBounds(sa, sb, d, vb);
  }

  /** What the addition needs of its two aligned significands. */
  ghost predicate Aligned(sa: nat, t: nat, vb: real) {
    && Agree(vb, t, 2)
    && sa % 8 == 0 && sa < 0x100_0000_0000_0000
    && t <= sa
    && (vb == t as real || (sa >= 0x80_0000_0000_0000 && t <= 0x10_0000_0000_0000))
  }

  lemma AlignAgrees(m: nat, d: nat, vb: real)
    requires m < TWO64 && vb == (m as real) * Exp2(0 - d)
    ensures Agree(vb, RshiftRnd(m, d), 2)
    ensures m as real == vb * (Pow2(d) as real)
  {
    hide Pow2, Exp2, Agree, RshiftRnd;
    Exp2AddNat(0 - d, d);
    Exp2Zero();
    MulAssoc(m as real, Exp2(0 - d), Pow2(d) as real);
    AgreeExact(m, 2);
    AgreeShift(m as real, m, 2, d, vb);
  }

  lemma AlignBounds(sa: nat, sb: nat, d: nat, vb: real)
    requires sa < P53 && sb < P53 && (d == 0 ==> sb <= sa) && (d > 0 ==> P52 <= sa)
    requires (8 * sb) as real == vb * (Pow2(d) as real) && Agree(vb, RshiftRnd(8 * sb, d), 2)
    ensures Aligned(8 * sa, RshiftRnd(8 * sb, d), vb)
  {
    hide Pow2, Agree, RshiftRnd;
    if d <= 3 {
      NearOperand(sb, d, vb);
    } else {
      FarOperand(8 * sb, d);
    }
  }

  lemma NearOperand(sb: nat, d: nat, vb: real)
    requires d <= 3 && (8 * sb) as real == vb * (Pow2(d) as real)
    ensures vb == RshiftRnd(8 * sb, d) as real
    ensures d == 0 ==> RshiftRnd(8 * sb, d) == 8 * sb
    ensures d > 0 ==> RshiftRnd(8 * sb, d) <= 4 * sb
  {
    Pow2Values();
    Exp2Zero();
    var p := Pow2(d);
    hide Pow2;
    if d > 0 {
      assert p == 2 || p == 4 || p == 8;
      NearQuotient(sb, p, vb);
    }
  }

  lemma NearQuotient(sb: nat, p: nat, vb: real)
    requires (p == 2 || p == 4 || p == 8) && (8 * sb) as real == vb * (p as real)
    ensures Mod(8 * sb, p) == 0 && vb == Div(8 * sb, p) as real && Div(8 * sb, p) <= 4 * sb
  {
    EightDivided(sb, p);
    hide *;
    if p == 2 {
      SameReal(vb, (4 * sb) as real, 2.0);
    } else if p == 4 {
      SameReal(vb, (2 * sb) as real, 4.0);
    } else {
      SameReal(vb, sb as real, 8.0);
    }
  }

  lemma EightDivided(sb: nat, p: nat)
    requires p == 2 || p == 4 || p == 8
    ensures Mod(8 * sb, p) == 0
    ensures Div(8 * sb, p) == if p == 2 then 4 * sb else if p == 4 then 2 * sb else sb
  {
    EightByTwo(sb);
    EightByFour(sb);
    EightByEight(sb);
    hide *;
  }

  lemma EightByTwo(sb: nat)
    ensures Mod(8 * sb, 2) == 0 && Div(8 * sb, 2) == 4 * sb
  {
  }

  lemma EightByFour(sb: nat)
    ensures Mod(8 * sb, 4) == 0 && Div(8 * sb, 4) == 2 * sb
  {
  }

  lemma EightByEight(sb: nat)
    ensures Mod(8 * sb, 8) == 0 && Div(8 * sb, 8) == sb
  {
  }

  lemma SameReal(x: real, y: real, p: real)
    requires x * p == y * p && p > 0.0
    ensures x == y
  {
    hide *;
  }

  lemma FarOperand(m: nat, d: nat)
    requires m < 0x100_0000_0000_0000 && d >= 4
    ensures RshiftRnd(m, d) <= 0x10_0000_0000_0000
  {
    hide Pow2, Mod;
    if d < 64 {
      assert Pow2(4) == 16 by { Pow2Values(); Pow2Succ(3); }
      Pow2Monotone(4, d);
      DivMod(m, Pow2(d));
      MulLower(16, Pow2(d), Div(m, Pow2(d)), Div(m, Pow2(d)));
    }
  }

  lemma AddAligned(sa: nat, t: nat, vb: real)
    requires Aligned(sa, t, vb)
    ensures t <= sa
    ensures SumReady((sa as real) + vb, sa + t) && SumReady((sa as real) - vb, sa - t)
  {
    AgreeAddEven(vb, t, sa);
    hide Agree;
    SumOfWhole(sa, t, vb);
  }

  lemma SumOfWhole(sa: nat, t: nat, vb: real)
    ensures vb == t as real ==> (sa as real) + vb == (sa + t) as real && (sa as real) - vb == (sa - t) as real
  {
    hide *;
  }

  /** What normalize_sf requires of a significand. */
  ghost predicate SumReady(v: real, t: int) {
    && 0 <= t < TWO63
    && Agree(v, t, 2)
    && (v == t as real || t >= 0x40_0000_0000_0000)
  }

  lemma AgreeSum(v: real, t: nat)
    requires SumReady(v, t)
    ensures t == 0 <==> v == 0.0
  {
    AgreeNonnegative(v, t, 2);
  }

  /** The aligned sum or difference is the exact one. */
  lemma SumValue(a: Bits, b: Bits, ea: int, eb: int, vb: real, v: real, x: real)
    requires ea == EffectiveExponent(a) && eb == EffectiveExponent(b)
    requires IsScaled(vb, (8 * Significand(b)) as real, eb - ea)
    requires (v == ((8 * Significand(a)) as real) + vb && x == (Magnitude(a) + Magnitude(b)) as real)
          || (v == ((8 * Significand(a)) as real) - vb && x == (Magnitude(a) - Magnitude(b)) as real)
    ensures IsScaled(x, v, ea - 4)
  {
    hide Pow2, Exp2, Magnitude, Significand, EffectiveExponent;
    var sa, sb := Significand(a) as real, Significand(b) as real;
    var p := Exp2(ea - 4);
    MagnitudeAsExp2(a);
    MagnitudeAsExp2(b);
    assert Exp2(ea - 1) == 8.0 * p by { Exp2Add(ea - 4, 3); Exp2Nat(3); Pow2Values(); }
    assert Exp2(eb - 1) == 8.0 * (Exp2(eb - ea) * p) by {
      Exp2Add(eb - ea, ea - 4);
      Exp2Add(eb - 4, 3); Exp2Nat(3); Pow2Values();
    }
    DistributeSum(sa, sb, p, Exp2(eb - ea), vb);
  }

  lemma DistributeSum(sa: real, sb: real, p: real, q: real, vb: real)
    requires vb == 8.0 * sb * q
    ensures (8.0 * sa + vb) * p == sa * (8.0 * p) + sb * (8.0 * (q * p))
    ensures (8.0 * sa - vb) * p == sa * (8.0 * p) - sb * (8.0 * (q * p))
  {
    MulAssoc(sb, q, p);
  }

  lemma ZeroScale(v: real, x: real, e: int)
    requires IsScaled(x, v, e)
    ensures v == 0.0 <==> x == 0.0
  {
    ScaleOrder(x, 0.0, v, 0.0, e);
  }

  lemma SumResult(a: Bits, b: Bits, rm: RoundingMode, sign: nat, x: real, r: Bits)
    requires b % TWO63 <= a % TWO63 && IsFinite(a) && IsFinite(b) && sign <= 1
    requires x == if SignOf(a) == SignOf(b) then (Magnitude(a) + Magnitude(b)) as real
             else (Magnitude(a) - Magnitude(b)) as real
    requires sign == if SignOf(a) != SignOf(b) && x == 0.0 then (if rm == RDN then 1 else 0) else SignOf(a)
    requires RoundsTo(x, sign, rm, r)
    ensures IsSum(a, b, rm, r)
  {
    hide Magnitude, RoundsTo;
    LargerOperand(a, b);
    if SignedValue(a) + SignedValue(b) == 0 {
      RoundsToZero(sign, rm, r);
    }
  }

  lemma RoundsToZero(sign: nat, rm: RoundingMode, r: Bits)
    requires sign <= 1 && RoundsTo(0.0, sign, rm, r)
    ensures r == Pack(sign, 0, 0)
  {
    RoundsToExact(Pack(sign, 0, 0), rm);
    assert Magnitude(Pack(sign, 0, 0)) == 0;
    RoundsToUnique(0.0, sign, rm, r, Pack(sign, 0, 0));
  }

  /** r is the difference a - b as IEEE 754-2019 defines it. */
  ghost predicate IsDifference(a: Bits, b: Bits, rm: RoundingMode, r: Bits) {
    if IsNaN(a) || IsNaN(b) then r == QNAN
    else if IsInfinite(a) then r == if IsInfinite(b) && SignOf(a) == SignOf(b) then QNAN else a
    else if IsInfinite(b) then r == Negate(b)
    else
      var d := SignedValue(a) - SignedValue(b);
      if d == 0 then r == Pack(if SignOf(a) != SignOf(b) then SignOf(a) else if rm == RDN then 1 else 0, 0, 0)
      else RoundsTo(Abs(d) as real, if d < 0 then 1 else 0, rm, r)
  }

  /** sub_sf: flip the sign of b and add. */
  method SubSf(a: Bits, b: Bits, rm: RoundingMode) returns (r: Bits)
    ensures IsDifference(a, b, rm, r)
  {
    r := AddSf(a, Negate(b), rm);
    SumOfNegated(a, b, rm, r);
  }

  /** Adding the negated operand subtracts, zeros and special values included. */
  lemma SumOfNegated(a: Bits, b: Bits, rm: RoundingMode, r: Bits)
    ensures IsSum(a, Negate(b), rm, r) <==> IsDifference(a, b, rm, r)
  {
    NegateValue(b);
    hide Magnitude, SignedValue, RoundsTo, ExponentOf, FractionOf;
  }

  /** b ^ SIGN_MASK */
  function Negate(b: Bits): (c: Bits)
    ensures c % TWO63 == b % TWO63 && SignOf(c) == 1 - SignOf(b)
  {
    if b < TWO63 then b + TWO63 else b - TWO63
  }

  lemma NegateValue(b: Bits)
    ensures SignedValue(Negate(b)) == -SignedValue(b)
    ensures IsNaN(Negate(b)) == IsNaN(b) && IsInfinite(Negate(b)) == IsInfinite(b)
  {
    hide Pow2;
    PackFields(b);
    PackFields(Negate(b));
    SameLowBits(b, Negate(b));
  }
}
