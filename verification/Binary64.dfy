/** The binary64 interchange format: bit patterns as 64-bit naturals, their
    magnitudes in units of 2^-1074, and correct rounding to a bit pattern. */
module Binary64 {
  import opened MachineWords
  import opened PowersOfTwo
  import opened Rounding

  type Bits = u: int | 0 <= u < TWO64

  const EXP_MASK: nat := 2047
  const INFINITY: nat := EXP_MASK * P52
  const QNAN: nat := EXP_MASK * P52 + P52 / 2

  /** One greater than every finite magnitude: 2^1024 in units of 2^-1074. */
  const OVERFLOW_EXPONENT: nat := 2098

  datatype RoundingMode = RNE | RTZ | RDN | RUP | RMM

  function SignOf(u: Bits): (s: nat)
    ensures s <= 1
  {
    u / TWO63
  }

  function ExponentOf(u: Bits): (e: nat)
    ensures e <= EXP_MASK
  {
    u / P52 % 2048
  }

  function FractionOf(u: Bits): (m: nat)
    ensures m < P52
  {
    u % P52
  }

  function Pack(sign: nat, exponent: nat, mantissa: nat): (u: Bits)
    requires sign <= 1 && exponent <= EXP_MASK
    ensures SignOf(u) == sign && ExponentOf(u) == exponent && FractionOf(u) == mantissa % P52
  {
    sign * TWO63 + exponent * P52 + mantissa % P52
  }

  /** Every bit pattern is the packing of its fields. */
  lemma PackFields(u: Bits)
    ensures u == Pack(SignOf(u), ExponentOf(u), FractionOf(u))
    ensures u % TWO63 == ExponentOf(u) * P52 + FractionOf(u)
  {
  }

  predicate IsNaN(u: Bits) { ExponentOf(u) == EXP_MASK && FractionOf(u) != 0 }
  predicate IsInfinite(u: Bits) { ExponentOf(u) == EXP_MASK && FractionOf(u) == 0 }
  predicate IsFinite(u: Bits) { ExponentOf(u) != EXP_MASK }
  predicate IsZero(u: Bits) { ExponentOf(u) == 0 && FractionOf(u) == 0 }

  /** |u| in units of 2^-1074. */
  function Magnitude(u: Bits): nat {
    if ExponentOf(u) == 0 then FractionOf(u)
    else (P52 + FractionOf(u)) * Pow2(ExponentOf(u) - 1)
  }

  function SignedValue(u: Bits): int {
    if SignOf(u) == 1 then 0 - Magnitude(u) else Magnitude(u)
  }

  lemma MagnitudeZero(u: Bits)
    ensures Magnitude(u) == 0 <==> IsZero(u)
  {
    if ExponentOf(u) != 0 {
      MulLower(1, P52 + FractionOf(u), Pow2(ExponentOf(u) - 1), 1);
    }
  }

  lemma MagnitudeRepresentable(u: Bits)
    ensures Representable(Magnitude(u))
  {
    if ExponentOf(u) == 0 {
      assert Scaled(Magnitude(u), FractionOf(u), 0);
    } else {
      assert Scaled(Magnitude(u), P52 + FractionOf(u), ExponentOf(u) - 1);
    }
  }

  // ----- order: the low 63 bits are ordered as the magnitudes are -----

  lemma MagnitudeUpper(u: Bits)
    ensures Magnitude(u) < P53 * Pow2(if ExponentOf(u) == 0 then 0 else ExponentOf(u) - 1)
    ensures ExponentOf(u) == 0 ==> Magnitude(u) < P52
  {
    if ExponentOf(u) != 0 {
      ScaleBound(P52 + FractionOf(u), P53, Pow2(ExponentOf(u) - 1));
    }
  }

  lemma MagnitudeLower(u: Bits)
    requires ExponentOf(u) != 0
    ensures Magnitude(u) >= P52 * Pow2(ExponentOf(u) - 1) >= P52
  {
    MulLower(P52, P52 + FractionOf(u), Pow2(ExponentOf(u) - 1), Pow2(ExponentOf(u) - 1));
    MulLower(P52, P52, Pow2(ExponentOf(u) - 1), 1);
  }

  lemma MagnitudeStrictlyMonotone(u: Bits, v: Bits)
    requires u % TWO63 < v % TWO63
    ensures Magnitude(u) < Magnitude(v)
  {
    PackFields(u);
    PackFields(v);
    if ExponentOf(u) == ExponentOf(v) {
      if ExponentOf(u) != 0 {
        ScaleBound(P52 + FractionOf(u), P52 + FractionOf(v), Pow2(ExponentOf(u) - 1));
      }
    } else {
      LargerExponent(u, v);
    }
  }

  lemma LargerExponent(u: Bits, v: Bits)
    requires ExponentOf(u) < ExponentOf(v)
    ensures Magnitude(u) < Magnitude(v)
  {
    hide Magnitude, ExponentOf, FractionOf, Pow2;
    MagnitudeUpper(u);
    MagnitudeLower(v);
    if ExponentOf(u) != 0 {
      Pow2StrictlyMonotone(ExponentOf(u) - 1, ExponentOf(v) - 1);
      MulLower(P52, P52, Pow2(ExponentOf(v) - 1), 2 * Pow2(ExponentOf(u) - 1));
    }
  }

  lemma SameLowBits(a: Bits, b: Bits)
    requires a % TWO63 == b % TWO63
    ensures Magnitude(a) == Magnitude(b)
    ensures ExponentOf(a) == ExponentOf(b) && FractionOf(a) == FractionOf(b)
  {
    hide Pow2;
    PackFields(a);
    PackFields(b);
  }

  /** Equal sign and magnitude mean equal bits. */
  lemma MagnitudeInjective(u: Bits, v: Bits)
    requires SignOf(u) == SignOf(v) && Magnitude(u) == Magnitude(v)
    ensures u == v
  {
    if u % TWO63 < v % TWO63 {
      MagnitudeStrictlyMonotone(u, v);
    } else if v % TWO63 < u % TWO63 {
      MagnitudeStrictlyMonotone(v, u);
    }
  }

  lemma FiniteBelowOverflow(u: Bits)
    requires IsFinite(u)
    ensures Magnitude(u) < Pow2(OVERFLOW_EXPONENT)
  {
    Pow2Values();
    hide Pow2;
    MagnitudeUpper(u);
    var k := if ExponentOf(u) == 0 then 0 else ExponentOf(u) - 1;
    Pow2Add(53, k);
    Pow2Monotone(53 + k, OVERFLOW_EXPONENT);
  }

  // ----- correct rounding to a bit pattern -----

  /** How a mode treats the magnitude of a number of the given sign. */
  function DirectionOf(rm: RoundingMode, sign: nat): Direction {
    match rm
    case RNE => NearEven
    case RMM => NearAway
    case RTZ => Down
    case RDN => if sign == 1 then Up else Down
    case RUP => if sign == 1 then Down else Up
  }

  /** r encodes the rounded magnitude y, or what section 4.3 of IEEE 754-2019
      delivers when y is beyond the finite range. */
  ghost predicate Delivers(y: nat, sign: nat, d: Direction, r: Bits) {
    && SignOf(r) == sign
    && if y < Pow2(OVERFLOW_EXPONENT) then IsFinite(r) && Magnitude(r) == y
       else if d == Down then r % TWO63 == INFINITY - 1
       else IsInfinite(r)
  }

  /** r is the exact number (-1)^sign * x, x >= 0, correctly rounded by mode rm. */
  ghost predicate RoundsTo(x: real, sign: nat, rm: RoundingMode, r: Bits) {
    exists y: nat :: Rounds(x, y, DirectionOf(rm, sign)) && Delivers(y, sign, DirectionOf(rm, sign), r)
  }

  /** Correct rounding determines every bit of the result. */
  lemma RoundsToUnique(x: real, sign: nat, rm: RoundingMode, r1: Bits, r2: Bits)
    requires RoundsTo(x, sign, rm, r1) && RoundsTo(x, sign, rm, r2)
    ensures r1 == r2
  {
    var d := DirectionOf(rm, sign);
    var y1: nat :| Rounds(x, y1, d) && Delivers(y1, sign, d, r1);
    var y2: nat :| Rounds(x, y2, d) && Delivers(y2, sign, d, r2);
    hide Rounds, Pow2;
    RoundsUnique(x, y1, y2, d);
    if y1 < Pow2(OVERFLOW_EXPONENT) {
      MagnitudeInjective(r1, r2);
    } else {
      PackFields(r1);
      PackFields(r2);
    }
  }

  /** A finite number rounds to itself in every mode. */
  lemma RoundsToExact(u: Bits, rm: RoundingMode)
    requires IsFinite(u)
    ensures RoundsTo(Magnitude(u) as real, SignOf(u), rm, u)
  {
    var d := DirectionOf(rm, SignOf(u));
    FiniteBelowOverflow(u);
    MagnitudeRepresentable(u);
    RoundsExact(Magnitude(u), d);
    assert Delivers(Magnitude(u), SignOf(u), d, u);
  }

  /** The significand with its implicit bit, and the exponent it goes with. */
  function Significand(u: Bits): (m: nat)
    ensures m < P53
  {
    if ExponentOf(u) == 0 then FractionOf(u) else P52 + FractionOf(u)
  }

  function EffectiveExponent(u: Bits): (e: nat)
    ensures e >= 1
  {
    if ExponentOf(u) == 0 then 1 else ExponentOf(u)
  }

  lemma MagnitudeFactors(u: Bits)
    ensures Magnitude(u) == Significand(u) * Pow2(EffectiveExponent(u) - 1)
  {
    Exp2Zero();
    hide Pow2;
  }

  lemma MagnitudeAsExp2(u: Bits)
    ensures Magnitude(u) as real == (Significand(u) as real) * Exp2(EffectiveExponent(u) - 1)
  {
    hide *;
    MagnitudeFactors(u);
    Exp2Nat(EffectiveExponent(u) - 1);
    CastProduct(Significand(u), Pow2(EffectiveExponent(u) - 1));
  }

  lemma CastProduct(a: int, b: int)
    ensures (a * b) as real == (a as real) * (b as real)
  {
  }

  lemma NatProductScales(w: nat, v: nat, n: nat)
    requires w == v * Pow2(n)
    ensures IsScaled(w as real, v as real, n)
  {
    CastProduct(v, Pow2(n));
    hide Pow2, IsScaled;
    ScaleNatOf(w as real, v as real, n);
  }

  lemma ZeroRoundsToZero(sign: nat, rm: RoundingMode)
    requires sign <= 1
    ensures RoundsTo(0.0, sign, rm, Pack(sign, 0, 0))
  {
    RoundsToExact(Pack(sign, 0, 0), rm);
    assert Magnitude(Pack(sign, 0, 0)) == 0;
  }
}
