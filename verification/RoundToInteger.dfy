/** rint_sf64 of libm.c and the functions built on it. */
module RoundToInteger {
  import opened MachineWords
  import opened PowersOfTwo
  import opened Rounding
  import opened Binary64
  import opened StickyBits

  datatype RintMode = TowardZero | Downward | Upward | HalfAway | HalfUp

  /** K is the integer that z/u rounds to: trunc, floor, ceil, round half away
      from zero, and floor(z/u + 1/2). */
  ghost predicate IsIntegerOf(z: int, u: nat, k: int, mode: RintMode) {
    match mode
    case Downward => k * u <= z < k * u + u
    case Upward => k * u - u < z <= k * u
    case TowardZero => if z >= 0 then k * u <= z < k * u + u else k * u - u < z <= k * u
    case HalfUp => 2 * (k * u) - u <= 2 * z < 2 * (k * u) + u
    case HalfAway => if z >= 0 then 2 * (k * u) - u <= 2 * z < 2 * (k * u) + u
                     else 2 * (k * u) - u < 2 * z <= 2 * (k * u) + u
  }

  /** 1.0 in units of 2^-1074. */
  const UNIT_EXPONENT: nat := 1074

  /** r is the finite number a rounded to an integer, with the sign kept. */
  ghost predicate IsRint(a: Bits, mode: RintMode, r: Bits) {
    && SignOf(r) == SignOf(a) && IsFinite(r)
    && exists k: int :: SignedValue(r) == k * Pow2(UNIT_EXPONENT)
                     && IsIntegerOf(SignedValue(a), Pow2(UNIT_EXPONENT), k, mode)
  }

  /** The addend below the binary point, for |a| >= 1. */
  function MaskAddend(mode: RintMode, s: nat, one: nat): int {
    match mode
    case HalfUp => one / 2 - s
    case HalfAway => one / 2
    case TowardZero => 0
    case Upward => if s == 0 then one - 1 else 0
    case Downward => if s == 1 then one - 1 else 0
  }

  /** Whether a fraction 0 < |a| < 1 becomes 1 in magnitude. */
  predicate FractionGoesUp(mode: RintMode, s: nat, atLeastHalf: bool, notPowerOfTwo: bool) {
    match mode
    case Upward => s == 0
    case Downward => s == 1
    case HalfAway => atLeastHalf
    case HalfUp => atLeastHalf && (notPowerOfTwo || s == 0)
    case TowardZero => false
  }

  method RintSf64(a: Bits, rm: RintMode) returns (r: Bits)
    ensures if IsFinite(a) then IsRint(a, rm, r) else r == a
  {
    hide Pow2, IsRint, ExponentOf, FractionOf, SignOf, Magnitude, Mod;
    var u := a;
    var e := ExponentOf(u) - 1023;
    var s := SignOf(u);
    if e < 0 {
      var m := FractionOf(u);
      if e == -1023 && m == 0 {
        ZeroIsInteger(a, rm);
      } else {
        var one := 1023 * P52;
        u := 0;
        match rm {
          case Upward => if s == 0 { u := one; }
          case Downward => if s == 1 { u := one; }
          case HalfAway => if e == -1 { u := one; }
          case HalfUp => if e == -1 && (m != 0 || s == 0) { u := one; }
          case TowardZero =>
        }
        u := u + s * TWO63;
        FractionIsRounded(a, rm, u);
      }
    } else if e < 52 {
      var one := Pow2(52 - e);
      OneDivides(e, one);
      var addend := 0;
      match rm {
        case HalfUp => addend := one / 2 - s;
        case HalfAway => addend := one / 2;
        case TowardZero =>
        case Upward => if s == 0 { addend := one - 1; }
        case Downward => if s == 1 { addend := one - 1; }
      }
      AddAndMask(a, rm, e, one, addend, u + addend - Mod(u + addend, one));
      u := u + addend;
      u := u - Mod(u, one);
    } else {
      LargeIsInteger(a, rm);
    }
    r := u;
  }

  lemma RintIntro(a: Bits, mode: RintMode, r: Bits, k: int)
    requires SignOf(r) == SignOf(a) && IsFinite(r)
    requires SignedValue(r) == k * Pow2(UNIT_EXPONENT)
    requires IsIntegerOf(SignedValue(a), Pow2(UNIT_EXPONENT), k, mode)
    ensures IsRint(a, mode, r)
  {
  }

  lemma ZeroIsInteger(a: Bits, mode: RintMode)
    requires IsZero(a)
    ensures IsRint(a, mode, a)
  {
    MagnitudeZero(a);
    hide Magnitude, Pow2, IsRint;
    assert 0 * Pow2(UNIT_EXPONENT) == 0;
    RintIntro(a, mode, a, 0);
  }

  /** |a| < 1: compared with one half through the exponent field. */
  lemma FractionIsRounded(a: Bits, mode: RintMode, r: Bits)
    requires ExponentOf(a) < 1023 && !IsZero(a)
    requires r == SignOf(a) * TWO63 +
                  (if FractionGoesUp(mode, SignOf(a), ExponentOf(a) == 1022, FractionOf(a) != 0) then 1023 * P52 else 0)
    ensures IsRint(a, mode, r)
  {
    hide Pow2, Magnitude, SignedValue, IsRint, IsIntegerOf, ExponentOf, FractionOf, SignOf, FractionGoesUp;
    var s := SignOf(a);
    OneBits(s);
    var u := Pow2(UNIT_EXPONENT);
    CompareWithHalf(a, u);
    MagnitudeZero(a);
    var half, above := ExponentOf(a) == 1022, FractionOf(a) != 0;
    var up := FractionGoesUp(mode, s, half, above);
    var k := if !up then 0 else if s == 1 then -1 else 1;
    FractionCases(mode, s, Magnitude(a), u, half, above, k);
    SignedValueOf(r);
    SignedValueOf(a);
    SmallMultiples(u);
    hide *;
    RintIntro(a, mode, r, k);
  }

  lemma SignedValueOf(a: Bits)
    ensures SignedValue(a) == if SignOf(a) == 1 then 0 - Magnitude(a) else Magnitude(a)
  {
    hide Magnitude;
  }

  lemma SmallMultiples(u: int)
    ensures 0 * u == 0 && 1 * u == u && -1 * u == 0 - u
  {
  }

  lemma FractionCases(mode: RintMode, s: nat, m: nat, u: nat, half: bool, above: bool, k: int)
    requires 0 < m < u && s <= 1
    requires half ==> 2 * m >= u && (2 * m == u <==> !above)
    requires !half ==> 2 * m < u
    requires k == if !FractionGoesUp(mode, s, half, above) then 0 else if s == 1 then -1 else 1
    ensures IsIntegerOf(if s == 1 then 0 - m else m, u, k, mode)
  {
    SmallMultiples(u);
  }

  lemma OneBits(s: nat)
    requires s <= 1
    ensures var r := s * TWO63 + 1023 * P52;
            r < TWO64 && SignOf(r) == s && IsFinite(r) && Magnitude(r) == Pow2(UNIT_EXPONENT)
    ensures var z := s * TWO63;
            z < TWO64 && SignOf(z) == s && IsFinite(z) && Magnitude(z) == 0
  {
    hide Pow2;
    Pow2Values();
    Pow2Add(52, 1022);
    OneFields(s);
  }

  lemma OneFields(s: nat)
    requires s <= 1
    ensures SignOf(s * TWO63 + 1023 * P52) == s && ExponentOf(s * TWO63 + 1023 * P52) == 1023
    ensures FractionOf(s * TWO63 + 1023 * P52) == 0
    ensures SignOf(s * TWO63) == s && ExponentOf(s * TWO63) == 0 && FractionOf(s * TWO63) == 0
  {
  }

  lemma CompareWithHalf(a: Bits, u: nat)
    requires ExponentOf(a) < 1023 && u == Pow2(UNIT_EXPONENT)
    ensures Magnitude(a) < u
    ensures ExponentOf(a) == 1022 ==> 2 * Magnitude(a) >= u && (2 * Magnitude(a) == u <==> FractionOf(a) == 0)
    ensures ExponentOf(a) < 1022 ==> 2 * Magnitude(a) < u
  {
    hide Pow2, Magnitude, ExponentOf, FractionOf;
    var e := ExponentOf(a);
    var k := if e == 0 then 0 else e - 1;
    MagnitudeUpper(a);
    Pow2Values();
    Pow2Add(53, k);
    Pow2Add(53, 1021);
    Pow2Succ(1073);
    Pow2Monotone(k, 1021);
    if e < 1022 {
      Pow2Monotone(53 + k, 1073);
    } else {
      HalfProduct(FractionOf(a), Pow2(1021));
      MagnitudeFactors(a);
    }
  }

  lemma HalfProduct(f: nat, g: nat)
    requires g > 0
    ensures 2 * ((P52 + f) * g) >= P53 * g
    ensures 2 * ((P52 + f) * g) == P53 * g <==> f == 0
  {
    assert (P52 + f) * g == P52 * g + f * g;
    if f > 0 {
      MulLower(1, f, g, 1);
    }
  }

  /** 1 <= |a| < 2^52: adding below the binary point and masking, with the
      carry running into the exponent field. */
  lemma AddAndMask(a: Bits, mode: RintMode, e: nat, one: nat, addend: nat, r: int)
    requires e < 52 && ExponentOf(a) == e + 1023 && one == Pow2(52 - e)
    requires addend == MaskAddend(mode, SignOf(a), one)
    requires r == a + addend - Mod(a + addend, one)
    ensures a + addend < TWO64 && 0 <= r < TWO64
    ensures IsRint(a, mode, r)
  {
    hide Pow2, IsRint, Div, Mod, ExponentOf, FractionOf, SignOf, Magnitude, MaskAddend;
    var m := P52 + FractionOf(a);
    OneDivides(e, one);
    var q := Div(m + addend, one);
    DivMod(m + addend, one);
    ModBelow(m + addend, one);
    MaskAddendBound(mode, SignOf(a), one);
    MaskedQuotient(m, one, addend, q, e);
    MaskBits(a, e, one, addend, m, q);
    MaskedFits(SignOf(a), e, q * one, r);
    var g := Pow2(e + 1022);
    MaskedMagnitude(a, r, e, m, q * one, g);
    MaskedRounds(a, mode, e, one, addend, m, q, g, r);
  }

  lemma MaskedFits(s: nat, e: nat, n: nat, r: int)
    requires s <= 1 && e < 52 && n <= P53 && r == s * TWO63 + (e + 1022) * P52 + n
    ensures 0 <= r < TWO64
  {
  }

  lemma ModBelow(a: nat, p: nat)
    requires p > 0
    ensures Mod(a, p) < p
  {
  }

  lemma MaskAddendBound(mode: RintMode, s: nat, one: nat)
    requires one >= 2 && s <= 1
    ensures 0 <= MaskAddend(mode, s, one) < one
  {
  }

  lemma MaskedQuotient(m: nat, one: nat, addend: nat, q: nat, e: nat)
    requires P52 <= m < P53 && 0 < one && addend < one && P52 == Pow2(e) * one
    requires q * one <= m + addend < q * one + one
    ensures P52 <= q * one <= P53
  {
    var p := Pow2(e);
    hide *;
    NextGridPoint(q, one);
    NextGridPoint(2 * p, one);
    DoubleGrid(p, one);
    MaskedAbove(p, one, q);
    MaskedBelow(2 * p, one, q);
  }

  lemma DoubleGrid(p: nat, one: nat)
    requires P52 == p * one
    ensures (2 * p) * one == P53
  {
    assert (2 * p) * one == 2 * (p * one);
  }

  lemma MaskedAbove(p: nat, one: nat, q: nat)
    requires q < p ==> (q + 1) * one > p * one
    ensures q * one >= p * one
  {
    hide *;
    if q < p {
      MulLower(q + 1, p, one, one);
    } else {
      MulLower(p, q, one, one);
    }
  }

  lemma MaskedBelow(p: nat, one: nat, q: nat)
    requires q > p ==> q * one < (p + 1) * one
    ensures q * one <= p * one
  {
    hide *;
    if q > p {
      MulLower(p + 1, q, one, one);
    } else {
      MulLower(q, p, one, one);
    }
  }

  lemma OneDivides(e: nat, one: nat)
    requires e < 52 && one == Pow2(52 - e)
    ensures one >= 2 && one % 2 == 0 && one <= P52
    ensures P52 == Pow2(e) * one && one * Pow2(e + 1022) == Pow2(UNIT_EXPONENT)
  {
    Pow2Values();
    hide Pow2;
    Pow2Succ(51 - e);
    Pow2Add(e, 52 - e);
    Pow2Add(52 - e, e + 1022);
    Pow2Monotone(1, 52 - e);
    Pow2Monotone(52 - e, 52);
  }

  /** Masking the raw bits masks the significand. */
  lemma MaskBits(a: Bits, e: nat, one: nat, addend: nat, m: nat, q: nat)
    requires e < 52 && ExponentOf(a) == e + 1023 && m == P52 + FractionOf(a)
    requires 0 < one <= P52 && P52 == Pow2(e) * one && addend < one
    requires q * one <= m + addend < q * one + one
    ensures a + addend < TWO64
    ensures (a + addend) - Mod(a + addend, one) == SignOf(a) * TWO63 + (e + 1022) * P52 + q * one
  {
    PackFields(a);
    var base := SignOf(a) * 2048 + (e + 1022);
    var p := Pow2(e);
    hide Pow2, ExponentOf, FractionOf, SignOf;
    assert a + addend == base * P52 + (m + addend);
    MulAssocInt(base, p, one);
    var n := (base * p + q);
    assert n * one == base * P52 + q * one;
    DivModUnique(a + addend, one, n, (m + addend) - q * one);
  }

  lemma MaskedMagnitude(a: Bits, r: Bits, e: nat, m: nat, n: nat, g: nat)
    requires e < 52 && ExponentOf(a) == e + 1023 && m == P52 + FractionOf(a) && g == Pow2(e + 1022)
    requires P52 <= n <= P53 && r == SignOf(a) * TWO63 + (e + 1022) * P52 + n
    ensures SignOf(r) == SignOf(a) && IsFinite(r)
    ensures Magnitude(a) == m * g && Magnitude(r) == n * g
  {
    MaskedFields(SignOf(a), r, e, n);
    Pow2Succ(e + 1022);
    hide Pow2, Magnitude, ExponentOf, FractionOf, SignOf;
    NormalMagnitude(a, m, e + 1022);
    if n == P53 {
      NormalMagnitude(r, P52, e + 1023);
      assert P52 * (2 * g) == P53 * g;
    } else {
      NormalMagnitude(r, n, e + 1022);
    }
  }

  lemma NormalMagnitude(u: Bits, m: nat, k: nat)
    requires ExponentOf(u) == k + 1 && m == P52 + FractionOf(u)
    ensures Magnitude(u) == m * Pow2(k)
  {
    hide Pow2, ExponentOf, FractionOf;
  }

  /** A carry out of the fraction runs into the exponent. */
  lemma MaskedFields(sign: nat, r: Bits, e: nat, n: nat)
    requires sign <= 1 && e < 52 && P52 <= n <= P53 && r == sign * TWO63 + (e + 1022) * P52 + n
    ensures SignOf(r) == sign
    ensures ExponentOf(r) == (if n == P53 then e + 1024 else e + 1023)
    ensures FractionOf(r) == if n == P53 then 0 else n - P52
  {
  }

  lemma MaskedRounds(a: Bits, mode: RintMode, e: nat, one: nat, addend: nat, m: nat, q: nat, g: nat, r: Bits)
    requires one >= 2 && one % 2 == 0 && g > 0 && one * g == Pow2(UNIT_EXPONENT)
    requires SignOf(r) == SignOf(a) && IsFinite(r)
    requires Magnitude(a) == m * g && Magnitude(r) == (q * one) * g
    requires q * one <= m + addend < q * one + one && m > 0
    requires addend == MaskAddend(mode, SignOf(a), one)
    ensures IsRint(a, mode, r)
  {
    hide Pow2, Magnitude, IsRint;
    var neg := SignOf(a) == 1;
    var k, z := if neg then 0 - q else q, if neg then 0 - m else m;
    NegateProduct(q, one);
    NegateProduct(m, g);
    NegateProduct(q, Pow2(UNIT_EXPONENT));
    assert IsIntegerOf(z, one, k, mode);
    MulAssocInt(q, one, g);
    IntegerOfScale(z, one, k, mode, g);
    RintIntro(a, mode, r, k);
  }

  lemma NegateProduct(a: int, b: int)
    ensures (0 - a) * b == 0 - a * b
  {
  }

  lemma IntegerOfScale(z: int, u: nat, k: int, mode: RintMode, g: nat)
    requires g > 0 && IsIntegerOf(z, u, k, mode)
    ensures IsIntegerOf(z * g, u * g, k, mode)
  {
    var n := k * u;
    MulAssocInt(k, u, g);
    ScaleOrderInt(n, z, g);
    ScaleOrderInt(z, n + u, g);
    ScaleOrderInt(n - u, z, g);
    ScaleOrderInt(2 * n - u, 2 * z, g);
    ScaleOrderInt(2 * z, 2 * n + u, g);
    ScaleOrderInt(0, z, g);
    DistributeScale(n, u, z, g);
  }

  lemma DistributeScale(n: int, u: int, z: int, g: int)
    ensures (n + u) * g == n * g + u * g && (n - u) * g == n * g - u * g
    ensures (2 * n - u) * g == 2 * (n * g) - u * g && (2 * n + u) * g == 2 * (n * g) + u * g
    ensures (2 * z) * g == 2 * (z * g)
  {
  }

  lemma ScaleOrderInt(a: int, b: int, g: nat)
    requires g > 0
    ensures a < b <==> a * g < b * g
    ensures a <= b <==> a * g <= b * g
  {
    if a < b {
      ScaleBound(a, b, g);
    } else if b < a {
      ScaleBound(b, a, g);
    }
  }

  /** |a| >= 2^52: already an integer. */
  lemma LargeIsInteger(a: Bits, mode: RintMode)
    requires ExponentOf(a) >= 1075
    ensures IsFinite(a) ==> IsRint(a, mode, a)
  {
    if IsFinite(a) {
      var q := (P52 + FractionOf(a)) * Pow2(ExponentOf(a) - 1075);
      var u := Pow2(UNIT_EXPONENT);
      LargeMagnitude(a, q, u);
      hide *;
      var k: int := if SignOf(a) == 1 then 0 - q else q;
      NegateProduct(q, u);
      RintIntro(a, mode, a, k);
    }
  }

  lemma LargeMagnitude(a: Bits, q: nat, u: nat)
    requires ExponentOf(a) >= 1075 && IsFinite(a)
    requires q == (P52 + FractionOf(a)) * Pow2(ExponentOf(a) - 1075) && u == Pow2(UNIT_EXPONENT)
    ensures Magnitude(a) == q * u
  {
    var e := ExponentOf(a);
    Pow2Add(e - 1075, UNIT_EXPONENT);
    hide Pow2;
    MulAssocInt(P52 + FractionOf(a), Pow2(e - 1075), u);
  }

  // ----- the functions of Math -----

  method JsFloor(x: Bits) returns (r: Bits)
    ensures if IsFinite(x) then IsRint(x, Downward, r) else r == x
  {
    r := RintSf64(x, Downward);
  }

  method JsCeil(x: Bits) returns (r: Bits)
    ensures if IsFinite(x) then IsRint(x, Upward, r) else r == x
  {
    r := RintSf64(x, Upward);
  }

  method JsTrunc(x: Bits) returns (r: Bits)
    ensures if IsFinite(x) then IsRint(x, TowardZero, r) else r == x
  {
    r := RintSf64(x, TowardZero);
  }

  method JsRoundInf(x: Bits) returns (r: Bits)
    ensures if IsFinite(x) then IsRint(x, HalfUp, r) else r == x
  {
    r := RintSf64(x, HalfUp);
  }

  /** The rounded integer, hence the result, is unique. */
  lemma RintUnique(a: Bits, mode: RintMode, r1: Bits, r2: Bits)
    requires IsRint(a, mode, r1) && IsRint(a, mode, r2)
    ensures r1 == r2
  {
    var u := Pow2(UNIT_EXPONENT);
    var k1: int :| SignedValue(r1) == k1 * u && IsIntegerOf(SignedValue(a), u, k1, mode);
    var k2: int :| SignedValue(r2) == k2 * u && IsIntegerOf(SignedValue(a), u, k2, mode);
    hide Pow2, Magnitude;
    if k1 < k2 {
      ScaleBound(k1, k2, u);
    } else if k2 < k1 {
      ScaleBound(k2, k1, u);
    }
    MagnitudeInjective(r1, r2);
  }
}
