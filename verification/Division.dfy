/** divrem_u and div_sf of the soft-float library. */
module Division {
  import opened MachineWords
  import opened PowersOfTwo
  import opened Rounding
  import opened Binary64
  import opened StickyBits
  import opened RoundPack

  /** The state of the shift-and-subtract division of n by b after i of 64
      steps: q is the quotient of the bits consumed so far, a1 its remainder,
      and a0 holds the bits still to come above the quotient bits. */
  ghost predicate DivisionState(n: nat, b: nat, i: nat, a1: nat, a0: nat, q: nat, rest: nat) {
    && i <= 64 && a1 < b
    && q < Pow2(i) && rest < Pow2(64 - i)
    && a0 == rest * Pow2(i) + q
    && n == (q * b + a1) * Pow2(64 - i) + rest
  }

  predicate IsDivision(n: nat, b: nat, q: nat, r: nat) {
    n == q * b + r && r < b
  }

  /** divrem_u: 128 by 64 bit division, one quotient bit per step. */
  method DivremU(high: Bits, low: Bits, b: Bits) returns (q: Bits, r: Bits)
    requires high < b
    ensures IsDivision(high * TWO64 + low, b, q, r)
  {
    hide Pow2;
    var a1: nat, a0: nat := high, low;
    ghost var n: nat, qs: nat, rest: nat := high * TWO64 + low, 0, low;
    DivisionStart(high, low, b);
    for i := 0 to 64
      invariant DivisionState(n, b, i, a1, a0, qs, rest) && a0 < TWO64
    {
      hide DivisionState;
      var carry := a1 / TWO63;
      var bit := a0 / TWO63;
      var qb := 0;
      DivisionStep(n, b, i, a1, a0, qs, rest, bit);
      WideRemainder(a1, b, bit);
      a1 := (a1 * 2) % TWO64 + bit;
      if carry != 0 || a1 >= b {
        a1 := (a1 - b) % TWO64;
        qb := 1;
      }
      a0 := (a0 * 2) % TWO64 + qb;
      qs, rest := 2 * qs + qb, NextRest(rest, bit, i);
    }
    DivisionEnd(n, b, a1, a0, qs, rest);
    q, r := a0, a1;
  }

  /** The comparison on the 65-bit shifted remainder, in 64-bit arithmetic. */
  lemma WideRemainder(a1: nat, b: Bits, bit: nat)
    requires a1 < b && bit <= 1
    ensures var t, u := a1 * 2 + bit, (a1 * 2) % TWO64 + bit;
            && u < TWO64
            && (a1 / TWO63 != 0 || u >= b <==> t >= b)
            && (if t >= b then (u - b) % TWO64 == t - b else u == t)
  {
  }

  ghost function NextRest(rest: nat, bit: nat, i: nat): int
    requires i < 64
  {
    rest - bit * Pow2(63 - i)
  }

  lemma DivisionStart(high: Bits, low: Bits, b: Bits)
    requires high < b
    ensures DivisionState(high * TWO64 + low, b, 0, high, low, 0, low)
  {
    Pow2Values();
    hide Pow2;
  }

  lemma DivisionEnd(n: nat, b: nat, a1: nat, a0: nat, q: nat, rest: nat)
    requires DivisionState(n, b, 64, a1, a0, q, rest)
    ensures a0 == q && n == q * b + a1
  {
    Exp2Zero();
    hide Pow2;
  }

  /** One step, for either value of the next quotient bit: t is the shifted
      remainder, one bit wider than a word. */
  lemma DivisionStep(n: nat, b: nat, i: nat, a1: nat, a0: nat, q: nat, rest: nat, bit: nat)
    requires DivisionState(n, b, i, a1, a0, q, rest) && i < 64 && a0 < TWO64 && b < TWO64 && bit == a0 / TWO63
    ensures bit <= 1 && a1 < b && NextRest(rest, bit, i) >= 0
    ensures var t, low := a1 * 2 + bit, (a0 * 2) % TWO64;
            && low < TWO64 - 1
            && (t < b ==> DivisionState(n, b, i + 1, t, low, 2 * q, NextRest(rest, bit, i)))
            && (t >= b ==> DivisionState(n, b, i + 1, t - b, low + 1, 2 * q + 1, NextRest(rest, bit, i)))
  {
    var p, s := Pow2(i), Pow2(63 - i);
    StepPowers(i);
    hide Pow2;
    TopBit(a0, rest, p, q, s, bit);
    var rest', t := NextRest(rest, bit, i), a1 * 2 + bit;
    ShiftedLow(a0, rest, rest', p, q, s, bit);
    HeadStep(n, q, b, a1, s, rest, rest', bit, t);
  }

  lemma StepPowers(i: nat)
    requires i < 64
    ensures Pow2(i + 1) == 2 * Pow2(i) && Pow2(64 - i) == 2 * Pow2(63 - i)
    ensures Pow2(63 - i) * Pow2(i) == TWO63
  {
    Pow2Values();
    hide Pow2;
    Pow2Succ(i);
    Pow2Succ(63 - i);
    Pow2Add(63 - i, i);
  }

  lemma TopBit(a0: nat, rest: nat, p: nat, q: nat, s: nat, bit: nat)
    requires a0 == rest * p + q && q < p && rest < 2 * s && s * p == TWO63 && a0 < TWO64
    requires bit == a0 / TWO63
    ensures bit <= 1 && bit * s <= rest && rest - bit * s < s
  {
    if rest < s {
      MulLower(rest, s - 1, p, p);
      assert (s - 1) * p == TWO63 - p;
    } else {
      MulLower(s, rest, p, p);
    }
  }

  lemma ShiftedLow(a0: nat, rest: nat, rest': nat, p: nat, q: nat, s: nat, bit: nat)
    requires a0 == rest * p + q && s * p == TWO63 && a0 < TWO64 && bit == a0 / TWO63
    requires rest' == rest - bit * s
    ensures (a0 * 2) % TWO64 == rest' * (2 * p) + 2 * q
  {
    var low := rest' * p;
    assert low == rest * p - bit * TWO63 by {
      MulAssocInt(bit, s, p);
      assert (rest - bit * s) * p == rest * p - (bit * s) * p;
    }
    assert rest' * (2 * p) == 2 * low;
    DoubledLow(a0, low + q, bit);
  }

  lemma DoubledLow(a0: nat, low: int, bit: nat)
    requires a0 == low + bit * TWO63 && a0 < TWO64 && bit == a0 / TWO63
    ensures (a0 * 2) % TWO64 == 2 * low
  {
  }

  lemma HeadStep(n: nat, q: nat, b: nat, a1: nat, s: nat, rest: nat, rest': nat, bit: nat, t: nat)
    requires n == (q * b + a1) * (2 * s) + rest && t == 2 * a1 + bit && rest' == rest - bit * s
    ensures n == ((2 * q) * b + t) * s + rest'
    ensures n == ((2 * q + 1) * b + (t - b)) * s + rest'
  {
    var head := q * b + a1;
    assert (2 * q) * b + t == 2 * head + bit;
    assert (2 * q + 1) * b + (t - b) == 2 * head + bit;
    assert (2 * head + bit) * s == head * (2 * s) + bit * s;
  }

  ghost function RealQuotient(m: nat, n: nat): real
    requires n > 0
  {
    (m as real) / (n as real)
  }

  /** The exact quotient of the magnitudes, in units of 2^-1074. */
  ghost function QuotientMagnitude(a: Bits, b: Bits): real
    requires Magnitude(b) > 0
  {
    ScaleBy(RealQuotient(Magnitude(a), Magnitude(b)), 1074)
  }

  function QuotientSign(a: Bits, b: Bits): (s: nat)
    ensures s <= 1
  {
    if SignOf(a) == SignOf(b) then 0 else 1
  }

  /** r is the quotient a / b as IEEE 754-2019 defines it. */
  ghost predicate IsQuotient(a: Bits, b: Bits, rm: RoundingMode, r: Bits) {
    MagnitudeZero(b);
    var sign := QuotientSign(a, b);
    if IsNaN(a) || IsNaN(b) then r == QNAN
    else if IsInfinite(a) then r == if IsInfinite(b) then QNAN else Pack(sign, EXP_MASK, 0)
    else if IsInfinite(b) then r == Pack(sign, 0, 0)
    else if IsZero(b) then r == if IsZero(a) then QNAN else Pack(sign, EXP_MASK, 0)
    else RoundsTo(QuotientMagnitude(a, b), sign, rm, r)
  }

  method DivSf(a: Bits, b: Bits, rm: RoundingMode) returns (r: Bits)
    ensures IsQuotient(a, b, rm, r)
  {
    hide Pow2, Exp2, IsScaled, SignOf, ExponentOf, FractionOf, Magnitude;
    hide Agree, RoundsTo, QuotientMagnitude, Normalized, QuotientSign;
    MagnitudeZero(b);
    var rSign := QuotientSign(a, b);
    var aExp: int, bExp: int := ExponentOf(a), ExponentOf(b);
    var aMant, bMant := FractionOf(a), FractionOf(b);
    if aExp == EXP_MASK {
      if aMant != 0 || IsNaN(b) {
        return QNAN;
      } else if bExp == EXP_MASK {
        return QNAN;
      } else {
        return PackSigned(rSign, EXP_MASK);
      }
    } else if bExp == EXP_MASK {
      if bMant != 0 {
        return QNAN;
      } else {
        return PackSigned(rSign, 0);
      }
    }
    if bExp == 0 {
      if bMant == 0 {
        if aExp == 0 && aMant == 0 {
          return QNAN;
        } else {
          return PackSigned(rSign, EXP_MASK);
        }
      }
      bExp, bMant := NormalizeSubnormalSf(bMant);
      NormalizedSubnormal(b, bExp, bMant);
    } else {
      bMant := bMant + P52;
      NormalizedNormal(b);
    }
    if aExp == 0 {
      if aMant == 0 {
        r := PackSigned(rSign, 0);
        ZeroQuotientRounds(a, b, rSign, rm);
        return;
      }
      aExp, aMant := NormalizeSubnormalSf(aMant);
      NormalizedSubnormal(a, aExp, aMant);
    } else {
      aMant := aMant + P52;
      NormalizedNormal(a);
    }
    var rExp := aExp - bExp + 1024 - 1;
    var rMant, rem := DivremU(aMant, 0, bMant * 4);
    ghost var v := QuotientSignificand(a, b, aExp, aMant, bExp, bMant, rMant, rem);
    if rem != 0 {
      rMant := OrBit0(rMant, true);
    }
    r := NormalizeSf(rSign, rExp, rMant, rm, v, QuotientMagnitude(a, b));
  }

  function PackSigned(sign: nat, exponent: nat): Bits
    requires sign <= 1 && exponent <= EXP_MASK
  {
    Pack(sign, exponent, 0)
  }

  lemma ZeroQuotientRounds(a: Bits, b: Bits, sign: nat, rm: RoundingMode)
    requires sign <= 1 && IsZero(a) && Magnitude(b) > 0
    ensures RoundsTo(QuotientMagnitude(a, b), sign, rm, PackSigned(sign, 0))
  {
    hide Magnitude, RoundsTo, Exp2;
    MagnitudeZero(a);
    assert QuotientMagnitude(a, b) == 0.0;
    ZeroRoundsToZero(sign, rm);
  }

  /** The quotient with "remainder nonzero" as its sticky bit agrees with the
      exact quotient. */
  lemma QuotientSignificand(a: Bits, b: Bits, ea: int, ma: nat, eb: int, mb: nat, q: Bits, rem: Bits)
    returns (v: real)
    requires Normalized(a, ea, ma) && Normalized(b, eb, mb) && Magnitude(b) > 0
    requires ma * TWO64 == q * (mb * 4) + rem && rem < mb * 4
    ensures Agree(v, OrBit0(q, rem != 0), 2)
    ensures 0x40_0000_0000_0000 <= OrBit0(q, rem != 0) < TWO63
    ensures IsScaled(QuotientMagnitude(a, b), v, ea - eb + 1023 - 11)
  {
    hide Magnitude, Exp2, Pow2;
    var m := mb * 4;
    v := RealQuotient(ma * TWO64, m);
    QuotientBounds(ma, mb, q, rem);
    assert Agree(v, OrBit0(q, rem != 0), 2) by {
      QuotientFloor(ma * TWO64, m, q, rem, v);
      hide Agree;
      AgreeFloor(v, q, rem != 0);
    }
    QuotientScale(ma, mb, v);
    MagnitudesScale(a, ea, ma, b, eb, mb);
    QuotientChain(QuotientMagnitude(a, b), RealQuotient(Magnitude(a), Magnitude(b)), RealQuotient(ma, mb), v, ea - eb);
  }

  lemma QuotientChain(r: real, x: real, y: real, v: real, e: int)
    requires IsScaled(r, x, 1074) && IsScaled(x, y, e) && IsScaled(v, y, 62)
    ensures IsScaled(r, v, e + 1012)
  {
    hide IsScaled;
    ScaleInverse(v, y, 62);
    ScaleTrans(r, x, y, 1074, e);
    ScaleTrans(r, y, v, 1074 + e, -62);
  }

  lemma QuotientBounds(ma: nat, mb: nat, q: nat, rem: nat)
    requires P52 <= ma < P53 && P52 <= mb < P53
    requires ma * TWO64 == q * (mb * 4) + rem && rem < mb * 4
    ensures 0x40_0000_0000_0000 <= q && q + 1 < TWO63
  {
    if q < 0x40_0000_0000_0000 {
      MulLower(q, 0x40_0000_0000_0000, P53 * 4, mb * 4);
    }
    if q + 1 >= TWO63 {
      MulLower(TWO63 - 1, q, mb * 4, P52 * 4);
    }
  }

  lemma LargerFactor(v: real, q: real, y: real, x: real, low: real)
    requires y > 0.0 && v < q && v * y == x && q * y == low
    ensures x < low
  {
    hide *;
    var gap := q - v;
    assert gap * y > 0.0;
    assert gap * y == q * y - v * y;
  }

  /** A product comparison carries over to the factors. */
  lemma CompareFactors(v: real, q: real, y: real, x: real, low: real)
    requires y > 0.0 && v * y == x && q * y == low
    ensures v < q <==> x < low
  {
    hide *;
    if v < q {
      LargerFactor(v, q, y, x, low);
    } else if q < v {
      LargerFactor(q, v, y, low, x);
    }
  }

  lemma RealDivisionFloor(v: real, x: real, y: real, q: real, rem: real, low: real)
    requires y > 0.0 && v * y == x && q * y == low && x == low + rem && 0.0 <= rem < y
    ensures if rem != 0.0 then q < v < q + 1.0 else v == q
  {
    hide *;
    CompareFactors(v, q, y, x, low);
    CompareFactors(q, v, y, low, x);
    assert (q + 1.0) * y == low + y;
    CompareFactors(v, q + 1.0, y, x, low + y);
  }

  /** Integer quotient and remainder locate the real quotient. */
  lemma QuotientFloor(n: nat, m: nat, q: nat, rem: nat, v: real)
    requires m > 0 && v == RealQuotient(n, m) && n == q * m + rem && rem < m
    ensures if rem != 0 then q as real < v < (q + 1) as real else v == q as real
  {
    assert v * (m as real) == n as real;
    hide *;
    CastProduct(q, m);
    assert n as real == (q * m) as real + rem as real;
    RealDivisionFloor(v, n as real, m as real, q as real, rem as real, (q * m) as real);
  }

  lemma QuotientScale(ma: nat, mb: nat, v: real)
    requires mb > 0 && v == RealQuotient(ma * TWO64, mb * 4)
    ensures IsScaled(v, RealQuotient(ma, mb), 62)
  {
    Pow2Values();
    Exp2Nat(62);
    hide Pow2, Exp2;
    var y := RealQuotient(ma, mb);
    assert y * (mb as real) == ma as real;
    assert (ma * TWO64) as real == (y * 4611686018427387904.0) * ((mb * 4) as real);
    DivideProduct((ma * TWO64) as real, y * 4611686018427387904.0, (mb * 4) as real);
  }

  lemma MagnitudesScale(a: Bits, ea: int, ma: nat, b: Bits, eb: int, mb: nat)
    requires Normalized(a, ea, ma) && Normalized(b, eb, mb) && Magnitude(b) > 0
    ensures IsScaled(RealQuotient(Magnitude(a), Magnitude(b)), RealQuotient(ma, mb), ea - eb)
    ensures IsScaled(QuotientMagnitude(a, b), RealQuotient(Magnitude(a), Magnitude(b)), 1074)
  {
    hide Exp2, Magnitude, IsScaled;
    ScaleQuotient(Magnitude(a) as real, ma as real, ea - 1, Magnitude(b) as real, mb as real, eb - 1);
  }
}
