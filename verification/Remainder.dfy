/** fmod_sf of the soft-float library. */
module Remainder {
  import opened MachineWords
  import opened PowersOfTwo
  import opened Rounding
  import opened Binary64
  import opened StickyBits
  import opened RoundPack

  /** r is the exact remainder of a by b with the sign of a
      (Number::remainder, section 6.1.6.1.6 of ECMA-262 2023). */
  ghost predicate IsRemainder(a: Bits, b: Bits, r: Bits) {
    MagnitudeZero(b);
    if IsZero(b) || !IsFinite(a) || IsNaN(b) then r == QNAN
    else if IsInfinite(b) then r == a
    else SignOf(r) == SignOf(a) && IsFinite(r) && Magnitude(r) == Magnitude(a) % Magnitude(b)
  }

  /** m * 2^n reduced modulo b, one doubling at a time. */
  ghost predicate IsReduced(m: nat, n: nat, b: nat, r: nat) {
    r < b && r == Mod(m * Pow2(n), b)
  }

  method FmodSf(a: Bits, b: Bits) returns (r: Bits)
    ensures IsRemainder(a, b, r)
  {
    hide Pow2, Exp2, IsScaled, SignOf, ExponentOf, FractionOf, Magnitude;
    hide RoundsTo, Normalized, IsReduced, IsRemainder, Representable, Mod;
    var aAbs, bAbs := a % TWO63, b % TWO63;
    SpecialRemainder(a, b);
    if bAbs == 0 || aAbs >= INFINITY || bAbs > INFINITY {
      return QNAN;
    }
    if aAbs < bAbs {
      return a;
    } else if aAbs == bAbs {
      return a - aAbs;
    }
    var aSign, aExp: int, bExp: int := SignOf(a), ExponentOf(a), ExponentOf(b);
    var aMant: nat, bMant: nat := FractionOf(a), FractionOf(b);
    if aExp == 0 {
      aExp, aMant := NormalizeSubnormalSf(aMant);
      NormalizedSubnormal(a, aExp, aMant);
    } else {
      aMant := aMant + P52;
      NormalizedNormal(a);
    }
    if bExp == 0 {
      bExp, bMant := NormalizeSubnormalSf(bMant);
      NormalizedSubnormal(b, bExp, bMant);
    } else {
      bMant := bMant + P52;
      NormalizedNormal(b);
    }
    LargerExponentFirst(a, aExp, aMant, b, bExp, bMant);
    var n := aExp - bExp;
    ghost var m0, n0 := aMant, n;
    if aMant >= bMant {
      aMant := aMant - bMant;
    }
    ReduceStart(m0, bMant, aMant);
    while n != 0
      invariant 0 <= n <= n0 && IsReduced(m0, n0 - n, bMant, aMant)
      decreases n
    {
      ReduceStep(m0, n0 - n, bMant, aMant);
      aMant := aMant * 2;
      if aMant >= bMant {
        aMant := aMant - bMant;
      }
      n := n - 1;
    }
    ghost var x := RemainderValue(a, aExp, m0, b, bExp, bMant, aMant);
    r := NormalizeSf(aSign, bExp, aMant * 1024, RNE, (aMant * 1024) as real, x);
    RemainderExact(a, b, aSign, x, r);
  }

  lemma SpecialRemainder(a: Bits, b: Bits)
    ensures b % TWO63 == 0 || a % TWO63 >= INFINITY || b % TWO63 > INFINITY ==> IsRemainder(a, b, QNAN)
    ensures 0 < b % TWO63 <= INFINITY && a % TWO63 < INFINITY && a % TWO63 < b % TWO63 ==> IsRemainder(a, b, a)
    ensures 0 < b % TWO63 < INFINITY && a % TWO63 == b % TWO63 ==> IsRemainder(a, b, a - a % TWO63)
    ensures 0 < b % TWO63 < a % TWO63 < INFINITY ==>
            IsFinite(a) && IsFinite(b) && !IsZero(a) && !IsZero(b)
  {
    hide Pow2, Magnitude;
    PackFields(a);
    PackFields(b);
    PackFields(a - a % TWO63);
    MagnitudeZero(b);
    MagnitudeZero(a - a % TWO63);
    if 0 < b % TWO63 < INFINITY {
      if a % TWO63 < b % TWO63 {
        MagnitudeStrictlyMonotone(a, b);
        SmallMod(Magnitude(a), Magnitude(b));
      } else if a % TWO63 == b % TWO63 {
        SameLowBits(a, b);
        SelfMod(Magnitude(b));
      }
    }
  }

  lemma SmallMod(a: nat, b: nat)
    requires a < b
    ensures a % b == a
  {
  }

  lemma SelfMod(b: nat)
    requires 0 < b
    ensures b % b == 0
  {
    ModMultiple(1, b);
  }

  lemma LargerExponentFirst(a: Bits, ea: int, ma: nat, b: Bits, eb: int, mb: nat)
    requires b % TWO63 < a % TWO63 && Normalized(a, ea, ma) && Normalized(b, eb, mb)
    ensures eb <= ea
  {
    hide Magnitude, Exp2, Pow2, IsScaled;
    MagnitudeStrictlyMonotone(b, a);
    if ea < eb {
      var x, y := Magnitude(a) as real, Magnitude(b) as real;
      var d: nat := eb - ea;
      var w := (mb as real) * (Pow2(d) as real);
      ScaleNatOf(w, mb as real, d);
      ScaleInverse(w, mb as real, d);
      ScaleTrans(y, mb as real, w, eb - 1, 0 - d);
      ScaleOrder(x, y, ma as real, w, ea - 1);
      Pow2Monotone(1, d);
      Pow2Values();
      MulMono(2.0, Pow2(d) as real, mb as real);
    }
  }

  lemma ReduceStart(m0: nat, b: nat, m: nat)
    requires P52 <= m0 < P53 && P52 <= b < P53 && m == if m0 >= b then m0 - b else m0
    ensures IsReduced(m0, 0, b, m)
  {
    assert m0 * Pow2(0) == m0;
    DivModUnique(m0, b, if m0 >= b then 1 else 0, m);
  }

  lemma ReduceStep(m0: nat, k: nat, b: nat, m: nat)
    requires IsReduced(m0, k, b, m)
    ensures IsReduced(m0, k + 1, b, if 2 * m >= b then 2 * m - b else 2 * m)
  {
    var t := m0 * Pow2(k);
    assert m0 * Pow2(k + 1) == 2 * t by { Pow2Succ(k); }
    hide Pow2;
    var q := Div(t, b);
    DivMod(t, b);
    var c := if 2 * m >= b then 1 else 0;
    assert 2 * t == (2 * q + c) * b + (2 * m - c * b);
    DivModUnique(2 * t, b, 2 * q + c, 2 * m - c * b);
  }

  lemma ReducedBelow(m0: nat, n: nat, b: nat, r: nat)
    requires IsReduced(m0, n, b, r)
    ensures r < b
  {
  }

  lemma ModScale(a: nat, b: nat, s: nat)
    requires b > 0 && s > 0
    ensures b * s > 0 && Mod(a * s, b * s) == Mod(a, b) * s
  {
    var q, r := Div(a, b), Mod(a, b);
    DivMod(a, b);
    assert a * s == q * (b * s) + r * s;
    ScaleBound(r, b, s);
    DivModUnique(a * s, b * s, q, r * s);
  }

  /** The reduced significand at b's exponent is the remainder of the
      magnitudes, also when b is subnormal. */
  lemma RemainderValue(a: Bits, ea: int, ma: nat, b: Bits, eb: int, mb: nat, m: nat) returns (x: real)
    requires Normalized(a, ea, ma) && Normalized(b, eb, mb) && eb <= ea && !IsZero(b)
    requires IsReduced(ma, ea - eb, mb, m)
    ensures Magnitude(b) > 0 && m < mb
    ensures x == Mod(Magnitude(a), Magnitude(b)) as real && IsScaled(x, (m * 1024) as real, eb - 11)
    ensures Representable(Mod(Magnitude(a), Magnitude(b)))
  {
    MagnitudeZero(b);
    x := Mod(Magnitude(a), Magnitude(b)) as real;
    var c: nat := if eb >= 1 then 0 else 1 - eb;
    var g: nat := if eb >= 1 then eb - 1 else 0;
    hide Exp2, Magnitude, IsReduced, Mod;
    CommonScale(a, ea, ma, c, g + (ea - eb));
    CommonScale(b, eb, mb, c, g);
    ReducedAtScale(Magnitude(a), Magnitude(b), ma, mb, ea - eb, c, g, m);
    RemainderScale(Mod(Magnitude(a), Magnitude(b)), m, c, g, eb);
    ReducedBelow(ma, ea - eb, mb, m);
    RemainderRepresentable(Magnitude(b), mb, Mod(Magnitude(a), Magnitude(b)), m, c, g);
  }

  lemma CommonScale(u: Bits, e: int, m: nat, c: nat, g: nat)
    requires Normalized(u, e, m) && g - c == e - 1
    ensures Magnitude(u) * Pow2(c) == m * Pow2(g)
  {
    hide Magnitude, Exp2, Pow2, IsScaled;
    var x, y := Magnitude(u) as real, m as real;
    ScaleNat(x, c);
    ScaleNat(y, g);
    ScaleTrans(x * (Pow2(c) as real), x, y, c, e - 1);
    ScaleOrder(x * (Pow2(c) as real), y * (Pow2(g) as real), y, y, g);
    CastProduct(Magnitude(u), Pow2(c));
    CastProduct(m, Pow2(g));
  }

  lemma ReducedAtScale(a: nat, b: nat, ma: nat, mb: nat, n: nat, c: nat, g: nat, m: nat)
    requires a * Pow2(c) == ma * Pow2(g + n) && b * Pow2(c) == mb * Pow2(g) && b > 0 && mb > 0
    requires IsReduced(ma, n, mb, m)
    ensures Mod(a, b) * Pow2(c) == m * Pow2(g)
  {
    Pow2Add(n, g);
    assert m == Mod(ma * Pow2(n), mb);
    hide Pow2, Mod, IsReduced;
    MulAssocInt(ma, Pow2(n), Pow2(g));
    ModScale(a, b, Pow2(c));
    ModScale(ma * Pow2(n), mb, Pow2(g));
  }

  lemma RemainderScale(r: nat, m: nat, c: nat, g: nat, eb: int)
    requires r * Pow2(c) == m * Pow2(g) && g - c == eb - 1
    ensures IsScaled(r as real, (m * 1024) as real, eb - 11)
  {
    Pow2Values();
    hide Pow2, Exp2, IsScaled;
    var w, z := r * Pow2(c), m * 1024;
    NatProductScales(w, r, c);
    NatProductScales(w, m, g);
    NatProductScales(z, m, 10);
    ScaleInverse(w as real, r as real, c);
    ScaleTrans(r as real, w as real, m as real, 0 - c, g);
    ScaleInverse(z as real, m as real, 10);
    ScaleTrans(r as real, m as real, z as real, eb - 1, -10);
  }

  lemma RemainderRepresentable(b: nat, mb: nat, r: nat, m: nat, c: nat, g: nat)
    requires r * Pow2(c) == m * Pow2(g) && m < P53 && mb < P53
    requires r < b && b * Pow2(c) == mb * Pow2(g) && (c == 0 || g == 0)
    ensures Representable(r)
  {
    Exp2Zero();
    hide Pow2;
    if c == 0 {
      assert Scaled(r, m, g);
    } else {
      MulLower(1, Pow2(c), b, b);
      assert Scaled(r, r, 0);
    }
  }

  lemma RemainderExact(a: Bits, b: Bits, sign: nat, x: real, r: Bits)
    requires IsFinite(a) && IsFinite(b) && Magnitude(b) > 0 && !IsZero(b) && sign == SignOf(a)
    requires x == Mod(Magnitude(a), Magnitude(b)) as real && Representable(Mod(Magnitude(a), Magnitude(b)))
    requires RoundsTo(x, sign, RNE, r)
    ensures IsRemainder(a, b, r)
  {
    var y := Mod(Magnitude(a), Magnitude(b));
    FiniteBelowOverflow(b);
    RoundsExact(y, NearEven);
    var z: nat :| Rounds(x, z, NearEven) && Delivers(z, sign, NearEven, r);
    hide Rounds, Pow2, Magnitude;
    RoundsUnique(x, y, z, NearEven);
  }
}
