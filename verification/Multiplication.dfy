/** mul_u and mul_sf of the soft-float library. */
module Multiplication {
  import opened MachineWords
  import opened PowersOfTwo
  import opened Rounding
  import opened Binary64
  import opened StickyBits
  import opened RoundPack

  function Times(a: nat, b: nat): nat {
    a * b
  }

  /** mul_u on half words: the 128-bit product of two 64-bit words. */
  method MulU(a: Bits, b: Bits) returns (high: Bits, low: Bits)
    ensures high * TWO64 + low == Times(a, b)
  {
    hide Times;
    var a0, a1 := a % TWO32, a / TWO32;
    var b0, b1 := b % TWO32, b / TWO32;
    HalfWordProduct(a, b, a0, a1, b0, b1);
    var r00, r01, r10, r11 := Times(a0, b0), Times(a0, b1), Times(a1, b0), Times(a1, b1);
    var r0 := r00 % TWO32;
    var c := r00 / TWO32 + r01 % TWO32 + r10 % TWO32;
    var r1 := c % TWO32;
    ghost var c1 := c;
    c := c / TWO32 + r01 / TWO32 + r10 / TWO32 + r11 % TWO32;
    var r2 := c % TWO32;
    var r3 := (c / TWO32 + r11 / TWO32) % TWO32;
    high, low := r3 * TWO32 + r2, r1 * TWO32 + r0;
    ghost var q, m := r01 / TWO32 + r10 / TWO32, r01 % TWO32 + r10 % TWO32;
    SplitCross(r01, r10, q, m);
    Columns(r00, r11, r01 + r10, q, m, c1, c, r3, high, low);
  }

  /** The carries of the column sums, and no carry out of the top word. */
  lemma Columns(r00: nat, r11: nat, cross: nat, q: nat, m: nat, c1: nat, c2: nat, r3: nat, high: nat, low: nat)
    requires cross == q * TWO32 + m && r11 * TWO64 + cross * TWO32 + r00 < TWO64 * TWO64
    requires c1 == r00 / TWO32 + m && c2 == c1 / TWO32 + q + r11 % TWO32
    requires r3 == (c2 / TWO32 + r11 / TWO32) % TWO32
    requires high == r3 * TWO32 + c2 % TWO32 && low == (c1 % TWO32) * TWO32 + r00 % TWO32
    ensures high * TWO64 + low == r11 * TWO64 + cross * TWO32 + r00
  {
    var h := c2 / TWO32 + r11 / TWO32;
    LowColumns(r00, m, c1, low);
    HighColumns(c1 / TWO32 + q, r11, c2, h);
    JoinColumns(r00, r11, q, m, c1 / TWO32, c2 % TWO32, h, low, cross);
    TopWord(h, c2 % TWO32, low, r11 * TWO64 + cross * TWO32 + r00);
  }

  lemma SplitCross(r01: nat, r10: nat, q: nat, m: nat)
    requires q == r01 / TWO32 + r10 / TWO32 && m == r01 % TWO32 + r10 % TWO32
    ensures r01 + r10 == q * TWO32 + m
  {
  }

  lemma JoinColumns(r00: nat, r11: nat, q: nat, m: nat, carry: nat, mid: nat, h: nat, low: nat, cross: nat)
    requires cross == q * TWO32 + m
    requires low + carry * TWO64 == r00 + m * TWO32
    requires h * TWO32 + mid == carry + q + r11
    ensures (h * TWO32 + mid) * TWO64 + low == r11 * TWO64 + cross * TWO32 + r00
  {
  }

  lemma LowColumns(r00: nat, m: nat, c1: nat, low: nat)
    requires c1 == r00 / TWO32 + m && low == (c1 % TWO32) * TWO32 + r00 % TWO32
    ensures low + c1 / TWO32 * TWO64 == r00 + m * TWO32
  {
  }

  lemma HighColumns(m: nat, r11: nat, c2: nat, h: nat)
    requires c2 == m + r11 % TWO32 && h == c2 / TWO32 + r11 / TWO32
    ensures h * TWO32 + c2 % TWO32 == m + r11
  {
  }

  lemma TopWord(h: nat, mid: nat, low: nat, p: nat)
    requires p == (h * TWO32 + mid) * TWO64 + low && p < TWO64 * TWO64
    ensures h < TWO32
  {
  }

  lemma HalfWordProduct(a: Bits, b: Bits, a0: nat, a1: nat, b0: nat, b1: nat)
    requires a0 == a % TWO32 && a1 == a / TWO32 && b0 == b % TWO32 && b1 == b / TWO32
    ensures Times(a, b) == Times(a1, b1) * TWO64 + (Times(a0, b1) + Times(a1, b0)) * TWO32 + Times(a0, b0)
    ensures Times(a, b) < TWO64 * TWO64
  {
    Expand(a0, a1, b0, b1);
    MulLower(a, TWO64 - 1, TWO64 - 1, b);
  }

  lemma Expand(a0: nat, a1: nat, b0: nat, b1: nat)
    ensures (a1 * TWO32 + a0) * (b1 * TWO32 + b0)
         == (a1 * b1) * TWO64 + (a0 * b1 + a1 * b0) * TWO32 + a0 * b0
  {
  }

  /** The exact product of the magnitudes, in units of 2^-1074. */
  ghost function ProductMagnitude(a: Bits, b: Bits): real {
    ScaleBy(RealProduct(Magnitude(a), Magnitude(b)), -1074)
  }

  function ProductSign(a: Bits, b: Bits): (s: nat)
    ensures s <= 1
  {
    if SignOf(a) == SignOf(b) then 0 else 1
  }

  /** r is the product a * b as IEEE 754-2019 defines it. */
  ghost predicate IsProduct(a: Bits, b: Bits, rm: RoundingMode, r: Bits) {
    if IsNaN(a) || IsNaN(b) then r == QNAN
    else if IsInfinite(a) || IsInfinite(b) then
      r == if IsZero(a) || IsZero(b) then QNAN else Pack(ProductSign(a, b), EXP_MASK, 0)
    else RoundsTo(ProductMagnitude(a, b), ProductSign(a, b), rm, r)
  }

  method MulSf(a: Bits, b: Bits, rm: RoundingMode) returns (r: Bits)
    ensures IsProduct(a, b, rm, r)
  {
    hide Pow2, Exp2, IsScaled, SignOf, ExponentOf, FractionOf, Magnitude;
    hide Agree, RoundsTo, ProductMagnitude, Normalized, Times;
    var rSign := ProductSign(a, b);
    var aExp: int, bExp: int := ExponentOf(a), ExponentOf(b);
    var aMant, bMant := FractionOf(a), FractionOf(b);
    if aExp == EXP_MASK || bExp == EXP_MASK {
      if IsNaN(a) || IsNaN(b) {
        return QNAN;
      } else if (aExp == EXP_MASK && bExp == 0 && bMant == 0) || (bExp == EXP_MASK && aExp == 0 && aMant == 0) {
        return QNAN;
      } else {
        return Pack(rSign, EXP_MASK, 0);
      }
    }
    if aExp == 0 {
      if aMant == 0 {
        r := Pack(rSign, 0, 0);
        ZeroProductRounds(a, b, rSign, rm);
        return;
      }
      aExp, aMant := NormalizeSubnormalSf(aMant);
      NormalizedSubnormal(a, aExp, aMant);
    } else {
      aMant := aMant + P52;
      NormalizedNormal(a);
    }
    if bExp == 0 {
      if bMant == 0 {
        r := Pack(rSign, 0, 0);
        ZeroProductRounds(a, b, rSign, rm);
        return;
      }
      bExp, bMant := NormalizeSubnormalSf(bMant);
      NormalizedSubnormal(b, bExp, bMant);
    } else {
      bMant := bMant + P52;
      NormalizedNormal(b);
    }
    var rExp := aExp + bExp - 1024 + 2;
    var rMant, low := MulU(aMant * 1024, bMant * 2048);
    ghost var v := ProductSignificand(a, b, aExp, aMant, bExp, bMant, rMant, low);
    rMant := OrBit0(rMant, low != 0);
    r := NormalizeSf(rSign, rExp, rMant, rm, v, ProductMagnitude(a, b));
  }

  lemma ZeroProductRounds(a: Bits, b: Bits, sign: nat, rm: RoundingMode)
    requires sign <= 1 && (IsZero(a) || IsZero(b))
    ensures RoundsTo(ProductMagnitude(a, b), sign, rm, Pack(sign, 0, 0))
  {
    hide Magnitude, RoundsTo, Exp2;
    MagnitudeZero(a);
    MagnitudeZero(b);
    assert ProductMagnitude(a, b) == 0.0;
    ZeroRoundsToZero(sign, rm);
  }

  /** The high word of the double-length product, with the low word as its
      sticky bit, agrees with the exact product. */
  lemma ProductSignificand(a: Bits, b: Bits, ea: int, ma: nat, eb: int, mb: nat, high: Bits, low: Bits)
    returns (v: real)
    requires Normalized(a, ea, ma) && Normalized(b, eb, mb)
    requires high * TWO64 + low == Times(ma * 1024, mb * 2048)
    ensures Agree(v, OrBit0(high, low != 0), 2)
    ensures 0x40_0000_0000_0000 <= OrBit0(high, low != 0) < TWO63
    ensures IsScaled(ProductMagnitude(a, b), v, ea + eb - 1022 - 11)
  {
    var p := high * TWO64 + low;
    v := (p as real) / (TWO64 as real);
    assert IsScaled(p as real, v, 64) by { Pow2Values(); Exp2Nat(64); hide Pow2; }
    HighWord(high, low, v);
    assert p == (ma * mb) * 0x20_0000 by { hide *; ProductShift(ma, mb, p); }
    ProductBounds(ma, mb, p);
    hide Pow2, Exp2, OrBit0, Agree, Times;
    ProductChain(a, b, ea, ma, eb, mb, p, v);
  }

  lemma ProductShift(ma: nat, mb: nat, p: nat)
    requires p == Times(ma * 1024, mb * 2048)
    ensures p == (ma * mb) * 0x20_0000
  {
  }

  lemma HighWord(high: Bits, low: Bits, v: real)
    requires v == ((high * TWO64 + low) as real) / (TWO64 as real)
    ensures Agree(v, OrBit0(high, low != 0), 2)
  {
    hide Agree;
    AgreeFloor(v, high, low != 0);
  }

  lemma ProductBounds(ma: nat, mb: nat, p: nat)
    requires P52 <= ma < P53 && P52 <= mb < P53 && p == (ma * mb) * 0x20_0000
    ensures P52 * P52 * 0x20_0000 <= p < P53 * P53 * 0x20_0000
  {
    MulLower(P52, ma, mb, P52);
    ScaleBound(ma, P53, mb);
    MulLower(mb, P53, P53, P53);
  }

  lemma ProductChain(a: Bits, b: Bits, ea: int, ma: nat, eb: int, mb: nat, p: nat, v: real)
    requires Normalized(a, ea, ma) && Normalized(b, eb, mb)
    requires p == (ma * mb) * 0x20_0000 && IsScaled(p as real, v, 64)
    ensures IsScaled(ProductMagnitude(a, b), v, ea + eb - 1033)
  {
    hide *;
    FactorsScale(a, ea, ma, b, eb, mb);
    ScaledProduct(ma, mb, p);
    ProductMagnitudeScale(a, b);
    ScaleChain(ProductMagnitude(a, b), RealProduct(Magnitude(a), Magnitude(b)), RealProduct(ma, mb), p as real, v,
               ea + eb - 2);
  }

  ghost function RealProduct(m: nat, n: nat): real {
    (m as real) * (n as real)
  }

  lemma ProductMagnitudeScale(a: Bits, b: Bits)
    ensures IsScaled(ProductMagnitude(a, b), RealProduct(Magnitude(a), Magnitude(b)), -1074)
  {
    hide Magnitude, Exp2;
  }

  lemma FactorsScale(a: Bits, ea: int, ma: nat, b: Bits, eb: int, mb: nat)
    requires Normalized(a, ea, ma) && Normalized(b, eb, mb)
    ensures IsScaled(RealProduct(Magnitude(a), Magnitude(b)), RealProduct(ma, mb), ea + eb - 2)
  {
    hide Exp2, Magnitude, IsScaled;
    var x, y := Magnitude(a) as real, Magnitude(b) as real;
    ScaleProduct(x, ma as real, ea - 1, y, mb as real, eb - 1);
    assert RealProduct(Magnitude(a), Magnitude(b)) == x * y;
    assert RealProduct(ma, mb) == (ma as real) * (mb as real);
  }

  lemma ScaleChain(r: real, x: real, y: real, p: real, v: real, e: int)
    requires IsScaled(r, x, -1074) && IsScaled(x, y, e) && IsScaled(p, y, 21) && IsScaled(p, v, 64)
    ensures IsScaled(r, v, e - 1031)
  {
    hide IsScaled;
    ScaleInverse(p, y, 21);
    ScaleTrans(y, p, v, -21, 64);
    ScaleTrans(x, y, v, e, 43);
    ScaleTrans(r, x, v, -1074, e + 43);
  }

  lemma ScaledProduct(ma: nat, mb: nat, p: nat)
    requires p == (ma * mb) * 0x20_0000
    ensures IsScaled(p as real, RealProduct(ma, mb), 21)
  {
    Pow2Add(11, 10);
    Pow2Values();
    Exp2Nat(21);
    assert Exp2(21) == 2097152.0;
    hide Pow2, Exp2;
    CastProduct(ma, mb);
    assert p as real == RealProduct(ma, mb) * 2097152.0;
  }
}
