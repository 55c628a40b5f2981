/** round_pack and normalize of the soft-float library: the one place where a
    significand with sticky bits becomes a correctly rounded bit pattern. */
module RoundPack {
  import opened MachineWords
  import opened PowersOfTwo
  import opened Rounding
  import opened Binary64
  import opened StickyBits

  /** What is added before the ten rounding bits are dropped. */
  function Addend(sign: nat, rm: RoundingMode): (a: nat)
    ensures a < 1024
  {
    match rm
    case RNE => 512
    case RMM => 512
    case RTZ => 0
    case RDN => if sign == 1 then 1023 else 0
    case RUP => if sign == 1 then 0 else 1023
  }

  function RoundOff(t: nat, sign: nat, rm: RoundingMode): nat {
    var q := (t + Addend(sign, rm)) / 1024;
    if rm == RNE && t % 1024 == 512 then q - q % 2 else q
  }

  /** t lies below, at or above the h-th half step of the grid as x does. */
  lemma HalfStep(t: nat, w: real, x: real, g: nat, h: int, s: int)
    requires Agree(w, t, 512) && g > 0 && s == h * g
    requires 1024.0 * x == w * (g as real)
    ensures t < 512 * h <==> 2.0 * x < s as real
    ensures t > 512 * h <==> 2.0 * x > s as real
  {
    hide *;
    AgreeAt(w, t, 512, h);
    UnscaleCompare(w, x, h * 512, g);
    MulAssocInt(512, h, g);
    assert (h * 512 * g) as real == 512.0 * (s as real);
    HalfStepSides(t, w, x, h * 512, s);
  }

  lemma HalfStepSides(t: nat, w: real, x: real, n: int, s: int)
    requires SameSide(w, t, n)
    requires w < n as real <==> 1024.0 * x < 512.0 * (s as real)
    requires w > n as real <==> 1024.0 * x > 512.0 * (s as real)
    ensures t < n <==> 2.0 * x < s as real
    ensures t > n <==> 2.0 * x > s as real
  {
  }

  lemma HalfStepOf(t: nat, w: real, x: real, g: nat, a: int, lo: int, c: nat, s: int)
    requires Agree(w, t, 512) && g > 0 && lo == a * g
    requires 1024.0 * x == w * (g as real)
    requires (c == 0 && s == 2 * lo) || (c == 1 && s == 2 * lo + g) || (c == 2 && s == 2 * lo + 2 * g)
    ensures t < 1024 * a + 512 * c <==> 2.0 * x < s as real
    ensures t > 1024 * a + 512 * c <==> 2.0 * x > s as real
  {
    hide *;
    assert s == (2 * a + c) * g;
    HalfStep(t, w, x, g, 2 * a + c, s);
  }

  /** Adding the addend and dropping the rounding bits picks the same grid
      neighbour as the definition of rounding does for the exact number. */
  lemma RoundOffIncrements(t: nat, w: real, x: real, g: nat, a: nat, lo: nat, sign: nat, rm: RoundingMode)
    requires Agree(w, t, 512) && g > 0 && a == t / 1024 && lo == a * g
    requires 1024.0 * x == w * (g as real)
    ensures lo as real <= x < (lo + g) as real
    ensures RoundOff(t, sign, rm) == a +
            (if Increments(x, lo, g, a % 2 == 1, DirectionOf(rm, sign)) then 1 else 0)
  {
    hide *;
    HalfStepOf(t, w, x, g, a, lo, 0, 2 * lo);
    HalfStepOf(t, w, x, g, a, lo, 1, 2 * lo + g);
    HalfStepOf(t, w, x, g, a, lo, 2, 2 * lo + 2 * g);
    RoundOffCases(t, x, g, lo, a, sign, rm);
  }

  lemma RoundOffCases(t: nat, x: real, g: nat, lo: nat, a: nat, sign: nat, rm: RoundingMode)
    requires g > 0 && a == t / 1024
    requires 2.0 * x < (2 * lo) as real <==> t < 1024 * a
    requires 2.0 * x > (2 * lo) as real <==> t > 1024 * a
    requires 2.0 * x < (2 * lo + g) as real <==> t < 1024 * a + 512
    requires 2.0 * x > (2 * lo + g) as real <==> t > 1024 * a + 512
    requires 2.0 * x < (2 * lo + 2 * g) as real <==> t < 1024 * a + 1024
    ensures lo as real <= x < (lo + g) as real
    ensures RoundOff(t, sign, rm) == a +
            (if Increments(x, lo, g, a % 2 == 1, DirectionOf(rm, sign)) then 1 else 0)
  {
  }

  lemma UnscaleCompare(w: real, x: real, n: int, g: nat)
    requires g > 0 && 1024.0 * x == w * (g as real)
    ensures w < n as real <==> 1024.0 * x < (n * g) as real
    ensures w > n as real <==> 1024.0 * x > (n * g) as real
  {
    CastProduct(n, g);
    if w < n as real {
      MulStrict(w, n as real, g as real);
    } else if w > n as real {
      MulStrict(n as real, w, g as real);
    }
  }

  /** The bits the code assembles from a rounded significand q on the grid of
      exponent k + 1. */
  function Assemble(sign: nat, k: nat, q: nat, rm: RoundingMode): (r: Bits)
    requires sign <= 1 && q <= P53
  {
    var e := k + 1 + q / P53;
    if q < P52 then Pack(sign, 0, q)
    else if e >= EXP_MASK then
      (if Addend(sign, rm) == 0 then Pack(sign, EXP_MASK - 1, P52 - 1) else Pack(sign, EXP_MASK, 0))
    else Pack(sign, e, q)
  }

  lemma AssembleDelivers(sign: nat, k: nat, q: nat, rm: RoundingMode)
    requires sign <= 1 && q <= P53 && (k == 0 || P52 <= q)
    ensures Delivers(q * Pow2(k), sign, DirectionOf(rm, sign), Assemble(sign, k, q, rm))
  {
    hide Pow2, Pack, Magnitude, Assemble;
    if P52 <= q && k + 1 + q / P53 >= EXP_MASK {
      LargeGrid(k, q);
      AssembleOverflow(sign, k, q, rm);
    } else {
      SmallGrid(k, q);
      AssembleMagnitude(sign, k, q, rm);
      AssembleFinite(sign, k, q, rm);
    }
  }

  lemma AssembleOverflow(sign: nat, k: nat, q: nat, rm: RoundingMode)
    requires sign <= 1 && P52 <= q <= P53 && k + 1 + q / P53 >= EXP_MASK
    ensures var r := Assemble(sign, k, q, rm);
            && SignOf(r) == sign
            && if DirectionOf(rm, sign) == Down then r % TWO63 == INFINITY - 1 else IsInfinite(r)
  {
    PackFields(Pack(sign, EXP_MASK - 1, P52 - 1));
    hide Pack;
  }

  lemma AssembleFinite(sign: nat, k: nat, q: nat, rm: RoundingMode)
    requires sign <= 1 && q <= P53 && (q < P52 || k + 1 + q / P53 < EXP_MASK)
    ensures SignOf(Assemble(sign, k, q, rm)) == sign && IsFinite(Assemble(sign, k, q, rm))
  {
    hide Pack;
  }

  lemma AssembleMagnitude(sign: nat, k: nat, q: nat, rm: RoundingMode)
    requires sign <= 1 && q <= P53 && (k == 0 || P52 <= q)
    requires q < P52 || k + 1 + q / P53 < EXP_MASK
    ensures Magnitude(Assemble(sign, k, q, rm)) == q * Pow2(k)
  {
    hide Pow2, Pack, Magnitude, ExponentOf, FractionOf, SignOf, Addend;
    if q < P52 {
      Exp2Zero();
      PackMagnitude(sign, 0, q);
    } else if q == P53 {
      PackMagnitude(sign, k + 2, q);
      CarryScale(k);
    } else {
      NormalSignificand(q);
      PackMagnitude(sign, k + 1, q);
    }
  }

  lemma NormalSignificand(q: nat)
    requires P52 <= q < P53
    ensures P52 + q % P52 == q && q / P53 == 0
  {
  }

  lemma PackMagnitude(sign: nat, e: nat, m: nat)
    requires sign <= 1 && e <= EXP_MASK
    ensures Magnitude(Pack(sign, e, m)) == if e == 0 then m % P52 else (P52 + m % P52) * Pow2(e - 1)
  {
    hide Pow2, Pack;
  }

  lemma CarryScale(k: nat)
    ensures P53 * Pow2(k) == P52 * Pow2(k + 1)
  {
    Pow2Succ(k);
  }

  lemma LargeGrid(k: nat, q: nat)
    requires P52 <= q <= P53 && k + 1 + q / P53 >= EXP_MASK
    ensures q * Pow2(k) >= Pow2(OVERFLOW_EXPONENT)
  {
    hide Pow2;
    Pow2Values();
    var c := if q == P53 then 53 else 52;
    Pow2Add(c, k);
    MulLower(Pow2(c), q, Pow2(k), Pow2(k));
    Pow2Monotone(OVERFLOW_EXPONENT, c + k);
  }

  lemma SmallGrid(k: nat, q: nat)
    requires q <= P53 && (k == 0 || P52 <= q) && (q < P52 || k + 1 + q / P53 < EXP_MASK)
    ensures q * Pow2(k) < Pow2(OVERFLOW_EXPONENT)
  {
    hide Pow2;
    Pow2Values();
    if q == P53 {
      Pow2Add(53, k);
      Pow2StrictlyMonotone(53 + k, OVERFLOW_EXPONENT);
    } else {
      ScaleBound(q, P53, Pow2(k));
      Pow2Add(53, k);
      Pow2Monotone(53 + k, OVERFLOW_EXPONENT);
    }
  }

  lemma RoundOffBounds(t: nat, sign: nat, rm: RoundingMode)
    requires t < TWO63
    ensures RoundOff(t, sign, rm) <= P53
    ensures TWO62 <= t ==> P52 <= RoundOff(t, sign, rm)
  {
  }

  /** From an agreeing significand to the rounded magnitude. */
  lemma RoundOffRounds(w: real, t: nat, x: real, k: nat, sign: nat, rm: RoundingMode)
    requires Agree(w, t, 512) && 1024.0 * x == w * (Pow2(k) as real)
    requires t < TWO63 && (k == 0 || TWO62 <= t) && sign <= 1
    ensures RoundOff(t, sign, rm) <= P53
    ensures RoundsTo(x, sign, rm, Assemble(sign, k, RoundOff(t, sign, rm), rm))
  {
    var a, q, d := t / 1024, RoundOff(t, sign, rm), DirectionOf(rm, sign);
    assert a < P53 && (k == 0 || P52 <= a);
    RoundOffBounds(t, sign, rm);
    RoundOffOnGrid(w, t, x, k, a, sign, rm);
    AssembleDelivers(sign, k, q, rm);
    hide *;
    assert RoundsTo(x, sign, rm, Assemble(sign, k, q, rm)) by {
      RoundsToIntro(x, q * Pow2(k), sign, rm, Assemble(sign, k, q, rm));
    }
  }

  lemma RoundOffOnGrid(w: real, t: nat, x: real, k: nat, a: nat, sign: nat, rm: RoundingMode)
    requires Agree(w, t, 512) && 1024.0 * x == w * (Pow2(k) as real)
    requires a == t / 1024 && a < P53 && (k == 0 || P52 <= a)
    ensures Rounds(x, RoundOff(t, sign, rm) * Pow2(k), DirectionOf(rm, sign))
  {
    hide *;
    var g := Pow2(k);
    RoundOffIncrements(t, w, x, g, a, a * g, sign, rm);
    NextGridPoint(a, g);
    RoundsOnGrid(x, a, k, RoundOff(t, sign, rm) * g, DirectionOf(rm, sign));
  }

  lemma RoundsToIntro(x: real, y: nat, sign: nat, rm: RoundingMode, r: Bits)
    requires Rounds(x, y, DirectionOf(rm, sign)) && Delivers(y, sign, DirectionOf(rm, sign), r)
    ensures RoundsTo(x, sign, rm, r)
  {
  }

  /** The significand after the shift for subnormal results. */
  function PackShifted(exponent: int, mantissa: nat): nat {
    if exponent <= 0 then RshiftRnd(mantissa, 1 - exponent) else mantissa
  }

  /** What round_pack_sf delivers, as a function of what it is given. */
  function PackOf(sign: nat, exponent: int, mantissa: nat, rm: RoundingMode): (r: Bits)
    requires sign <= 1 && mantissa < TWO63
  {
    var t := PackShifted(exponent, mantissa);
    ShiftBound(mantissa, if exponent <= 0 then 1 - exponent else 0);
    RoundOffBounds(t, sign, rm);
    Assemble(sign, if exponent <= 0 then 0 else exponent - 1, RoundOff(t, sign, rm), rm)
  }

  /** The mantissa has its leading bit at position 62 (or is zero) and agrees on
      every half step with the exact significand v of the exact number x. */
  lemma PackOfRounds(sign: nat, exponent: int, mantissa: nat, rm: RoundingMode, v: real, x: real)
    requires sign <= 1 && (mantissa == 0 || TWO62 <= mantissa < TWO63)
    requires Agree(v, mantissa, 512) && IsScaled(x, v, exponent - 11)
    ensures RoundsTo(x, sign, rm, PackOf(sign, exponent, mantissa, rm))
  {
    hide Pow2, Exp2, IsScaled, ScaleBy, Agree, RoundsTo, RshiftRnd, Assemble, RoundOff;
    var t, k := PackShifted(exponent, mantissa), if exponent <= 0 then 0 else exponent - 1;
    var w := v;
    if exponent <= 0 {
      w := ScaleBy(v, exponent - 1);
      SubnormalShift(v, mantissa, 1 - exponent, w);
    }
    PackScale(v, w, x, exponent, k);
    PackResult(v, w, t, x, k, exponent, mantissa, sign, rm);
  }

  /** round_pack_sf: rounds whatever exact number the mantissa stands for. */
  method RoundPackSf(sign: nat, exponent: int, mantissa: nat, rm: RoundingMode, ghost v: real, ghost x: real)
    returns (r: Bits)
    requires sign <= 1 && (mantissa == 0 || TWO62 <= mantissa < TWO63)
    requires Agree(v, mantissa, 512) && IsScaled(x, v, exponent - 11)
    ensures RoundsTo(x, sign, rm, r) && r == PackOf(sign, exponent, mantissa, rm)
  {
    hide Pow2, Exp2, IsScaled, ScaleBy, Agree, RoundsTo, Addend, RshiftRnd, Pack;
    var e, m := exponent, mantissa;
    if e <= 0 {
      var diff := 1 - e;
      m := RshiftRnd(m, diff);
      e := 1;
    }
    ShiftBound(mantissa, if exponent <= 0 then 1 - exponent else 0);
    r := RoundAndAssemble(sign, e, m, rm);
    PackOfRounds(sign, exponent, mantissa, rm, v, x);
  }

  /** The part of round_pack_sf after the shift for subnormal results. */
  method RoundAndAssemble(sign: nat, e0: int, t: nat, rm: RoundingMode) returns (r: Bits)
    requires sign <= 1 && e0 > 0 && t < TWO63
    ensures RoundOff(t, sign, rm) <= P53 && r == Assemble(sign, e0 - 1, RoundOff(t, sign, rm), rm)
  {
    hide Addend, Pack;
    var addend := Addend(sign, rm);
    RoundOffBounds(t, sign, rm);
    var e, m := e0, t;
    var rndBits := m % 1024;
    m := (m + addend) / 1024;
    if rm == RNE && rndBits == 512 {
      m := m - m % 2;
    }
    assert m == RoundOff(t, sign, rm);
    hide RoundOff;
    e := e + m / P53;
    if m < P52 {
      e := 0;
    } else if e >= EXP_MASK {
      if addend == 0 {
        e := EXP_MASK - 1;
        m := P52 - 1;
      } else {
        e := EXP_MASK;
        m := 0;
      }
    }
    r := Pack(sign, e, m);
  }

  lemma SubnormalShift(v: real, t: nat, diff: nat, w: real)
    requires Agree(v, t, 512) && t < TWO63 && IsScaled(w, v, 0 - diff)
    ensures Agree(w, RshiftRnd(t, diff), 512)
    ensures RshiftRnd(t, diff) < TWO63
  {
    hide Pow2, Exp2, Agree, RshiftRnd;
    Exp2AddNat(0 - diff, diff);
    Exp2Zero();
    MulAssoc(v, Exp2(0 - diff), Pow2(diff) as real);
    AgreeShift(v, t, 512, diff, w);
    ShiftBound(t, diff);
  }

  lemma ShiftBound(t: nat, d: nat)
    requires t < TWO63
    ensures RshiftRnd(t, d) < TWO63
  {
    hide Pow2, Mod;
    if 0 < d < 64 {
      Pow2Succ(d - 1);
      HalfBound(t, Pow2(d));
    }
  }

  lemma HalfBound(t: nat, p: nat)
    requires p >= 2
    ensures 2 * Div(t, p) <= t
  {
    DivMod(t, p);
    MulLower(2, p, Div(t, p), Div(t, p));
  }

  /** The scale of the rounding grid, in both branches. */
  lemma PackScale(v: real, w: real, x: real, exponent: int, k: nat)
    requires if exponent <= 0 then k == 0 && IsScaled(w, v, exponent - 1) else k == exponent - 1 && w == v
    requires IsScaled(x, v, exponent - 11)
    ensures 1024.0 * x == w * (Pow2(k) as real)
  {
    hide Pow2, Exp2, IsScaled;
    var y := x * (Pow2(10) as real);
    Pow2Values();
    ScaleNat(x, 10);
    ScaleTrans(y, x, v, 10, exponent - 11);
    if exponent <= 0 {
      ScaleOrder(y, w, v, v, exponent - 1);
    } else {
      ScaleNat(v, k);
      ScaleOrder(y, v * (Pow2(k) as real), v, v, k);
    }
  }

  /** A zero significand is a zero result whatever its exponent. */
  lemma PackResult(v: real, w: real, t: nat, x: real, k: nat, exponent: int, mantissa: nat, sign: nat, rm: RoundingMode)
    requires sign <= 1 && (mantissa == 0 || TWO62 <= mantissa < TWO63) && Agree(v, mantissa, 512)
    requires Agree(w, t, 512) && t < TWO63 && 1024.0 * x == w * (Pow2(k) as real)
    requires if exponent <= 0 then k == 0 else k == exponent - 1 && t == mantissa
    ensures RoundOff(t, sign, rm) <= P53
    ensures RoundsTo(x, sign, rm, Assemble(sign, k, RoundOff(t, sign, rm), rm))
  {
    hide Pow2, Agree, RoundOff, Assemble, RoundsTo;
    RoundOffBounds(t, sign, rm);
    if t == 0 && k > 0 {
      AgreeNonnegative(w, t, 512);
      ZeroProduct(w, Pow2(k) as real, x);
      ZeroRounds(k, sign, rm);
    } else {
      RoundOffRounds(w, t, x, k, sign, rm);
    }
  }

  lemma ZeroRounds(k: nat, sign: nat, rm: RoundingMode)
    requires sign <= 1
    ensures RoundOff(0, sign, rm) == 0
    ensures RoundsTo(0.0, sign, rm, Assemble(sign, k, 0, rm))
  {
    hide Pow2, Agree, RoundsTo;
    Exp2Zero();
    AgreeExact(0, 512);
    RoundOffRounds(0.0, 0, 0.0, 0, sign, rm);
  }

  lemma ZeroProduct(w: real, p: real, x: real)
    requires w == 0.0 && 1024.0 * x == w * p
    ensures x == 0.0
  {
  }

  /** Count of leading zeros of a 64-bit word; 64 for zero. */
  function Clz64(a: Bits): (n: nat)
    ensures n <= 64
  {
    Pow2Values();
    BitLengthAtMost(a, 64);
    64 - BitLength(a)
  }

  /** What normalize_sf delivers, as a function of what it is given. */
  function NormalizedOf(sign: nat, exponent: int, mantissa: nat, rm: RoundingMode): (r: Bits)
    requires sign <= 1 && mantissa < TWO63
  {
    NormalizeBits(mantissa);
    var shift := Clz64(mantissa) - 1;
    PackOf(sign, exponent - shift, mantissa * Pow2(shift), rm)
  }

  /** A significand of at most 63 bits may be inexact only if it keeps enough
      bits for the shift not to reach the rounding position. */
  lemma NormalizedOfRounds(sign: nat, exponent: int, mantissa: nat, rm: RoundingMode, v: real, x: real)
    requires sign <= 1 && mantissa < TWO63 && IsScaled(x, v, exponent - 11)
    requires v == mantissa as real || (Agree(v, mantissa, 2) && mantissa >= 0x40_0000_0000_0000)
    ensures RoundsTo(x, sign, rm, NormalizedOf(sign, exponent, mantissa, rm))
  {
    hide Pow2, Exp2, IsScaled, Agree, RoundsTo, Clz64, PackOf;
    NormalizeBits(mantissa);
    var shift := Clz64(mantissa) - 1;
    var w := v * (Pow2(shift) as real);
    NormalizeAgree(mantissa, shift, v, w, mantissa * Pow2(shift));
    NormalizeScale(v, w, x, exponent, shift);
    PackOfRounds(sign, exponent - shift, mantissa * Pow2(shift), rm, w, x);
  }

  /** normalize_sf: shift the leading bit to position 62 and round. */
  method NormalizeSf(sign: nat, exponent: int, mantissa: nat, rm: RoundingMode, ghost v: real, ghost x: real)
    returns (r: Bits)
    requires sign <= 1 && mantissa < TWO63 && IsScaled(x, v, exponent - 11)
    requires v == mantissa as real || (Agree(v, mantissa, 2) && mantissa >= 0x40_0000_0000_0000)
    ensures RoundsTo(x, sign, rm, r) && r == NormalizedOf(sign, exponent, mantissa, rm)
  {
    hide Pow2, Exp2, IsScaled, Agree, RoundsTo, Clz64, PackOf;
    NormalizeBits(mantissa);
    var shift := Clz64(mantissa) - 1;
    ghost var w := v * (Pow2(shift) as real);
    NormalizeAgree(mantissa, shift, v, w, mantissa * Pow2(shift));
    NormalizeScale(v, w, x, exponent, shift);
    r := RoundPackSf(sign, exponent - shift, mantissa * Pow2(shift), rm, w, x);
  }

  lemma NormalizeBits(mantissa: nat)
    requires mantissa < TWO63
    ensures Clz64(mantissa) >= 1
    ensures mantissa == 0 || TWO62 <= mantissa * Pow2(Clz64(mantissa) - 1) < TWO63
    ensures mantissa >= 0x40_0000_0000_0000 ==> Clz64(mantissa) <= 9
  {
    hide Pow2, BitLength;
    var b := BitLength(mantissa);
    BitLengthBounds(mantissa);
    Pow2Values();
    Pow2Succ(53);
    BitLengthAtMost(mantissa, 63);
    if mantissa > 0 {
      Pow2Add(b - 1, 63 - b);
      Pow2Add(b, 63 - b);
      MulLower(Pow2(b - 1), mantissa, Pow2(63 - b), Pow2(63 - b));
      ScaleBound(mantissa, Pow2(b), Pow2(63 - b));
    }
    if mantissa >= 0x40_0000_0000_0000 {
      BitLengthAtLeast(mantissa, 54);
    }
  }

  lemma NormalizeAgree(mantissa: nat, s: nat, v: real, w: real, t: nat)
    requires v == mantissa as real || (Agree(v, mantissa, 2) && s <= 8)
    requires w == v * (Pow2(s) as real) && t == mantissa * Pow2(s)
    ensures Agree(w, t, 512)
  {
    hide *;
    if v == mantissa as real {
      CastProduct(mantissa, Pow2(s));
      AgreeExact(t, 512);
    } else {
      ScaleTo(v, mantissa, 2, Pow2(s), w, t);
      AgreeOn512(w, t, s);
    }
  }

  lemma ScaleTo(v: real, t: int, u: nat, g: nat, w: real, n: int)
    requires Agree(v, t, u) && g > 0 && w == v * (g as real) && n == t * g
    ensures Agree(w, n, u * g)
  {
    hide *;
    AgreeScale(v, t, u, g);
  }

  lemma AgreeOn512(v: real, t: nat, s: nat)
    requires s <= 8 && Agree(v, t, 2 * Pow2(s))
    ensures Agree(v, t, 512)
  {
    hide *;
    Divides512(s);
    AgreeCoarser(v, t, 2 * Pow2(s), 512);
  }

  lemma Divides512(s: nat)
    requires s <= 8
    ensures 512 % (2 * Pow2(s)) == 0
  {
    hide *;
    Pow2Succ(s);
    Pow2Values();
    Pow2Add(8 - s, s + 1);
    ModMultiple(Pow2(8 - s), Pow2(s + 1));
  }

  lemma NormalizeScale(v: real, w: real, x: real, exponent: int, s: nat)
    requires w == v * (Pow2(s) as real) && IsScaled(x, v, exponent - 11)
    ensures IsScaled(x, w, exponent - s - 11)
  {
    assert x == v * Exp2(exponent - 11);
    hide Pow2, Exp2;
    Exp2AddNat(exponent - s - 11, s);
    MulAssoc(v, Pow2(s) as real, Exp2(exponent - s - 11));
  }

  /** A normalised reading of a nonzero finite number: a full significand and
      an exponent that may lie below the subnormal range. */
  ghost predicate Normalized(u: Bits, e: int, m: nat) {
    P52 <= m < P53 && IsScaled(Magnitude(u) as real, m as real, e - 1)
  }

  /** normalize_subnormal_sf */
  method NormalizeSubnormalSf(m: nat) returns (e: int, r: nat)
    requires 0 < m < P52
    ensures P52 <= r < P53 && e <= 0 && r == m * Pow2(1 - e)
  {
    hide Pow2, Clz64;
    SubnormalShiftBounds(m);
    var shift := 52 - (63 - Clz64(m));
    e := 1 - shift;
    r := m * Pow2(shift);
  }

  lemma SubnormalShiftBounds(m: nat)
    requires 0 < m < P52
    ensures 12 <= Clz64(m) <= 63
    ensures P52 <= m * Pow2(Clz64(m) - 11) < P53
  {
    hide Pow2, BitLength;
    var b := BitLength(m);
    BitLengthBounds(m);
    Pow2Values();
    BitLengthAtMost(m, 52);
    Pow2Add(b - 1, 53 - b);
    Pow2Add(b, 53 - b);
    MulLower(Pow2(b - 1), m, Pow2(53 - b), Pow2(53 - b));
    ScaleBound(m, Pow2(b), Pow2(53 - b));
  }

  lemma NormalizedNormal(u: Bits)
    requires 0 < ExponentOf(u)
    ensures Normalized(u, ExponentOf(u), P52 + FractionOf(u))
  {
    hide Pow2, Exp2, Magnitude, ExponentOf, FractionOf;
    MagnitudeAsExp2(u);
  }

  lemma NormalizedSubnormal(u: Bits, e: int, m: nat)
    requires ExponentOf(u) == 0 && P52 <= m < P53 && e <= 0 && m == FractionOf(u) * Pow2(1 - e)
    ensures Normalized(u, e, m)
  {
    var f := FractionOf(u);
    assert Magnitude(u) == f;
    hide Pow2, Exp2, IsScaled, Magnitude, ExponentOf, FractionOf;
    CastProduct(f, Pow2(1 - e));
    ScaleNat(f as real, 1 - e);
    ScaleInverse(m as real, f as real, 1 - e);
  }
}
