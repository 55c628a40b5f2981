/** round_to_d and mul_pow_round_to_d of dtoa.c: from a bignum to a binary64
    significand and exponent, over normal and subnormal results. */
module DoubleRounding {
  import opened MachineWords
  import opened PowersOfTwo
  import opened Rounding
  import opened Binary64
  import opened StickyBits
  import opened RoundPack
  import opened Limbs
  import opened RadixPowers
  import opened RadixTables
  import opened Bignum
  import opened RadixScaling

  /** The pair (m, e) of the source stands for m * 2^(e - 53), which is y units
      of 2^-1074; below the normal range m ends in zeros. */
  ghost predicate Denotes(m: nat, e: int, y: nat) {
    if m == 0 then y == 0
    else P52 <= m < P53 && if e >= -1021 then y == m * Pow2(e + 1021) else y * Pow2(-1021 - e) == m
  }

  // ----- rounding on a grid of units -----

  /** Rounding x / 2^k to an integer of at most 53 bits rounds x. */
  lemma IntegerGridRounds(x: real, z: real, k: nat, n: nat, d: Direction)
    requires IsScaled(x, z, k) && 0.0 <= z && RoundsToInteger(z, n, d)
    requires if k == 0 then z < P53 as real else P52 as real <= z < P53 as real
    ensures n <= P53 && (k > 0 ==> P52 <= n)
    ensures Rounds(x, n * Pow2(k), d)
  {
    var a: nat := z.Floor;
    hide Pow2, Exp2, IsScaled, Rounds, Increments, RoundsToInteger;
    var inc := if Increments(z, a, 1, a % 2 == 1, d) then 1 else 0;
    IncrementRoundsToInteger(z, a, a + inc, d);
    RoundsToIntegerUnique(z, n, a + inc, d);
    FloorOnGrid(x, z, k, a, n, d);
  }

  lemma FloorOnGrid(x: real, z: real, k: nat, a: nat, n: nat, d: Direction)
    requires IsScaled(x, z, k) && a as real <= z < (a + 1) as real && a < P53 && (k > 0 ==> P52 <= a)
    requires n == a + if Increments(z, a, 1, a % 2 == 1, d) then 1 else 0
    ensures Rounds(x, n * Pow2(k), d)
  {
    var g := Pow2(k);
    IsScaledElim(x, z, k);
    Exp2Nat(k);
    hide Pow2, Exp2, IsScaled, Rounds, Increments;
    IncrementsScale(x, z, a, a * g, g, d);
    NextGridPoint(a, g);
    RoundsOnGrid(x, a, k, n * g, d);
  }

  lemma IncrementsScale(x: real, z: real, a: nat, lo: nat, g: nat, d: Direction)
    requires x == z * (g as real) && g > 0 && lo == a * g && a as real <= z < (a + 1) as real
    ensures lo as real <= x < (lo + g) as real
    ensures Increments(x, lo, g, a % 2 == 1, d) <==> Increments(z, a, 1, a % 2 == 1, d)
  {
    UnscaleSideOf(x, z, a, g, lo);
    NextGridPoint(a, g);
    UnscaleSideOf(x, z, a + 1, g, lo + g);
    DoubleFactor(z, g, x);
    NextGridPoint(2 * a, g);
    DoubleProduct(a, g);
    UnscaleSideOf(2.0 * x, 2.0 * z, 2 * a + 1, g, 2 * lo + g);
  }

  lemma DoubleFactor(z: real, g: nat, x: real)
    requires x == z * (g as real)
    ensures 2.0 * x == (2.0 * z) * (g as real)
  {
    MulAssoc(2.0, z, g as real);
  }

  lemma DoubleProduct(a: int, g: int)
    ensures (2 * a) * g == 2 * (a * g)
  {
  }

  // ----- the shift that round_to_d makes -----

  /** What mpb_shr_round leaves is the rounded value of the exact w / 2^shift. */
  lemma ShiftRounds(w: real, t: nat, u: nat, shift: int, z: real, n: nat, mode: RoundMode)
    requires Agree(w, t, u) && 0 < u <= 2 && (u == 2 ==> shift >= 2) && IsScaled(z, w, 0 - shift)
    requires n == if shift <= 0 then t * Pow2(0 - shift) else RoundShift(t, shift, mode)
    ensures RoundsToInteger(z, n, ModeDirection(mode))
  {
    hide Agree, IsScaled, ScaleBy, Exp2, RoundShift, RoundsToInteger, Pow2;
    if shift > 0 {
      var y := ScaleBy(t as real, 0 - shift);
      RoundShiftRounds(t, shift, mode, y);
      AgreeRounds(w, t, u, shift, z, y, n, ModeDirection(mode));
    } else {
      AgreeAtMultiple(w, t, 1);
      ScaleNatOf(n as real, t as real, 0 - shift);
      ScaleOrder(z, n as real, w, w, 0 - shift);
      IntegerRounds(n, ModeDirection(mode));
    }
  }

  /** The exact value has the bit length of the integer that agrees with it. */
  lemma AgreeBits(w: real, t: nat, u: nat, n: nat, z: real, k: int, p: nat)
    requires Agree(w, t, u) && 0 < u <= 2 && (u == 2 ==> n >= 2) && n > 0 && Pow2(n - 1) <= t < Pow2(n)
    requires IsScaled(z, w, k) && n + k >= 0 && p == Pow2(n + k)
    ensures 0.0 <= z < p as real && p as real <= 2.0 * z
  {
    hide Agree, IsScaled, Exp2, Pow2;
    HalfGrid(n, u);
    Pow2Succ(n - 1);
    EvenDouble(Pow2(n - 1), u);
    AgreeSide(w, t, u, Pow2(n - 1));
    AgreeSide(w, t, u, Pow2(n));
    Exp2Nat(n);
    ScalePower(n, k);
    ScaleOrder(z, p as real, w, Pow2(n) as real, k);
    ScaleTwice(z, w, k);
    ScaleOrder(2.0 * z, p as real, 2.0 * w, Pow2(n) as real, k);
  }

  lemma EvenDouble(p: nat, u: nat)
    requires 0 < u <= 2
    ensures (2 * p) % u == 0
  {
  }

  lemma ScalePower(n: nat, k: int)
    requires n + k >= 0
    ensures IsScaled(Pow2(n + k) as real, Pow2(n) as real, k)
  {
    hide *;
    Exp2Nat(n);
    Exp2Nat(n + k);
    Exp2Add(n, k);
    IsScaledIntro(Pow2(n + k) as real, Pow2(n) as real, k);
  }

  lemma ScaleTwice(z: real, w: real, k: int)
    requires IsScaled(z, w, k)
    ensures IsScaled(2.0 * z, 2.0 * w, k)
  {
    hide Exp2;
    MulAssoc(2.0, w, Exp2(k));
  }

  /** Normal results: 53 bits on a grid of 2^k units. */
  lemma NormalRounds(w: real, t: nat, u: nat, bits: nat, x: real, k: nat, n: nat, mode: RoundMode)
    requires Agree(w, t, u) && 0 < u <= 2 && (u == 2 ==> bits >= 56)
    requires bits > 0 && Pow2(bits - 1) <= t < Pow2(bits) && IsScaled(x, w, k + 53 - bits)
    requires n == if bits - 53 <= 0 then t * Pow2(53 - bits) else RoundShift(t, bits - 53, mode)
    ensures P52 <= n <= P53 && Rounds(x, n * Pow2(k), ModeDirection(mode))
  {
    hide Agree, IsScaled, ScaleBy, Exp2, RoundShift, RoundsToInteger, Rounds, Pow2;
    var z := ScaleBy(w, 53 - bits);
    ShiftRounds(w, t, u, bits - 53, z, n, mode);
    Pow2Values();
    AgreeBits(w, t, u, bits, z, 53 - bits, P53);
    ScaleInverse(z, w, 53 - bits);
    ScaleTrans(x, w, z, k + 53 - bits, bits - 53);
    IntegerGridRounds(x, z, k, n, ModeDirection(mode));
    if k == 0 {
      LargeInteger(z, n, ModeDirection(mode));
    }
  }

  lemma LargeInteger(z: real, n: nat, d: Direction)
    requires P52 as real <= z && RoundsToInteger(z, n, d)
    ensures P52 <= n
  {
  }

  /** Subnormal results: fewer bits, in whole units. */
  lemma SubnormalRounds(w: real, t: nat, u: nat, bits: nat, x: real, prec: int, n: nat, mode: RoundMode)
    requires Agree(w, t, u) && 0 < u <= 2 && (u == 2 ==> bits >= 56) && prec < 53
    requires bits > 0 && Pow2(bits - 1) <= t < Pow2(bits) && IsScaled(x, w, prec - bits)
    requires n == if bits - prec <= 0 then t * Pow2(prec - bits) else RoundShift(t, bits - prec, mode)
    ensures Rounds(x, n, ModeDirection(mode))
    ensures prec < 0 ==> n == 0
    ensures prec >= 0 ==> n <= Pow2(prec) && (prec > 0 ==> Pow2(prec - 1) <= n)
  {
    hide Agree, IsScaled, ScaleBy, Exp2, RoundShift, RoundsToInteger, Rounds, Pow2;
    ShiftRounds(w, t, u, bits - prec, x, n, mode);
    ScaleZero(x);
    Exp2Zero();
    if prec >= 0 {
      AgreeBits(w, t, u, bits, x, prec - bits, Pow2(prec));
      Pow2Values();
      Pow2Monotone(prec, 52);
      IntegerGridRounds(x, x, 0, n, ModeDirection(mode));
      HalfBounds(x, n, prec, ModeDirection(mode));
    } else {
      TinyValue(w, t, u, bits, x, prec);
      IntegerGridRounds(x, x, 0, n, ModeDirection(mode));
      TinyRounds(x, n, ModeDirection(mode));
    }
  }

  lemma ScaleZero(x: real)
    ensures IsScaled(x, x, 0)
  {
    Exp2Zero();
  }

  lemma HalfBounds(x: real, n: nat, prec: nat, d: Direction)
    requires 0.0 <= x < Pow2(prec) as real && Pow2(prec) as real <= 2.0 * x && RoundsToInteger(x, n, d) && d != Up
    ensures n <= Pow2(prec) && (prec > 0 ==> Pow2(prec - 1) <= n)
  {
    if prec > 0 {
      Pow2Succ(prec - 1);
    }
    hide Pow2;
  }

  lemma TinyValue(w: real, t: nat, u: nat, bits: nat, x: real, prec: int)
    requires Agree(w, t, u) && 0 < u <= 2 && (u == 2 ==> bits >= 56) && prec < 0
    requires bits > 0 && Pow2(bits - 1) <= t < Pow2(bits) && IsScaled(x, w, prec - bits)
    ensures 0.0 <= x && 2.0 * x < 1.0
  {
    hide Agree, IsScaled, ScaleBy, Exp2, Pow2;
    var z := ScaleBy(w, 0 - bits);
    Exp2Zero();
    AgreeBits(w, t, u, bits, z, 0 - bits, 1);
    ScaleInverse(z, w, 0 - bits);
    ScaleTrans(x, w, z, prec - bits, bits);
    IsScaledElim(x, z, prec);
    Exp2Monotone(prec, -1);
    SmallScale(x, z, Exp2(prec));
  }

  lemma SmallScale(x: real, z: real, p: real)
    requires x == z * p && 0.0 <= z < 1.0 && 0.0 < p <= Exp2(-1)
    ensures 0.0 <= x && 2.0 * x < 1.0
  {
    MulMono(p, 0.5, z);
  }

  lemma TinyRounds(x: real, n: nat, d: Direction)
    requires 0.0 <= x && 2.0 * x < 1.0 && RoundsToInteger(x, n, d) && d != Up
    ensures n == 0
  {
  }

  // ----- round_to_d -----

  /** round_to_d: rounds the exact number w * 2^-e_offset, which is x units, to
      a significand and an exponent.  a agrees with w up to a sticky bit. */
  method RoundToD(a: Mpb, eOffset: int, mode: RoundMode, ghost u: nat, ghost w: real, ghost x: real)
    returns (m: nat, e: int, ghost y: nat)
    requires a.Valid() && a.Normal() && a.len + (if u == 2 then 0 else 3) <= a.tab.Length
    requires Agree(w, a.V(), u) && 0 < u <= 2 && (u == 2 ==> a.V() >= Pow2(55))
    requires IsScaled(x, w, 1074 - eOffset)
    requires a.V() > 0 ==> BitLength(a.V()) - eOffset >= -1084
    modifies a, a.tab
    ensures a.Valid() && Rounds(x, y, ModeDirection(mode)) && Denotes(m, e, y)
  {
    hide Value, BasePow, Pow2, Exp2, BitLength, IsScaled, Agree, RoundShift, Rounds, Denotes, ModeDirection;
    ghost var v := a.V();
    ZeroLimbs(a.tab[..a.len]);
    if a.tab[0] == 0 && a.len == 1 {
      ZeroRounds(w, x, 1074 - eOffset, u, ModeDirection(mode));
      return 0, 0, 0;
    }
    var top := MpbFloorLog2(a);
    e := top + 1 - eOffset;
    BitLengthBounds(v);
    ghost var bits := BitLength(v);
    if u == 2 {
      BitLengthAtLeast(v, 55);
    }
    var prec := 53;
    if e < -1021 {
      prec := 53 - (-1021 - e);
    }
    a.ShrRound(e + eOffset - prec, mode);
    y := a.V();
    if e < -1021 {
      SubnormalRounds(w, v, u, bits, x, prec, y, mode);
      m := FinishSubnormal(a, prec, e);
      if m >= P53 {
        m := m / 2;
        e := e + 1;
      }
    } else {
      NormalRounds(w, v, u, bits, x, e + 1021, y, mode);
      m, y := FinishNormal(a, e);
      if m >= P53 {
        m := m / 2;
        e := e + 1;
      }
    }
  }

  lemma ZeroRounds(w: real, x: real, k: int, u: nat, d: Direction)
    requires Agree(w, 0, u) && u > 0 && IsScaled(x, w, k)
    ensures Rounds(x, 0, d) && Denotes(0, 0, 0)
  {
    AgreeAtMultiple(w, 0, u);
    hide Exp2;
    assert x == 0.0;
    Exp2Zero();
    GridRepresentable(0, 0);
    RoundsExact(0, d);
  }

  /** After the overflow fix-up the pair denotes the rounded value. */
  lemma NormalDenotes(m: nat, e: int, y: nat)
    requires P52 <= m <= P53 && e >= -1021 && y == m * Pow2(e + 1021)
    ensures if m >= P53 then Denotes(m / 2, e + 1, y) else Denotes(m, e, y)
  {
    Pow2Succ(e + 1021);
  }

  /** A full significand, and the units that it stands for. */
  method FinishNormal(a: Mpb, e: int) returns (m: nat, ghost y: nat)
    requires a.Valid() && a.Normal() && e >= -1021 && P52 <= a.V() <= P53
    ensures m == a.V() && y == m * Pow2(e + 1021)
    ensures if m >= P53 then Denotes(m / 2, e + 1, y) else Denotes(m, e, y)
  {
    hide Value, BasePow, Pow2, Denotes;
    m := a.GetU64();
    y := m * Pow2(e + 1021);
    NormalDenotes(m, e, y);
  }

  /** m <<= 53 - prec */
  method FinishSubnormal(a: Mpb, prec: int, e: int) returns (m: nat)
    requires a.Valid() && a.Normal() && e < -1021 && prec == e + 1074 && prec >= -10
    requires prec < 0 ==> a.V() == 0
    requires prec >= 0 ==> a.V() <= Pow2(prec) && (prec > 0 ==> Pow2(prec - 1) <= a.V())
    ensures m == a.V() * Pow2(53 - prec) && m < TWO64
    ensures if m >= P53 then Denotes(m / 2, e + 1, a.V()) else Denotes(m, e, a.V())
  {
    hide Value, BasePow, Pow2, Denotes;
    SubnormalBound(a.V(), prec);
    m := a.GetU64();
    m := m * Pow2(53 - prec);
    SubnormalDenotes(a.V(), prec, e, m);
  }

  lemma SubnormalBound(y: nat, prec: int)
    requires prec < 0 ==> y == 0
    requires 0 <= prec < 53 ==> y <= Pow2(prec)
    ensures prec < 53 ==> y <= P52
  {
    Pow2Values();
    hide Pow2;
    if 0 <= prec < 53 {
      Pow2Monotone(prec, 52);
    }
  }

  lemma SubnormalDenotes(y: nat, prec: int, e: int, m: nat)
    requires e < -1021 && prec == e + 1074 && m == y * Pow2(53 - prec)
    requires prec < 0 ==> y == 0
    requires prec >= 0 ==> y <= Pow2(prec) && (prec > 0 ==> Pow2(prec - 1) <= y)
    ensures m <= P53
    ensures if m >= P53 then Denotes(m / 2, e + 1, y) else Denotes(m, e, y)
  {
    SubnormalSignificand(y, prec, m);
    Pow2Succ(52 - prec);
    Exp2Zero();
    hide Pow2;
    HalfScaleDenotes(y, Pow2(53 - prec), Pow2(52 - prec), m);
  }

  lemma SubnormalSignificand(y: nat, prec: int, m: nat)
    requires prec < 53 && m == y * Pow2(53 - prec) && (prec < 0 ==> y == 0)
    requires prec >= 0 ==> y <= Pow2(prec) && (prec > 0 ==> Pow2(prec - 1) <= y)
    ensures m <= P53 && (if prec > 0 then P52 <= m else m == 0 || m == P53)
  {
    Pow2Values();
    hide Pow2;
    var g := Pow2(53 - prec);
    if prec >= 0 {
      Pow2Add(prec, 53 - prec);
      MulLower(y, Pow2(prec), g, g);
      if prec > 0 {
        Pow2Add(prec - 1, 53 - prec);
        MulLower(Pow2(prec - 1), y, g, g);
      }
    }
  }

  lemma HalfScaleDenotes(y: nat, g: nat, h: nat, m: nat)
    requires g == 2 * h && m == y * g
    ensures m / 2 == y * h && (m == 0 <==> y == 0 || g == 0)
  {
    assert m == 2 * (y * h);
  }

  /** The limbs that mul_pow_round_to_d needs in all. */
  function ToDoubleLimbs(len: nat, radix1: nat, shift: nat, f: int): nat
    requires radix1 <= 36
  {
    len + ExtraLimbs(radix1, shift, f, false, 55) + (if f < 0 && radix1 != 1 then 0 else 3)
  }

  /** mul_pow_round_to_d: rounds the exact value of a * b^f; x is that value in
      units.  When a itself carries a sticky bit it must have 56 bits, and then
      b is a power of two. */
  method MulPowRoundToD(a: Mpb, radix1: nat, shift: nat, f: int, mode: RoundMode, ghost b: Radix, ghost z: real,
                        ghost x: real)
    returns (m: nat, e: int, ghost y: nat)
    requires a.Valid() && a.Normal() && a.V() > 0 && RadixSplit(b, radix1, shift)
    requires RadixScaled(z, a.V() as real, b, f) && IsScaled(x, z, 1074)
    requires ToDoubleLimbs(a.len, radix1, shift, f) <= a.tab.Length
    requires 1024.0 * x >= 1.0
    modifies a, a.tab
    ensures a.Valid() && Rounds(x, y, ModeDirection(mode)) && Denotes(m, e, y)
  {
    hide Value, BasePow, Pow2, Exp2, Pow, BitLength, RadixScaled, IsScaled, ScaleBy, Agree, RadixSplit, Rounds, Denotes;
    hide ExtraLimbs;
    var eOffset := MulPow(a, radix1, shift, f, false, 55, b, z);
    ghost var w := ScaleBy(z, eOffset);
    ScaleInverse(w, z, eOffset);
    ScaleTrans(x, z, w, 1074, 0 - eOffset);
    ghost var u := if f < 0 && radix1 != 1 then 2 else 1;
    NotTooSmall(w, a.V(), u, x, eOffset);
    m, e, y := RoundToD(a, eOffset, mode, u, w, x);
  }

  /** A value of at least 2^-10 units keeps the final shift within 64 bits. */
  lemma NotTooSmall(w: real, v: nat, u: nat, x: real, eOffset: int)
    requires Agree(w, v, u) && 0 < u <= 2 && (u == 2 ==> v >= Pow2(55)) && v > 0
    requires IsScaled(x, w, 1074 - eOffset) && 1024.0 * x >= 1.0
    ensures BitLength(v) - eOffset >= -1084
  {
    hide Pow2, Exp2, BitLength, IsScaled, ScaleBy, Agree;
    var bits: int := BitLength(v);
    BitLengthBounds(v);
    if u == 2 {
      BitLengthAtLeast(v, 55);
    }
    var z := ScaleBy(w, 0 - bits);
    Exp2Zero();
    AgreeBits(w, v, u, bits, z, 0 - bits, 1);
    ScaleInverse(z, w, 0 - bits);
    ScaleTrans(x, w, z, 1074 - eOffset, bits);
    TinyExponent(x, z, 1074 - eOffset + bits);
  }

  lemma TinyExponent(x: real, z: real, k: int)
    requires IsScaled(x, z, k) && 0.0 <= z < 1.0 && 1024.0 * x >= 1.0
    ensures k >= -10
  {
    IsScaledElim(x, z, k);
    Exp2Ten();
    hide Exp2;
    if k < -10 {
      Exp2Monotone(k, -11);
    }
    SmallProduct(x, z, Exp2(k));
  }

  lemma Exp2Ten()
    ensures Exp2(-11) == 1.0 / 2048.0
  {
    Exp2Nat(11);
    Exp2Inverse(11);
    Pow2Values();
  }

  lemma SmallProduct(x: real, z: real, p: real)
    requires x == z * p && 0.0 <= z < 1.0 && p > 0.0
    ensures x <= p
  {
    MulMono(z, 1.0, p);
  }

  // ----- the bit pattern -----

  /** The end of js_atod: the bits of a positive result from (m, e). */
  method AssembleDouble(m: nat, e: int, ghost y: nat, ghost x: real) returns (r: Bits)
    requires Rounds(x, y, NearEven) && Denotes(m, e, y)
    ensures RoundsTo(x, 0, RNE, r)
  {
    hide Pow2, Rounds, RoundsTo, Pack, Delivers, Div;
    if m == 0 {
      r := 0;
    } else if e > 1024 {
      r := INFINITY;
    } else if e < -1073 {
      r := 0;
    } else if e < -1021 {
      SubnormalBits(m, e, y);
      r := Div(m, Pow2(-1021 - e));
    } else {
      r := Pack(0, e + 1022, m);
    }
    if m > 0 && e < -1021 {
      SubnormalBits(m, e, y);
    }
    AssembledDelivers(m, e, y, r);
    RoundsToIntro(x, y, 0, RNE, r);
  }

  lemma SubnormalBits(m: nat, e: int, y: nat)
    requires Denotes(m, e, y) && m > 0 && e < -1021
    ensures Div(m, Pow2(-1021 - e)) == y && y < P52 && e >= -1073
  {
    var k := -1021 - e;
    Pow2Monotone(1, k);
    Pow2Values();
    hide Pow2;
    assert m == y * Pow2(k);
    DivModIs(m, Pow2(k), y, 0);
    MulLower(y, y, Pow2(k), 2);
    if k > 52 {
      Pow2Monotone(53, k);
      MulLower(1, y, Pow2(k), Pow2(53));
    }
  }

  lemma AssembledDelivers(m: nat, e: int, y: nat, r: Bits)
    requires Denotes(m, e, y)
    requires r == if m == 0 then 0 else if e > 1024 then INFINITY else if e < -1073 then 0
             else if e < -1021 then y else Pack(0, e + 1022, m)
    requires m > 0 && e < -1021 ==> e >= -1073 && y < P52
    ensures Delivers(y, 0, NearEven, r)
  {
    Pow2Values();
    hide Pow2;
    if m == 0 || e < -1021 {
      Pow2Monotone(52, OVERFLOW_EXPONENT);
      SmallMagnitude(y);
    } else {
      MulLower(m, m, 1, 1);
      if e > 1024 {
        Pow2Add(52, e + 1021);
        Pow2Monotone(OVERFLOW_EXPONENT, 52 + (e + 1021));
        MulLower(P52, m, Pow2(e + 1021), Pow2(e + 1021));
        InfinityFields();
      } else {
        NormalSignificand(m);
        PackMagnitude(0, e + 1022, m);
        FiniteBelowOverflow(Pack(0, e + 1022, m));
      }
    }
  }

  lemma SmallMagnitude(y: nat)
    requires y < P52
    ensures SignOf(y) == 0 && IsFinite(y) && Magnitude(y) == y
  {
  }

  lemma InfinityFields()
    ensures SignOf(INFINITY) == 0 && IsInfinite(INFINITY)
  {
  }
}
