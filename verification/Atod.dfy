/** The numeric core of js_atod: a digit string, a radix point and an exponent
    become the nearest binary64. */
module Atod {
  import opened PowersOfTwo
  import opened Rounding
  import opened Binary64
  import opened StickyBits
  import opened RoundPack
  import opened Limbs
  import opened RadixPowers
  import opened RadixTables
  import opened Bignum
  import opened RadixScaling
  import opened RadixReals
  import opened RadixLogarithm
  import opened DoubleRounding
  import opened Digits

  const DBIGNUM_LEN_MAX: nat := 52

  /** x, in units, is the number that the digits stand for with the radix point
      after the first `point` of them, times b^exponent, or times 2^exponent. */
  ghost predicate IsNumeral(x: real, digits: seq<nat>, b: Radix, point: int, exponent: int, binExp: bool) {
    exists z: real :: IsNumeralOf(x, z, digits, b, point, exponent, binExp)
  }

  ghost predicate IsNumeralOf(x: real, z: real, digits: seq<nat>, b: Radix, point: int, exponent: int, binExp: bool) {
    && RadixScaled(z, DigitsValue(digits, b) as real, b, point - |digits| + (if binExp then 0 else exponent))
    && IsScaled(x, z, 1074 + (if binExp then exponent else 0))
  }

  /** The digits that js_atod takes into account: all of them when the radix is
      a power of two, at most atod_max_digits otherwise. */
  function Kept(digits: seq<nat>, b: Radix): seq<nat> {
    if OddPart(b) == 1 then digits else digits[..Least(|digits|, AtodMaxDigits(b))]
  }

  // ----- results that are cut off -----

  /** At 2^1024 and above rounding overflows. */
  lemma RoundsToInfinity(x: real)
    requires x >= Pow2(OVERFLOW_EXPONENT) as real
    ensures RoundsTo(x, 0, RNE, INFINITY)
  {
    hide Pow2, Rounds;
    var y := RoundingExists(x, NearEven);
    var p := Pow2(OVERFLOW_EXPONENT);
    OverflowRepresentable();
    NotBelow(x, y, p);
    InfinityFields();
    RoundsToIntro(x, y, 0, RNE, INFINITY);
  }

  lemma OverflowRepresentable()
    ensures Representable(Pow2(OVERFLOW_EXPONENT))
  {
    hide Pow2;
    GridRepresentable(1, OVERFLOW_EXPONENT);
    assert 1 * Pow2(OVERFLOW_EXPONENT) == Pow2(OVERFLOW_EXPONENT);
  }

  lemma NotBelow(x: real, y: nat, p: nat)
    requires Rounds(x, y, NearEven) && Representable(p) && x >= p as real
    ensures y >= p
  {
    hide Representable, EvenSignificand;
    assert Distance(x, y) <= Distance(x, p);
  }

  /** Below 2^-1075 rounding gives zero. */
  lemma RoundsToZero(x: real)
    requires 0.0 <= x && 2.0 * x < 1.0
    ensures RoundsTo(x, 0, RNE, 0)
  {
    Exp2Zero();
    RoundsOnGrid(x, 0, 0, 0, NearEven);
    SmallMagnitude(0);
    RoundsToIntro(x, 0, 0, RNE, 0);
  }

  // ----- power-of-two radices: an exact shift with a sticky bit -----

  /** The kept digits k and the flag for the rest stand for w, all the digits in
      units of the last kept one. */
  ghost predicate Truncates(w: real, k: nat, inexact: bool) {
    if inexact then k as real < w < (k + 1) as real else w == k as real
  }

  /** Scaling by the radix is scaling by a power of two. */
  lemma BinaryScale(z: real, v: real, b: Radix, f: int, s: nat)
    requires RadixScaled(z, v, b, f) && b == Pow2(s)
    ensures IsScaled(z, v, f * s)
  {
    var n := if f >= 0 then f else 0 - f;
    PowOfPow2(s, n);
    assert s * n == if f >= 0 then f * s else 0 - f * s;
    hide Pow2, Exp2, Pow, IsScaled;
    BinaryScaleBy(z, v, b, f, n, s * n);
  }

  lemma BinaryScaleBy(z: real, v: real, b: Radix, f: int, n: nat, k: nat)
    requires RadixScaled(z, v, b, f) && n == (if f >= 0 then f else 0 - f) && Pow(b, n) == Pow2(k)
    ensures IsScaled(z, v, if f >= 0 then k else 0 - k)
  {
    Exp2Nat(k);
    hide Pow2, Exp2, Pow;
    if f < 0 {
      IsScaledIntro(v, z, k);
      ScaleInverse(v, z, k);
    } else {
      IsScaledIntro(z, v, k);
    }
  }

  /** The digits left out, as a fraction of the last digit kept. */
  lemma TruncatedDigits(digits: seq<nat>, n: nat, b: Radix, s: nat, extra: bool, q: nat) returns (w: real)
    requires AreDigits(digits, b) && n <= |digits| && b == Pow2(s) && (extra <==> AnyNonzero(digits, n))
    requires q == s * (|digits| - n)
    ensures IsScaled(w, DigitsValue(digits, b) as real, 0 - q)
    ensures Truncates(w, DigitsValue(digits[..n], b), extra)
  {
    PowOfPow2(s, |digits| - n);
    assert digits == digits[..n] + digits[n..];
    hide *;
    SuffixDigits(digits, n, b);
    DigitsConcat(digits[..n], digits[n..], b);
    DigitsBound(digits[n..], b);
    RestNonzero(digits, n, b);
    var v := DigitsValue(digits, b) as real;
    w := ScaleBy(v, 0 - q);
    ScaledFraction(w, DigitsValue(digits, b), DigitsValue(digits[..n], b), DigitsValue(digits[n..], b), q);
  }

  lemma ScaledFraction(w: real, v: nat, k: nat, r: nat, q: nat)
    requires IsScaled(w, v as real, 0 - q) && v == k * Pow2(q) + r && r < Pow2(q)
    ensures Truncates(w, k, r != 0)
  {
    hide *;
    ScaleInverse(w, v as real, 0 - q);
    IsScaledElim(v as real, w, q);
    Exp2Nat(q);
    FractionBetween(w, v, k, r, Pow2(q));
  }

  lemma SuffixDigits(digits: seq<nat>, n: nat, b: nat)
    requires AreDigits(digits, b) && n <= |digits|
    ensures AreDigits(digits[n..], b)
  {
  }

  lemma FractionBetween(w: real, v: nat, k: nat, r: nat, p: nat)
    requires p > 0 && v == k * p + r && r < p && v as real == w * (p as real)
    ensures Truncates(w, k, r != 0)
  {
    UnscaleSide(v as real, w, k, p);
    UnscaleSide(v as real, w, k + 1, p);
    NextGridPoint(k, p);
  }

  lemma RestNonzero(digits: seq<nat>, n: nat, b: Radix)
    requires n <= |digits|
    ensures AnyNonzero(digits, n) <==> DigitsValue(digits[n..], b) != 0
  {
    NonzeroDigits(digits[n..], b);
    if AnyNonzero(digits, n) {
      var i :| n <= i < |digits| && digits[i] != 0;
      assert digits[n..][i - n] != 0;
    }
    if AnyNonzero(digits[n..], 0) {
      var i :| 0 <= i < |digits[n..]| && digits[n..][i] != 0;
      assert digits[i + n] != 0;
    }
  }

  lemma {:induction false} NonzeroDigits(s: seq<nat>, b: Radix)
    ensures AnyNonzero(s, 0) <==> DigitsValue(s, b) != 0
  {
    if |s| > 0 {
      var n := |s| - 1;
      NonzeroDigits(s[..n], b);
      AnyNonzeroStep(s, 0, n);
      assert s[..n + 1] == s;
      if DigitsValue(s[..n], b) > 0 {
        MulLower(1, DigitsValue(s[..n], b), b, b);
      }
    } else {
      NoneNonzero(s, 0);
    }
  }

  /** The kept digits with their sticky bit agree with all the digits. */
  lemma TruncationAgrees(w: real, k: nat, inexact: bool)
    requires Truncates(w, k, inexact)
    ensures Agree(w, OrBit0(k, inexact), if inexact then 2 else 1)
  {
    if inexact {
      AgreeFloor(w, k, true);
    } else {
      AgreeExact(k, 1);
    }
  }

  /** Bounds on the exact value from the number of digits. */
  lemma BinaryBounds(w: real, k: nat, inexact: bool, lo: nat, hi: nat, x: real, q: int)
    requires Truncates(w, k, inexact) && Pow2(lo) <= k < Pow2(hi) && IsScaled(x, w, q)
    ensures x >= Exp2(lo + q) && 0.0 <= x < Exp2(hi + q)
  {
    hide Pow2, Exp2;
    Exp2Nat(lo);
    Exp2Nat(hi);
    Exp2Add(lo, q);
    Exp2Add(hi, q);
    IsScaledElim(x, w, q);
    BoundsScale(x, w, Pow2(lo) as real, Pow2(hi) as real, Exp2(q));
  }

  lemma BoundsScale(x: real, w: real, lo: real, hi: real, p: real)
    requires x == w * p && 0.0 <= lo <= w < hi && p > 0.0
    ensures lo * p <= x < hi * p && 0.0 <= x
  {
    MulMono(lo, w, p);
    MulStrict(w, hi, p);
  }

  lemma BinaryOverflow(x: real, e: int)
    requires x >= Exp2(e) && e >= OVERFLOW_EXPONENT
    ensures RoundsTo(x, 0, RNE, INFINITY)
  {
    Exp2Nat(OVERFLOW_EXPONENT);
    hide Exp2, Pow2;
    Exp2Monotone(OVERFLOW_EXPONENT, e);
    RoundsToInfinity(x);
  }

  lemma BinaryUnderflow(x: real, e: int)
    requires 0.0 <= x < Exp2(e) && e <= -1
    ensures RoundsTo(x, 0, RNE, 0)
  {
    assert Exp2(-1) == 0.5;
    hide Exp2;
    Exp2Monotone(e, -1);
    RoundsToZero(x);
  }

  /** The power-of-two branch: w times 2^expn is x. */
  method AtodBinary(a: Mpb, n: nat, s: nat, expn: int, ghost k: nat, ghost inexact: bool, ghost w: real, ghost x: real)
    returns (r: Bits)
    requires a.Valid() && a.Normal() && a.len + 3 <= a.tab.Length && n > 0 && 1 <= s <= 5
    requires Truncates(w, k, inexact) && a.V() == OrBit0(k, inexact) && (inexact ==> s * (n - 1) >= 55)
    requires Pow2(s * (n - 1)) <= k < Pow2(s * n) && IsScaled(x, w, expn + 1074)
    modifies a, a.tab
    ensures RoundsTo(x, 0, RNE, r)
  {
    hide Value, BasePow, Pow2, Exp2, IsScaled, Agree, OrBit0, Truncates, Rounds, Denotes, RoundsTo, BitLength;
    BinaryBounds(w, k, inexact, s * (n - 1), s * n, x, expn + 1074);
    assert s * (n - 1) == s * n - s;
    var expn1 := expn + n * s;
    if expn1 >= 1024 + s {
      BinaryOverflow(x, s * (n - 1) + (expn + 1074));
      return INFINITY;
    } else if expn1 <= -1075 {
      BinaryUnderflow(x, s * n + (expn + 1074));
      return 0;
    }
    TruncationAgrees(w, k, inexact);
    BitLengthAtLeast(a.V(), s * (n - 1));
    if inexact {
      Pow2Monotone(55, s * (n - 1));
    }
    var m, e;
    ghost var y;
    m, e, y := RoundToD(a, 0 - expn, RNDN, if inexact then 2 else 1, w, x);
    r := AssembleDouble(m, e, y, x);
  }

  // ----- the other radices: mul_pow_round_to_d between the cut-offs -----

  lemma LowerPower(z: real, v: real, b: Radix, f: int, n: nat, t: int)
    requires RadixScaled(z, v, b, f) && v >= Pow(b, n) as real && t == f + n
    ensures z >= RPow(b, t)
  {
    RadixScaledProduct(z, v, b, f);
    RPowNat(b, n);
    hide *;
    RPowAdd(b, n, f);
    ProductMono(RPow(b, n), v, RPow(b, f));
  }

  lemma UpperPower(z: real, v: real, b: Radix, f: int, n: nat, t: int)
    requires RadixScaled(z, v, b, f) && v < Pow(b, n) as real && t == f + n
    ensures z < RPow(b, t)
  {
    RadixScaledProduct(z, v, b, f);
    RPowNat(b, n);
    hide *;
    RPowAdd(b, n, f);
    ProductMono(v, RPow(b, n), RPow(b, f));
  }

  lemma GeneralOverflow(z: real, x: real, b: Radix, t: int)
    requires z >= RPow(b, t) && t >= MaxExponent(b) && IsScaled(x, z, 1074)
    ensures RoundsTo(x, 0, RNE, INFINITY)
  {
    assert OVERFLOW_EXPONENT == 2098;
    hide *;
    CutoffPowers(b);
    RPowMonotone(b, MaxExponent(b), t);
    UnitsAtLeast(x, z, 1024);
    BinaryOverflow(x, 1024 + 1074);
  }

  lemma UnitsAtLeast(x: real, z: real, k: int)
    requires IsScaled(x, z, 1074)
    ensures z >= Exp2(k) <==> x >= Exp2(k + 1074)
    ensures z < Exp2(k) <==> x < Exp2(k + 1074)
    ensures z >= 0.0 <==> x >= 0.0
  {
    hide *;
    Exp2Add(k, 1074);
    IsScaledIntro(Exp2(k + 1074), Exp2(k), 1074);
    ScaleOrder(x, Exp2(k + 1074), z, Exp2(k), 1074);
    ScaleOrder(Exp2(k + 1074), x, Exp2(k), z, 1074);
    ScaledZero(1074);
    ScaleOrder(x, 0.0, z, 0.0, 1074);
  }

  lemma GeneralUnderflow(z: real, x: real, b: Radix, t: int)
    requires z < RPow(b, t) && t <= MinExponent(b) && IsScaled(x, z, 1074) && z >= 0.0
    ensures RoundsTo(x, 0, RNE, 0)
  {
    hide *;
    CutoffPowers(b);
    RPowMonotone(b, t, MinExponent(b));
    UnitsAtLeast(x, z, -1075);
    BinaryUnderflow(x, -1075 + 1074);
  }

  lemma GeneralReach(z: real, x: real, b: Radix, t: int)
    requires z >= RPow(b, t) && t >= MinExponent(b) && IsScaled(x, z, 1074)
    ensures 1024.0 * x >= 1.0
  {
    assert Exp2(-10) == 1.0 / 1024.0;
    hide *;
    CutoffPowers(b);
    RPowMonotone(b, MinExponent(b), t);
    UnitsAtLeast(x, z, -1084);
    assert x >= Exp2(-10);
  }

  // ----- DBIGNUM_LEN_MAX suffices -----

  lemma GroupsAtMost(n: nat, k: nat, d: nat)
    requires d > 0 && n <= k * d
    ensures Groups(n, d) <= k
  {
    var y := n + d - 1;
    assert y == y / d * d + y % d;
    if y / d > k {
      MulLower(k + 1, y / d, d, d);
      NextGridPoint(k, d);
    }
  }

  lemma KeptLimbs(n: nat, b: Radix)
    requires n <= AtodMaxDigits(b)
    ensures LimbsFor(n, b) <= 5
  {
    TableWidths(b);
    ParsedDigits(b);
    hide DigitsPerLimb, AtodMaxDigits, Groups;
    GroupsAtMost(n, 5, DigitsPerLimb(b));
  }

  /** No intermediate bignum of js_atod exceeds DBIGNUM_LEN_MAX limbs. */
  lemma AtodRoom(b: Radix, radix1: Radix, shift: nat, n: nat, f: int, len: nat)
    requires RadixSplit(b, radix1, shift) && radix1 >= 3
    requires n <= AtodMaxDigits(b) && len <= LimbsFor(n, b)
    requires MinExponent(b) < f + n <= MaxExponent(b)
    ensures ToDoubleLimbs(len, radix1, shift, f) <= DBIGNUM_LEN_MAX
  {
    KeptLimbs(n, b);
    OddRadix(b, radix1, shift);
    RadixDigitsFit(b);
    DigitsPerLimbMonotone(radix1, b);
    TableWidths(radix1);
    hide DigitsPerLimb, AtodMaxDigits, MaxExponent, MinExponent, Groups, RadixSplit, LimbsFor;
    if f >= 0 {
      GroupsAtMost(f, 44, DigitsPerLimb(radix1));
    } else {
      GroupsAtMost(0 - f, 44, DigitsPerLimb(radix1));
      AppendedLimbs(LimbGroups(0 - f, radix1));
    }
  }

  lemma AppendedLimbs(l: nat)
    ensures (32 * l + 55) / 32 == l + 1
  {
  }

  lemma OddRadix(b: Radix, radix1: Radix, shift: nat)
    requires RadixSplit(b, radix1, shift) && radix1 >= 3
    ensures b != 2 && b != 4 && b != 8 && radix1 <= b
  {
    MulLower(radix1, radix1, Pow2(shift), 1);
    if shift > 0 {
      Pow2Succ(shift - 1);
    }
    hide Pow2;
    if shift > 0 {
      MulLower(radix1, radix1, Pow2(shift), 2);
    }
    if shift > 1 {
      Pow2Succ(shift - 2);
      MulLower(radix1, radix1, Pow2(shift), 4);
    }
  }

  /** The branch for radices with an odd factor: k * b^expn = z. */
  method AtodGeneral(a: Mpb, b: Radix, radix1: Radix, shift: nat, n: nat, expn: int, ghost z: real, ghost x: real)
    returns (r: Bits)
    requires a.Valid() && a.Normal() && a.tab.Length == DBIGNUM_LEN_MAX && a.len <= LimbsFor(n, b)
    requires RadixSplit(b, radix1, shift) && radix1 >= 3 && 0 < n <= AtodMaxDigits(b)
    requires Pow(b, n - 1) <= a.V() < Pow(b, n) && RadixScaled(z, a.V() as real, b, expn) && IsScaled(x, z, 1074)
    modifies a, a.tab
    ensures RoundsTo(x, 0, RNE, r)
  {
    hide Value, BasePow, Pow2, Pow, Exp2, IsScaled, RadixScaled, RadixSplit, Rounds, Denotes, RoundsTo, LimbsFor;
    hide RPow, ToDoubleLimbs;
    PowPositive(b, n - 1);
    LowerPower(z, a.V() as real, b, expn, n - 1, expn + n - 1);
    UpperPower(z, a.V() as real, b, expn, n, expn + n);
    var expn1 := expn + n;
    if expn1 >= MaxExponent(b) + 1 {
      GeneralOverflow(z, x, b, expn1 - 1);
      return INFINITY;
    } else if expn1 <= MinExponent(b) {
      ScaledNonnegative(z, a.V() as real, b, expn);
      GeneralUnderflow(z, x, b, expn1);
      return 0;
    }
    GeneralReach(z, x, b, expn1 - 1);
    AtodRoom(b, radix1, shift, n, expn, a.len);
    var m, e;
    ghost var y;
    m, e, y := MulPowRoundToD(a, radix1, shift, expn, RNDN, b, z, x);
    r := AssembleDouble(m, e, y, x);
  }

  lemma ScaledNonnegative(z: real, v: real, b: Radix, f: int)
    requires RadixScaled(z, v, b, f) && v >= 0.0
    ensures z >= 0.0 && (v == 0.0 ==> z == 0.0)
  {
    RadixScaledProduct(z, v, b, f);
    ProductUnit(RPow(b, f));
    hide RPow, Product;
    ProductMono(0.0, v, RPow(b, f));
  }

  // ----- the numeric core of js_atod -----

  lemma RadixShiftOf(b: Radix)
    ensures RadixSplit(b, OddPart(b), Ctz32(b))
  {
    SplitOf(b);
  }

  /** js_atod on the significant digits, the position of the radix point among
      them, and the parsed exponent: the nearest binary64, ties to even, to the
      kept digits' exact value. */
  method AtodNumber(digits: seq<nat>, b: Radix, point: int, exponent: int, binExp: bool, ghost x: real)
    returns (r: Bits)
    requires AreDigits(digits, b) && (|digits| > 0 ==> digits[0] > 0) && (binExp ==> OddPart(b) == 1)
    requires IsNumeral(x, Kept(digits, b), b, point, exponent, binExp)
    ensures RoundsTo(x, 0, RNE, r)
  {
    hide Value, BasePow, Pow2, Pow, Exp2, IsScaled, RadixScaled, RadixSplit, RoundsTo, LimbsFor, OrBit0;
    hide Truncates, OddPart, Ctz32, AtodMaxDigits, DigitsValue, AnyNonzero, IsNumeral, AreDigits;
    var a := new Mpb(DBIGNUM_LEN_MAX);
    var n, extra := CollectDigits(digits, b, a);
    if n == 0 {
      NoDigits(digits, b, n);
      EmptyNumeral(x, b, point, exponent, binExp);
      return 0;
    }
    LeadingDigits(digits, n, b);
    KeptLimbs(n, b);
    var radix1, shift := OddPart(b), Ctz32(b);
    RadixShiftOf(b);
    RadixSplitElim(b, radix1, shift);
    var offset := n - point;
    if radix1 == 1 {
      ghost var k := a.V();
      SetSticky(a, extra);
      PowerRadix(b);
      var expn := exponent;
      if !binExp {
        expn := expn * shift;
      }
      expn := expn - offset * shift;
      ghost var w := BinaryNumeral(x, digits, b, point, exponent, binExp, n, shift, extra, expn);
      SomeDropped(digits, n);
      BinaryDigits(b, shift, n, k, |digits|, extra);
      r := AtodBinary(a, n, shift, expn, k, extra, w, x);
    } else {
      ghost var z := GeneralNumeral(x, digits, b, point, exponent, n);
      r := AtodGeneral(a, b, radix1, shift, n, exponent - offset, z, x);
    }
  }

  lemma NoDigits(digits: seq<nat>, b: Radix, n: nat)
    requires n == Least(|digits|, AtodMaxDigits(b)) && n == 0
    ensures Kept(digits, b) == []
  {
    ParsedDigits(b);
    DigitsPower(b);
    hide OddPart, AtodMaxDigits, DtoaMaxDigits;
  }

  /** No digits stand for zero. */
  lemma EmptyIsZero(x: real, b: Radix, point: int, exponent: int, binExp: bool)
    requires IsNumeral(x, [], b, point, exponent, binExp)
    ensures x == 0.0
  {
    var z: real :| IsNumeralOf(x, z, [], b, point, exponent, binExp);
    ScaledNonnegative(z, 0.0, b, point + (if binExp then 0 else exponent));
    hide Pow, Exp2;
  }

  lemma EmptyNumeral(x: real, b: Radix, point: int, exponent: int, binExp: bool)
    requires IsNumeral(x, [], b, point, exponent, binExp)
    ensures RoundsTo(x, 0, RNE, 0)
  {
    var z :| IsNumeralOf(x, z, [], b, point, exponent, binExp);
    var f := point + (if binExp then 0 else exponent);
    ScaledNonnegative(z, 0.0, b, f);
    hide Pow, Exp2, RoundsTo;
    assert x == 0.0;
    RoundsToZero(x);
  }

  lemma LeadingDigits(digits: seq<nat>, n: nat, b: Radix)
    requires AreDigits(digits, b) && 0 < n <= |digits| && digits[0] > 0
    ensures Pow(b, n - 1) <= DigitsValue(digits[..n], b) < Pow(b, n)
    ensures DigitsValue(digits[..n], b) > 0
  {
    DigitsBound(digits[..n], b);
    DigitsLower(digits[..n], b);
    PowPositive(b, n - 1);
  }

  /** In a power-of-two radix all digits count, the dropped ones as a fraction. */
  lemma BinaryNumeral(x: real, digits: seq<nat>, b: Radix, point: int, exponent: int, binExp: bool,
                      n: nat, s: nat, extra: bool, expn: int) returns (w: real)
    requires IsNumeral(x, Kept(digits, b), b, point, exponent, binExp) && OddPart(b) == 1
    requires AreDigits(digits, b) && n <= |digits| && b == Pow2(s) && (extra <==> AnyNonzero(digits, n))
    requires expn == (if binExp then exponent else exponent * s) - (n - point) * s
    ensures Truncates(w, DigitsValue(digits[..n], b), extra) && IsScaled(x, w, expn + 1074)
  {
    hide *;
    KeptWhole(digits, b);
    ProductNonnegative(s, |digits| - n);
    var q: nat := s * (|digits| - n);
    w := TruncatedDigits(digits, n, b, s, extra, q);
    BinaryNumeralScale(x, digits, b, point, exponent, binExp, n, s, w, q, expn);
  }

  lemma KeptWhole(digits: seq<nat>, b: Radix)
    requires OddPart(b) == 1
    ensures Kept(digits, b) == digits
  {
  }

  lemma ProductNonnegative(a: nat, c: nat)
    ensures a * c >= 0
  {
  }

  lemma BinaryNumeralScale(x: real, digits: seq<nat>, b: Radix, point: int, exponent: int, binExp: bool,
                           n: nat, s: nat, w: real, q: nat, expn: int)
    requires IsNumeral(x, digits, b, point, exponent, binExp) && b == Pow2(s) && q == s * (|digits| - n)
    requires IsScaled(w, DigitsValue(digits, b) as real, 0 - q)
    requires expn == (if binExp then exponent else exponent * s) - (n - point) * s
    ensures IsScaled(x, w, expn + 1074)
  {
    hide RadixScaled, IsScaled, DigitsValue, Pow2;
    var z :| IsNumeralOf(x, z, digits, b, point, exponent, binExp);
    var v := DigitsValue(digits, b) as real;
    var f := point - |digits| + (if binExp then 0 else exponent);
    ExponentSum(point, |digits|, exponent, binExp, s, n, f, q, expn);
    BinaryScale(z, v, b, f, s);
    ScaleInverse(w, v, 0 - q);
    ScaleTrans(z, v, w, f * s, q);
    ScaleTrans(x, z, w, 1074 + (if binExp then exponent else 0), f * s + q);
  }

  lemma ExponentSum(point: int, len: int, exponent: int, binExp: bool, s: int, n: int, f: int, q: int, expn: int)
    requires f == point - len + (if binExp then 0 else exponent) && q == s * (len - n)
    requires expn == (if binExp then exponent else exponent * s) - (n - point) * s
    ensures (if binExp then exponent else 0) + f * s + q == expn
  {
    assert q == len * s - n * s;
    assert (n - point) * s == n * s - point * s;
    if binExp {
      assert f * s == point * s - len * s;
    } else {
      assert f * s == point * s - len * s + exponent * s;
    }
  }

  /** Digits are dropped only after enough of them for the sticky bit to do. */
  lemma BinaryDigits(b: Radix, s: nat, n: nat, k: nat, len: nat, extra: bool)
    requires b == Pow2(s) && 1 <= s <= 5 && n > 0 && n == Least(len, AtodMaxDigits(b)) && (extra ==> n < len)
    requires Pow(b, n - 1) <= k < Pow(b, n)
    ensures Pow2(s * (n - 1)) <= k < Pow2(s * n)
    ensures extra ==> s * (n - 1) >= 55
  {
    PowOfPow2(s, n - 1);
    PowOfPow2(s, n);
    DroppedDigits(b, s);
    hide Pow, Pow2, AtodMaxDigits;
  }

  lemma DroppedDigits(b: Radix, s: nat)
    requires b == Pow2(s) && 1 <= s <= 5
    ensures s * (AtodMaxDigits(b) - 1) >= 55
  {
    SmallPowers();
    hide Pow2;
    match s {
      case 1 => assert AtodMaxDigits(2) == 64;
      case 2 => assert AtodMaxDigits(4) == 32;
      case 3 => assert AtodMaxDigits(8) == 21;
      case 4 => assert AtodMaxDigits(16) == 16;
      case 5 => assert AtodMaxDigits(32) == 12;
    }
  }

  lemma SomeDropped(digits: seq<nat>, n: nat)
    requires n <= |digits|
    ensures AnyNonzero(digits, n) ==> n < |digits|
  {
  }

  lemma GeneralNumeral(x: real, digits: seq<nat>, b: Radix, point: int, exponent: int, n: nat) returns (z: real)
    requires IsNumeral(x, Kept(digits, b), b, point, exponent, false) && OddPart(b) != 1
    requires n == Least(|digits|, AtodMaxDigits(b)) <= |digits|
    ensures RadixScaled(z, DigitsValue(digits[..n], b) as real, b, exponent - (n - point)) && IsScaled(x, z, 1074)
  {
    hide RadixScaled, IsScaled, DigitsValue, IsNumeral, Kept, OddPart, AtodMaxDigits;
    KeptPrefix(digits, b, n);
    z := NumeralParts(x, digits[..n], b, point, exponent, exponent - (n - point));
  }

  lemma KeptPrefix(digits: seq<nat>, b: Radix, n: nat)
    requires OddPart(b) != 1 && n == Least(|digits|, AtodMaxDigits(b)) <= |digits|
    ensures Kept(digits, b) == digits[..n]
  {
    hide OddPart, AtodMaxDigits;
  }

  lemma NumeralParts(x: real, digits: seq<nat>, b: Radix, point: int, exponent: int, f: int) returns (z: real)
    requires IsNumeral(x, digits, b, point, exponent, false) && f == exponent - (|digits| - point)
    ensures RadixScaled(z, DigitsValue(digits, b) as real, b, f) && IsScaled(x, z, 1074)
  {
    hide RadixScaled, IsScaled, DigitsValue;
    z :| IsNumeralOf(x, z, digits, b, point, exponent, false);
    assert point - |digits| + exponent == f;
  }
}
