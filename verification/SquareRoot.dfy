/** sqrtrem_u and sqrt_sf of the soft-float library. */
module SquareRoot {
  import opened MachineWords
  import opened PowersOfTwo
  import opened Rounding
  import opened Binary64
  import opened StickyBits
  import opened RoundPack
  import opened Multiplication
  import opened Division

  function Square(n: nat): nat {
    n * n
  }

  /** s is the integer square root of n. */
  ghost predicate IsIntegerRoot(s: nat, n: nat) {
    Square(s) <= n < Square(s + 1)
  }

  /** The operands whose initial estimate lies below the root: the high word is
      a power of four and the low word is large. */
  predicate StartsLow(a1: nat, a0: nat) {
    a1 > 0
    && var l := BitLength(a1 - 1);
       l % 2 == 0 && a1 == Pow2(l) && a0 > 2 * Pow2(32 + l / 2)
  }

  /** The first operand that starts low: its root is 2^32 + 1, and the loop stops
      at the estimate 2^32, as the next one is not smaller. */
  lemma StartsLowExample()
    ensures var n, s := TWO64 + 0x2_0000_0001, 0x1_0000_0000;
            && StartsLow(1, 0x2_0000_0001) && EstimateExponent(1, 0x2_0000_0001) == 64 && s == Pow2(32)
            && (n / s + s) / 2 == s + 1 && Square(s) < n && IsIntegerRoot(s + 1, n)
  {
    Pow2Values();
    hide Pow2;
    assert BitLength(0) == 0 && Clz64(0) == 64;
  }

  /** One Newton step from s does not fall below the root. */
  lemma NewtonStep(n: nat, s: nat, q: nat, r: nat, u: nat)
    requires s > 0 && n == q * s + r && r < s && u == (q + s) / 2
    ensures n < Square(u + 1)
    ensures u >= s ==> Square(s) <= n
  {
    var t := u + 1;
    MulLower(q + s + 1, 2 * t, s, s);
    SumTimes(q, s);
    SquareOfDifference(s, t);
    if u >= s {
      MulLower(s, q, s, s);
    }
  }

  lemma SumTimes(q: int, s: int)
    ensures (q + s + 1) * s == q * s + s * s + s
  {
  }

  lemma SquareOfDifference(s: int, t: int)
    ensures s * s + t * t >= 2 * t * s
  {
    assert (s - t) * (s - t) >= 0;
  }

  /** Above the root, the quotient exceeds the estimate by two at most. */
  lemma QuotientNearEstimate(n: nat, s: nat, q: nat, r: nat)
    requires s > 0 && n == q * s + r && n < Square(s + 1)
    ensures q <= s + 2
    ensures q == s + 2 ==> n == Square(s + 1) - 1
  {
    SquareSuccessor(s);
    if q >= s + 2 {
      MulLower(s + 2, q, s, s);
      if q >= s + 3 {
        MulLower(s + 3, q, s, s);
      }
    }
  }

  lemma SquareSuccessor(s: nat)
    ensures Square(s + 1) == s * s + 2 * s + 1
    ensures (s + 2) * s == s * s + 2 * s && (s + 3) * s == s * s + 3 * s
  {
  }

  /** The sum in a Newton step fits one word, except for the one operand
      2^126 - 1. */
  lemma NewtonSumFits(n: nat, s: nat, q: nat, r: nat)
    requires n < TWO62 * TWO64 - 1 && 0 < s <= TWO63
    requires n == q * s + r && n < Square(s + 1)
    ensures q + s < TWO64
  {
    assert Square(TWO63) == TWO62 * TWO64;
    hide Square;
    QuotientNearEstimate(n, s, q, r);
    if s == TWO63 && q >= TWO63 {
      MulLower(TWO63, q, s, s);
    }
  }

  lemma TopBits()
    ensures BitLength(TWO62 - 2) == 62
  {
    Pow2Values();
    assert Pow2(61) <= TWO62 - 2 < Pow2(62);
    hide Pow2, BitLength;
    BitLengthUnique(TWO62 - 2, 62);
  }

  /** At 2^126 - 1 the loop starts at 2^63 and goes on with 2^63 - 1, which is
      the root.  There the sum is 2^64, which a 64-bit word turns into zero: the
      next estimate is 0, and the high word is not below it. */
  lemma NewtonSumWraps()
    ensures var n, s := TWO62 * TWO64 - 1, TWO63 - 1;
            && EstimateExponent(TWO62 - 1, TWO64 - 1) == 126 && Pow2((126 + 1) / 2) == TWO63
            && (n / TWO63 + TWO63) / 2 == s && IsIntegerRoot(s, n) && n / s == s + 2
            && (n / s + s) % TWO64 / 2 == 0
  {
    Pow2Values();
    TopBits();
    hide Pow2, BitLength;
    var n, s := TWO62 * TWO64 - 1, TWO63 - 1;
    assert n == (s + 2) * s;
    DivModUnique(n, s, s + 2, 0);
  }

  /** The estimate exceeds the high word, as divrem_u requires. */
  lemma EstimateAboveHighWord(a1: nat, a0: nat, s: nat)
    requires a1 < TWO62 && s > 0 && a1 * TWO64 + a0 < Square(s + 1)
    ensures a1 < s
  {
    hide Square;
    if s <= a1 {
      SquareMonotone(s + 1, a1 + 1);
      HighWordSquare(a1);
    }
  }

  lemma HighWordSquare(a1: nat)
    requires 0 < a1 < TWO62
    ensures Square(a1 + 1) <= a1 * TWO64
  {
    SquareSuccessor(a1);
    MulLower(a1, TWO62, a1, a1);
  }

  lemma SquareMonotone(a: nat, b: nat)
    requires a <= b
    ensures Square(a) <= Square(b)
  {
    MulLower(a, b, b, a);
  }

  // ----- the initial estimate -----

  function EstimateExponent(a1: Bits, a0: Bits): nat
    requires a1 != 0 || a0 != 0
  {
    if a1 != 0 then 128 - Clz64(a1 - 1) else 64 - Clz64(a0 - 1)
  }

  /** 2^((l+1)/2) is at least the root unless the operand starts low, and then
      it is a lower bound already. */
  lemma InitialEstimate(a1: Bits, a0: Bits, u: nat)
    requires a1 < TWO62 && (a1 != 0 || a0 != 0)
    requires u == Pow2((EstimateExponent(a1, a0) + 1) / 2)
    ensures 0 < u <= TWO63 && a1 < u
    ensures !StartsLow(a1, a0) ==> a1 * TWO64 + a0 < Square(u + 1)
    ensures StartsLow(a1, a0) ==> LowEstimateOf(u, a1 * TWO64 + a0)
  {
    hide Pow2, Square;
    var l := EstimateExponent(a1, a0);
    if a1 != 0 {
      HighEstimate(a1, a0, BitLength(a1 - 1), u);
    } else {
      LowEstimate(a0, BitLength(a0 - 1), u);
    }
  }

  lemma LowEstimate(a0: Bits, l: nat, u: nat)
    requires a0 > 0 && l == BitLength(a0 - 1) && u == Pow2((l + 1) / 2)
    ensures 0 < u <= TWO63 && a0 < Square(u + 1)
  {
    hide Pow2, BitLength;
    Pow2Values();
    BitLengthBounds(a0 - 1);
    BitLengthAtMost(a0 - 1, 64);
    Pow2Monotone((l + 1) / 2, 63);
    Pow2Add((l + 1) / 2, (l + 1) / 2);
    Pow2Monotone(l, (l + 1) / 2 + (l + 1) / 2);
    assert Square(u + 1) == u * u + 2 * u + 1;
  }

  lemma HighEstimate(a1: Bits, a0: Bits, l: nat, u: nat)
    requires 0 < a1 < TWO62 && l == BitLength(a1 - 1) && u == Pow2((64 + l + 1) / 2)
    ensures 0 < u <= TWO63 && a1 < u
    ensures !StartsLow(a1, a0) ==> a1 * TWO64 + a0 < Square(u + 1)
    ensures StartsLow(a1, a0) ==> LowEstimateOf(u, a1 * TWO64 + a0)
  {
    hide Pow2, BitLength, Square;
    Pow2Values();
    BitLengthBounds(a1 - 1);
    BitLengthAtMost(a1 - 1, 62);
    var k := (64 + l + 1) / 2;
    Pow2Monotone(k, 63);
    Pow2StrictlyMonotone(l, k);
    EstimateSquare(k, u);
    Pow2Add(64, l);
    if l % 2 == 1 {
      Pow2Succ(64 + l);
    } else {
      EvenEstimate(a1, a0, l, u);
    }
  }

  lemma EstimateSquare(k: nat, u: nat)
    requires u == Pow2(k)
    ensures Square(u) == Pow2(2 * k) && Square(u + 1) == Pow2(2 * k) + 2 * u + 1
  {
    hide Pow2;
    Pow2Add(k, k);
    SquareSuccessor(u);
  }

  /** With an even exponent only an exact power of four can start low. */
  lemma EvenEstimate(a1: Bits, a0: Bits, l: nat, u: nat)
    requires 0 < a1 < TWO62 && l == BitLength(a1 - 1) && l % 2 == 0 && l <= 62 && u == Pow2(32 + l / 2)
    requires Square(u) == TWO64 * Pow2(l) && Square(u + 1) == Square(u) + 2 * u + 1
    requires a1 <= Pow2(l)
    ensures !StartsLow(a1, a0) ==> a1 * TWO64 + a0 < Square(u + 1)
    ensures StartsLow(a1, a0) ==> LowEstimateOf(u, a1 * TWO64 + a0)
  {
    hide Pow2, BitLength, Square;
    Pow2Values();
    if a1 == Pow2(l) {
      if l == 62 {
        assert false;
      }
      Pow2Monotone(32 + l / 2, 62);
    } else {
      assert (a1 + 1) * TWO64 <= Pow2(l) * TWO64;
    }
  }

  // ----- the loop -----

  /** What the initial estimate provides. */
  ghost predicate Estimate(u: nat, n: nat, low: bool) {
    if low then LowEstimateOf(u, n) else 0 < u <= TWO63 && n < Square(u + 1)
  }

  /** The Newton loop of sqrtrem_u, from an estimate u. */
  method NewtonLoop(a1: Bits, a0: Bits, estimate: Bits, ghost low: bool) returns (s: Bits)
    requires a1 < TWO62 && 0 < a1 * TWO64 + a0 < TWO62 * TWO64 - 1
    requires a1 < estimate && Estimate(estimate, a1 * TWO64 + a0, low)
    ensures IsIntegerRoot(s, a1 * TWO64 + a0) <==> !low
  {
    hide Square, Estimate, IsIntegerRoot, IsDivision;
    var u: nat := estimate;
    while true
      invariant u < TWO64 && a1 < u && Estimate(u, a1 * TWO64 + a0, low)
      decreases u
    {
      s := u;
      var q, r := DivremU(a1, a0, s);
      StepFromEstimate(a1, a0, s, q, r, low);
      u := (q + s) % TWO64 / 2;
      if u >= s {
        break;
      }
    }
  }

  lemma StepFromEstimate(a1: nat, a0: nat, s: nat, q: nat, r: nat, low: bool)
    requires a1 < TWO62 && 0 < a1 * TWO64 + a0 < TWO62 * TWO64 - 1
    requires IsDivision(a1 * TWO64 + a0, s, q, r) && Estimate(s, a1 * TWO64 + a0, low)
    ensures q + s < TWO64
    ensures (q + s) / 2 >= s ==> (IsIntegerRoot(s, a1 * TWO64 + a0) <==> !low)
    ensures (q + s) / 2 < s ==> a1 < (q + s) / 2 && Estimate((q + s) / 2, a1 * TWO64 + a0, low)
  {
    hide Square, LowEstimateOf, IsIntegerRoot;
    var n, u := a1 * TWO64 + a0, (q + s) / 2;
    if low {
      LowSumFits(n, s, q, r);
      RootFound(n, s, low);
    } else {
      NewtonSumFits(n, s, q, r);
      NewtonStep(n, s, q, r, u);
      if u >= s {
        RootFound(n, s, low);
      } else {
        EstimatePositive(n, u);
        EstimateAboveHighWord(a1, a0, u);
      }
    }
  }

  /** sqrtrem_u on two words: Newton's iteration on the integer square root.
      The result is the integer root exactly when the operand does not start
      low; it then is one step's lower bound. */
  method SqrtremU(a1: Bits, a0: Bits) returns (s: Bits, inexact: bool)
    requires a1 < TWO62 && a1 * TWO64 + a0 < TWO62 * TWO64 - 1
    ensures IsIntegerRoot(s, a1 * TWO64 + a0) <==> !StartsLow(a1, a0)
    ensures inexact <==> Square(s) != a1 * TWO64 + a0
  {
    hide Pow2, Square, StartsLow, EstimateExponent, LowEstimateOf, IsIntegerRoot;
    if a1 == 0 && a0 == 0 {
      ZeroRoot();
      return 0, false;
    }
    var u: nat := Pow2((EstimateExponent(a1, a0) + 1) / 2);
    InitialEstimate(a1, a0, u);
    s := NewtonLoop(a1, a0, u, StartsLow(a1, a0));
    var sq1, sq0 := MulU(s, s);
    SquareWords(s, sq1, sq0);
    inexact := sq0 != a0 || sq1 != a1;
  }

  lemma RootFound(n: nat, s: nat, low: bool)
    requires if low then LowEstimateOf(s, n) else Square(s) <= n < Square(s + 1)
    ensures IsIntegerRoot(s, n) <==> !low
  {
  }

  lemma ZeroRoot()
    ensures IsIntegerRoot(0, 0) && Square(0) == 0 && !StartsLow(0, 0)
  {
  }

  /** The initial estimate of an operand that starts low. */
  ghost predicate LowEstimateOf(u: nat, n: nat) {
    0 < u <= TWO62 && Square(u + 1) <= n < 2 * Square(u)
  }

  /** From a low start the first step does not decrease, so the loop stops. */
  lemma LowSumFits(n: nat, s: nat, q: nat, r: nat)
    requires LowEstimateOf(s, n) && n == q * s + r && r < s
    ensures s <= (q + s) / 2 && q + s < TWO64 && 0 < s <= TWO63
  {
    SquareMonotone(s, s + 1);
    PredecessorTimes(s);
    if q >= 2 * s {
      MulLower(2 * s, q, s, s);
    }
    if q < s {
      MulLower(q, s - 1, s, s);
    }
  }

  lemma PredecessorTimes(s: int)
    ensures (s - 1) * s == s * s - s && (2 * s) * s == 2 * (s * s)
  {
  }

  lemma EstimatePositive(n: nat, u: nat)
    requires 0 < n < Square(u + 1)
    ensures u > 0
  {
  }

  lemma SquareWords(s: nat, high: Bits, low: Bits)
    requires high * TWO64 + low == Times(s, s)
    ensures high * TWO64 + low == Square(s)
  {
  }

  // ----- sqrt_sf -----

  /** x is the nonnegative square root of n. */
  ghost predicate IsRoot(x: real, n: real) {
    x >= 0.0 && x * x == n
  }

  /** s brackets the root of the radicand n * 4^k from below, in units of 2^k. */
  ghost predicate IsBracket(radicand: real, n: nat, k: int, s: nat) {
    IsScaled(radicand, n as real, 2 * k) && IsIntegerRoot(s, n)
  }

  /** x is s * 2^k when n is the square of s, and otherwise lies strictly between
      s * 2^k and (s + 1) * 2^k: where the exact root is. */
  ghost predicate InBracket(x: real, n: nat, k: int, s: nat) {
    exists v: real :: InBracketAt(x, v, n, k, s)
  }

  ghost predicate InBracketAt(x: real, v: real, n: nat, k: int, s: nat) {
    IsScaled(x, v, k) && if Square(s) == n then v == s as real else s as real < v < (s + 1) as real
  }

  /** Every number that the bracket leaves for the root rounds to r. */
  ghost predicate BracketRounds(n: nat, k: int, s: nat, rm: RoundingMode, r: Bits) {
    forall x: real :: InBracket(x, n, k, s) ==> RoundsTo(x, 0, rm, r)
  }

  ghost predicate RootRounds(radicand: real, rm: RoundingMode, r: Bits) {
    exists n: nat, k: int, s: nat :: IsBracket(radicand, n, k, s) && BracketRounds(n, k, s, rm, r)
  }

  /** r is the square root of a as IEEE 754-2019 defines it.  The exact root, in
      units of 2^-1074, is given by a bracket of integers around it. */
  ghost predicate IsSquareRoot(a: Bits, rm: RoundingMode, r: Bits) {
    if IsNaN(a) then r == QNAN
    else if IsZero(a) then r == a
    else if SignOf(a) == 1 then r == QNAN
    else if IsInfinite(a) then r == a
    else RootRounds(ScaleBy(Magnitude(a) as real, 1074), rm, r)
  }

  /** The real root lies in every bracket, so r is its rounding. */
  lemma SquareRootRounded(a: Bits, rm: RoundingMode, r: Bits, x: real)
    requires IsSquareRoot(a, rm, r) && IsFinite(a) && !IsZero(a) && SignOf(a) == 0
    requires IsRoot(x, ScaleBy(Magnitude(a) as real, 1074))
    ensures RoundsTo(x, 0, rm, r)
  {
    hide IsBracket, InBracket, RoundsTo, ScaleBy, Magnitude, IsRoot;
    var radicand := ScaleBy(Magnitude(a) as real, 1074);
    var n: nat, k: int, s: nat :| IsBracket(radicand, n, k, s) && BracketRounds(n, k, s, rm, r);
    RootInBracket(radicand, n, k, s, x);
  }

  lemma RootInBracket(radicand: real, n: nat, k: int, s: nat, x: real)
    requires IsBracket(radicand, n, k, s) && IsRoot(x, radicand)
    ensures InBracket(x, n, k, s)
  {
    hide IsScaled, Exp2, IsIntegerRoot, ScaleBy, Square;
    var v := ScaleBy(x, 0 - k);
    ScaleInverse(v, x, 0 - k);
    ScaledRoot(x, v, k, radicand, n as real);
    RootFloor(v, n, s, Square(s) != n);
    assert InBracketAt(x, v, n, k, s);
  }

  // ----- two brackets of the same root meet -----

  /** The ends of a bracket, as real numbers. */
  lemma BracketEnds(radicand: real, n: nat, k: int, s: nat) returns (lo: real, hi: real)
    requires IsBracket(radicand, n, k, s)
    ensures 0.0 <= lo < hi && lo * lo <= radicand < hi * hi && (Square(s) == n <==> lo * lo == radicand)
    ensures forall x :: InBracket(x, n, k, s) <==> (if Square(s) == n then x == lo else lo < x < hi)
  {
    hide Exp2, ScaleBy, IsScaled, Square;
    var a, b := s as real, (s + 1) as real;
    lo, hi := ScaleBy(a, k), ScaleBy(b, k);
    ScaledZero(k);
    ScaleOrder(0.0, lo, 0.0, a, k);
    ScaleOrder(lo, hi, a, b, k);
    ScaleProduct(lo, a, k, lo, a, k);
    ScaleProduct(hi, b, k, hi, b, k);
    SquareReal(s);
    SquareReal(s + 1);
    ScaleOrder(lo * lo, radicand, a * a, n as real, 2 * k);
    ScaleOrder(radicand, lo * lo, n as real, a * a, 2 * k);
    ScaleOrder(radicand, hi * hi, n as real, b * b, 2 * k);
    forall x
      ensures InBracket(x, n, k, s) <==> (if Square(s) == n then x == lo else lo < x < hi)
    {
      BracketOrder(x, n, k, s, lo, hi);
    }
  }

  lemma SquareReal(s: nat)
    ensures Square(s) as real == (s as real) * (s as real)
  {
    CastProduct(s, s);
  }

  lemma BracketOrder(x: real, n: nat, k: int, s: nat, lo: real, hi: real)
    requires IsScaled(lo, s as real, k) && IsScaled(hi, (s + 1) as real, k)
    ensures InBracket(x, n, k, s) <==> (if Square(s) == n then x == lo else lo < x < hi)
  {
    hide Exp2, ScaleBy, IsScaled, Square;
    var v := ScaleBy(x, 0 - k);
    ScaleInverse(v, x, 0 - k);
    ScaleOrder(x, lo, v, s as real, k);
    ScaleOrder(lo, x, s as real, v, k);
    ScaleOrder(x, hi, v, (s + 1) as real, k);
    if InBracket(x, n, k, s) {
      var w: real :| InBracketAt(x, w, n, k, s);
      ScaleOrder(x, x, v, w, k);
    }
    assert InBracketAt(x, v, n, k, s) <==> (if Square(s) == n then x == lo else lo < x < hi);
  }

  /** Some number lies in both. */
  lemma BracketsMeet(radicand: real, n1: nat, k1: int, s1: nat, n2: nat, k2: int, s2: nat) returns (x: real)
    requires IsBracket(radicand, n1, k1, s1) && IsBracket(radicand, n2, k2, s2)
    ensures InBracket(x, n1, k1, s1) && InBracket(x, n2, k2, s2)
  {
    var lo1, hi1 := BracketEnds(radicand, n1, k1, s1);
    var lo2, hi2 := BracketEnds(radicand, n2, k2, s2);
    hide *;
    CompareSquares(lo1, hi2);
    CompareSquares(lo2, hi1);
    CompareSquares(lo1, lo2);
    CompareSquares(lo2, lo1);
    if Square(s1) == n1 {
      x := lo1;
    } else if Square(s2) == n2 {
      x := lo2;
    } else {
      var lo, hi := if lo1 < lo2 then lo2 else lo1, if hi1 < hi2 then hi1 else hi2;
      x := (lo + hi) / 2.0;
    }
  }

  method SqrtSf(a: Bits, rm: RoundingMode) returns (r: Bits)
    ensures IsSquareRoot(a, rm, r)
  {
    hide Pow2, Exp2, IsScaled, ScaleBy, SignOf, ExponentOf, FractionOf, Magnitude;
    hide Agree, RoundsTo, Normalized, IsRoot, IsIntegerRoot, StartsLow, Square;
    var aSign, aExp: int, aMant := SignOf(a), ExponentOf(a), FractionOf(a);
    if aExp == EXP_MASK {
      if aMant != 0 {
        return QNAN;
      } else if aSign != 0 {
        return QNAN;
      } else {
        return a;
      }
    }
    if aSign != 0 {
      if aExp == 0 && aMant == 0 {
        return a;
      }
      return QNAN;
    }
    if aExp == 0 {
      if aMant == 0 {
        PositiveZero(a);
        return Pack(0, 0, 0);
      }
      aExp, aMant := NormalizeSubnormalSf(aMant);
      NormalizedSubnormal(a, aExp, aMant);
    } else {
      aMant := aMant + P52;
      NormalizedNormal(a);
    }
    ghost var e0, m0 := aExp, aMant;
    aExp := aExp - 1023;
    if aExp % 2 == 1 {
      aExp := aExp - 1;
      aMant := aMant * 2;
    }
    aMant := aMant * 256;
    ghost var m := aMant;
    var half := aExp / 2;
    aExp := half + 1023;
    var s, inexact := SqrtremU(aMant, 0);
    NotStartingLow(m);
    ghost var n := m * TWO64;
    RootBounds(m, s);
    aMant := OrBit0(s, inexact);
    ghost var k := half + 1012;
    RadicandScale(a, e0, m0, half, n);
    ghost var v := if inexact then s as real + 0.5 else s as real;
    BracketAgrees(v, n, s, inexact);
    r := NormalizeSf(0, aExp, aMant, rm, v, ScaleBy(v, k));
    BracketNormalized(n, k, s, inexact, aExp, aMant, rm, r);
    BracketIntro(ScaleBy(Magnitude(a) as real, 1074), n, k, s, rm, r);
  }

  lemma BracketIntro(radicand: real, n: nat, k: int, s: nat, rm: RoundingMode, r: Bits)
    requires IsScaled(radicand, n as real, 2 * k) && IsIntegerRoot(s, n) && BracketRounds(n, k, s, rm, r)
    ensures RootRounds(radicand, rm, r)
  {
    hide BracketRounds, IsScaled, IsIntegerRoot;
    assert IsBracket(radicand, n, k, s);
  }

  /** Any point of the bracket agrees with the root's significand and its sticky
      bit. */
  lemma BracketAgrees(v: real, n: nat, s: nat, inexact: bool)
    requires inexact <==> Square(s) != n
    requires if Square(s) == n then v == s as real else s as real < v < (s + 1) as real
    ensures Agree(v, OrBit0(s, inexact), 2)
  {
    hide Agree, OrBit0, Square;
    AgreeFloor(v, s, inexact);
  }

  lemma BracketNormalized(n: nat, k: int, s: nat, inexact: bool, exponent: int, mantissa: nat, rm: RoundingMode,
                          r: Bits)
    requires (inexact <==> Square(s) != n) && mantissa == OrBit0(s, inexact) && k == exponent - 11
    requires 0x40_0000_0000_0000 <= mantissa < TWO63 && r == NormalizedOf(0, exponent, mantissa, rm)
    ensures BracketRounds(n, k, s, rm, r)
  {
    hide Agree, OrBit0, Square, NormalizedOf, IsScaled, RoundsTo;
    forall x: real | InBracket(x, n, k, s)
      ensures RoundsTo(x, 0, rm, r)
    {
      var v: real :| InBracketAt(x, v, n, k, s);
      BracketAgrees(v, n, s, inexact);
      NormalizedOfRounds(0, exponent, mantissa, rm, v, x);
    }
  }

  lemma PositiveZero(a: Bits)
    requires IsZero(a) && SignOf(a) == 0
    ensures Pack(0, 0, 0) == a
  {
    PackFields(a);
  }

  lemma NotStartingLow(m: Bits)
    ensures !StartsLow(m, 0)
  {
    hide Pow2;
  }

  lemma RootBounds(m: nat, s: nat)
    requires TWO62 / 4 <= m <= TWO62 - 256 && IsIntegerRoot(s, m * TWO64)
    ensures TWO62 <= s && s + 1 < TWO63 && 0x40_0000_0000_0000 <= s
  {
    assert Square(TWO62) == TWO62 / 4 * TWO64 && Square(TWO63 - 1) > (TWO62 - 256) * TWO64;
    hide Square;
    if s < TWO62 {
      SquareMonotone(s + 1, TWO62);
    }
    if s + 1 >= TWO63 {
      SquareMonotone(TWO63 - 1, s);
    }
  }

  /** The radicand, in units, is the shifted operand times an even power of two. */
  lemma RadicandScale(a: Bits, e0: int, m0: nat, half: int, n: nat)
    requires Normalized(a, e0, m0)
    requires (e0 == 2 * half + 1023 && n == m0 * 256 * TWO64) || (e0 == 2 * half + 1024 && n == m0 * 2 * 256 * TWO64)
    ensures IsScaled(ScaleBy(Magnitude(a) as real, 1074), n as real, 2 * (half + 1012))
  {
    hide Exp2, IsScaled, Magnitude, ScaleBy;
    var r, x, y := ScaleBy(Magnitude(a) as real, 1074), Magnitude(a) as real, m0 as real;
    var c := if e0 == 2 * half + 1023 then 72 else 73;
    ShiftedRadicand(m0, n, c);
    ScaleTrans(r, x, y, 1074, e0 - 1);
    ScaleInverse(n as real, y, c);
    ScaleTrans(r, y, n as real, 1074 + e0 - 1, 0 - c);
  }

  lemma ShiftedRadicand(m0: nat, n: nat, c: nat)
    requires (c == 72 && n == m0 * 256 * TWO64) || (c == 73 && n == m0 * 2 * 256 * TWO64)
    ensures IsScaled(n as real, m0 as real, c)
  {
    Pow2Values();
    assert Pow2(72) == 256 * TWO64 by { hide Pow2; Pow2Add(8, 64); }
    assert Pow2(73) == 512 * TWO64 by { hide Pow2; Pow2Add(9, 64); }
    hide Pow2;
    ScaleNat(m0 as real, c);
    hide Exp2;
    if c == 72 {
      assert n as real == (m0 as real) * 4722366482869645213696.0;
    } else {
      assert n as real == (m0 as real) * 9444732965739290427392.0;
    }
  }

  lemma ScaledRoot(x: real, v: real, k: int, radicand: real, n: real)
    requires IsRoot(x, radicand) && IsScaled(x, v, k) && IsScaled(radicand, n, 2 * k)
    ensures IsRoot(v, n)
  {
    hide IsScaled, Exp2;
    ScaleProduct(x, v, k, x, v, k);
    ScaleOrder(x * x, radicand, v * v, n, 2 * k);
    ScaledZero(k);
    ScaleOrder(x, 0.0, v, 0.0, k);
  }

  lemma RootFloor(v: real, n: nat, s: nat, inexact: bool)
    requires IsRoot(v, n as real) && IsIntegerRoot(s, n) && (inexact <==> Square(s) != n)
    ensures if inexact then s as real < v < (s + 1) as real else v == s as real
  {
    CompareSquares(v, s as real);
    CompareSquares(v, (s + 1) as real);
    CastProduct(s, s);
    CastProduct(s + 1, s + 1);
  }

  lemma CompareSquares(a: real, b: real)
    requires a >= 0.0 && b >= 0.0
    ensures a < b <==> a * a < b * b
    ensures a == b <==> a * a == b * b
  {
    if a < b {
      SquareStrict(a, b);
    } else if b < a {
      SquareStrict(b, a);
    }
  }

  lemma SquareStrict(a: real, b: real)
    requires 0.0 <= a < b
    ensures a * a < b * b
  {
    var d := b - a;
    assert b * b == a * a + (2.0 * (a * d) + d * d);
    assert a * d >= 0.0;
    assert d * d > 0.0;
  }
}
