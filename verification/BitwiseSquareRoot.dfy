/** The portable js_sqrt of libm.c: one root bit per step, on two words. */
module BitwiseSquareRoot {
  import opened MachineWords
  import opened PowersOfTwo
  import opened Rounding
  import opened Binary64
  import opened StickyBits
  import opened RoundPack
  import opened SquareRoot

  /** The int and unsigned variables of the source; that they never wrap where
      the source does not mean them to is checked at each assignment. */
  type IntWord = x: nat | x < 0x8000_0000
  type UnsignedWord = x: nat | x < 0x1_0000_0000

  /** The root q of t is known down to the bit p, and x is twice the scaled
      remainder: x * p == 2 * (t - q^2). */
  ghost predicate RootState(t: nat, p: nat, q: nat, x: nat) {
    && p > 0 && q % p == 0
    && x * p == 2 * (t - Square(q))
    && Square(q) <= t < Square(q + p)
  }

  /** One bit: r = p / 2 is added to the root when 2q + r fits the remainder. */
  lemma RootStep(t: nat, p: nat, r: nat, q: nat, x: nat)
    requires RootState(t, p, q, x) && p == 2 * r && r > 0
    ensures if 2 * q + r <= x then RootState(t, r, q + r, 2 * (x - (2 * q + r)))
            else RootState(t, r, q, 2 * x)
  {
    RootMultiple(q, p, r);
    RootProducts(q, r, x);
    hide Square;
    if 2 * q + r <= x {
      MulLower(2 * q + r, x, r, r);
    } else {
      MulLower(x + 1, 2 * q + r, r, r);
    }
  }

  lemma RootProducts(q: int, r: int, x: int)
    requires q >= 0 && r >= 0
    ensures x * (2 * r) == 2 * (x * r) && (x + 1) * r == x * r + r
    ensures (2 * q + r) * r == 2 * (q * r) + r * r
    ensures (2 * x) * r == 2 * (x * r)
    ensures (2 * (x - (2 * q + r))) * r == 2 * (x * r) - 4 * (q * r) - 2 * (r * r)
    ensures Square(q + r) == Square(q) + 2 * (q * r) + r * r
    ensures Square(q + 2 * r) == Square(q) + 4 * (q * r) + 4 * (r * r)
    ensures q + r + r == q + 2 * r
  {
  }

  lemma RootMultiple(q: nat, p: nat, r: nat)
    requires p == 2 * r && r > 0 && q % p == 0
    ensures q % r == 0 && (q + r) % r == 0
  {
    MultipleOfMultipleOf(q, p, r);
    assert q == (q / r) * r;
    assert q + r == (q / r + 1) * r;
    ModMultiple(q / r + 1, r);
  }

  lemma MultipleOfMultipleOf(q: nat, p: nat, r: nat)
    requires p == 2 * r && r > 0 && q % p == 0
    ensures q % r == 0
  {
    assert q == (q / p) * p;
    assert q == ((q / p) * 2) * r by { MulAssocInt(q / p, 2, r); }
    ModMultiple((q / p) * 2, r);
  }

  lemma RootDone(t: nat, q: nat, x: nat)
    requires RootState(t, 1, q, x)
    ensures IsIntegerRoot(q, t) && (x == 0 <==> Square(q) == t)
  {
  }

  // ----- the two words -----

  /** Shifting the remainder words left by one, the top bit of the low word
      moving up. */
  function ShiftHigh(h: nat, l: nat): nat { h + (h + l / TWO31) }
  function ShiftLow(l: nat): nat { (l + l) % TWO32 }

  lemma ShiftWords(h: nat, l: nat)
    requires l < TWO32
    ensures ShiftHigh(h, l) * TWO32 + ShiftLow(l) == 2 * (h * TWO32 + l) && ShiftLow(l) < TWO32
  {
  }

  /** The invariant of both loops, on words: [q,q1] is the root, [s0,s1] twice
      the root, [ix0,ix1] the remainder, and p twice the next bit. */
  ghost predicate Words(t: nat, p: nat, q: nat, q1: nat, s0: nat, s1: nat, ix0: nat, ix1: nat) {
    && q1 < TWO32 && s1 < TWO32 && ix1 < TWO32
    && s0 * TWO32 + s1 == 2 * (q * TWO32 + q1)
    && RootState(t, p, q * TWO32 + q1, ix0 * TWO32 + ix1)
  }

  lemma HighStep(t: nat, r: nat, q: nat, s0: nat, ix0: nat, ix1: nat)
    requires r > 0 && Words(t, 2 * r * TWO32, q, 0, s0, 0, ix0, ix1)
    ensures if s0 + r <= ix0
            then Words(t, r * TWO32, q + r, 0, s0 + r + r, 0, ShiftHigh(ix0 - (s0 + r), ix1), ShiftLow(ix1))
            else Words(t, r * TWO32, q, 0, s0, 0, ShiftHigh(ix0, ix1), ShiftLow(ix1))
  {
    hide RootState, ShiftHigh, ShiftLow;
    RootStep(t, 2 * r * TWO32, r * TWO32, q * TWO32, ix0 * TWO32 + ix1);
    if s0 + r <= ix0 {
      ShiftWords(ix0 - (s0 + r), ix1);
      assert q * TWO32 + r * TWO32 == (q + r) * TWO32 + 0;
    } else {
      ShiftWords(ix0, ix1);
    }
  }

  /** The low words of the root and its double leave room for the next bit. */
  lemma LowWordRoom(n: nat, h: nat, l: nat, u: nat)
    requires 0 < u <= TWO32 && TWO32 % u == 0 && n == h * TWO32 + l && l < TWO32 && n % u == 0
    ensures l <= TWO32 - u
  {
    var c := TWO32 / u;
    assert TWO32 == c * u;
    assert n == (n / u) * u;
    MulAssocInt(h, c, u);
    var k := n / u - h * c;
    assert l == k * u;
    if k >= c {
      MulLower(c, k, u, u);
    } else {
      ScaleBound(k, c, u);
    }
  }

  lemma DoubleMultiple(n: nat, u: nat)
    requires u > 0 && n % u == 0
    ensures (2 * n) % u == 0
  {
    assert n == (n / u) * u;
    MulAssocInt(2, n / u, u);
    ModMultiple(2 * (n / u), u);
  }

  lemma LowRoom(t: nat, r: nat, q: nat, q1: nat, s0: nat, s1: nat, x: nat)
    requires 0 < r <= TWO31 && TWO32 % (2 * r) == 0 && q1 < TWO32 && s1 < TWO32
    requires s0 * TWO32 + s1 == 2 * (q * TWO32 + q1) && RootState(t, 2 * r, q * TWO32 + q1, x)
    ensures q1 <= TWO32 - 2 * r && s1 <= TWO32 - 2 * r
  {
    var n := q * TWO32 + q1;
    LowWordRoom(n, q, q1, 2 * r);
    DoubleMultiple(n, 2 * r);
    LowWordRoom(2 * n, s0, s1, 2 * r);
  }

  /** The carry test on the sign bits is the carry of the 32-bit sum. */
  predicate Carries(t1: nat, s1: nat) { t1 >= TWO31 && s1 < TWO31 }

  lemma LowStep(t: nat, r: nat, q: nat, q1: nat, s0: nat, s1: nat, ix0: nat, ix1: nat)
    requires 0 < r <= TWO31 && TWO32 % (2 * r) == 0 && Words(t, 2 * r, q, q1, s0, s1, ix0, ix1)
    ensures q1 + r < TWO32 && s1 + r < TWO32
    ensures var t1 := s1 + r;
            var s1' := (t1 + r) % TWO32;
            var s0' := if Carries(t1, s1') then s0 + 1 else s0;
            var x0, x1 := ix0 - s0 - (if ix1 < t1 then 1 else 0), (ix1 - t1) % TWO32;
            if s0 < ix0 || (s0 == ix0 && t1 <= ix1)
            then x0 >= 0 && Words(t, r, q, q1 + r, s0', s1', ShiftHigh(x0, x1), ShiftLow(x1))
            else Words(t, r, q, q1, s0, s1, ShiftHigh(ix0, ix1), ShiftLow(ix1))
  {
    hide RootState, ShiftHigh, ShiftLow;
    var n := q * TWO32 + q1;
    LowRoom(t, r, q, q1, s0, s1, ix0 * TWO32 + ix1);
    RootStep(t, 2 * r, r, n, ix0 * TWO32 + ix1);
    var t1 := s1 + r;
    assert 2 * n + r == s0 * TWO32 + t1;
    if s0 < ix0 || (s0 == ix0 && t1 <= ix1) {
      var x0, x1 := ix0 - s0 - (if ix1 < t1 then 1 else 0), (ix1 - t1) % TWO32;
      SubtractWords(ix0, ix1, s0, t1, x0, x1);
      ShiftWords(x0, x1);
      AddCarry(s0, s1, r);
    } else {
      ShiftWords(ix0, ix1);
    }
  }

  lemma SubtractWords(ix0: nat, ix1: nat, s0: nat, t1: nat, x0: int, x1: nat)
    requires ix1 < TWO32 && t1 < TWO32 && (s0 < ix0 || (s0 == ix0 && t1 <= ix1))
    requires x0 == ix0 - s0 - (if ix1 < t1 then 1 else 0) && x1 == (ix1 - t1) % TWO32
    ensures x0 >= 0 && x1 < TWO32
    ensures x0 * TWO32 + x1 == (ix0 * TWO32 + ix1) - (s0 * TWO32 + t1)
  {
  }

  lemma AddCarry(s0: nat, s1: nat, r: nat)
    requires 0 < r <= TWO31 && s1 <= TWO32 - 2 * r
    ensures var s1' := (s1 + r + r) % TWO32;
            var s0' := if Carries(s1 + r, s1') then s0 + 1 else s0;
            s1' < TWO32 && s0' * TWO32 + s1' == s0 * TWO32 + s1 + 2 * r
  {
  }

  // ----- start of the loops -----

  /** The two words of a normal operand with its implicit bit restored. */
  lemma NormalOperand(x: Bits, ix0: nat, ix1: nat, m: int)
    requires SignOf(x) == 0 && 0 < ExponentOf(x) < EXP_MASK
    requires ix0 == x / TWO32 % 0x10_0000 + 0x10_0000 && ix1 == x % TWO32 && m == x / TWO32 / 0x10_0000 - 1023
    ensures ix0 * TWO32 + ix1 == P52 + FractionOf(x) && m == ExponentOf(x) - 1023
    ensures ix0 < 0x20_0000
  {
  }

  lemma StartRoot(y: nat)
    requires P53 <= y < 4 * P53
    ensures RootState(y * P53, Pow2(22) * TWO32, 0, y)
  {
    HighBit();
    hide Pow2;
    assert Square(0) == 0 && Square(2 * P53) == 4 * P53 * P53;
  }

  /** The moving bit of the loops: half of 2^i, zero at the end. */
  lemma BitOf(i: nat, bit: nat)
    requires bit == Pow2(i) / 2 && i <= 32
    ensures bit == 0 <==> i == 0
    ensures i > 0 ==> Pow2(i) == 2 * bit && bit == Pow2(i - 1) && bit <= TWO31 && TWO32 % (2 * bit) == 0
  {
    Pow2Values();
    hide Pow2;
    if i > 0 {
      Pow2Succ(i - 1);
      Pow2Monotone(i, 32);
      Pow2Add(32 - i, i);
      ModMultiple(Pow2(32 - i), Pow2(i));
    }
  }

  // ----- the rounded root -----

  /** The root of an even number is never odd and exact. */
  lemma ExactRootEven(y: nat, q: nat)
    requires Square(q) == y * P53
    ensures q % 2 == 0
  {
    OddSquare(q / 2);
  }

  lemma OddSquare(h: nat)
    ensures Square(2 * h + 1) % 2 == 1
  {
    assert Square(2 * h + 1) == 2 * (2 * (h * h) + 2 * h) + 1;
  }

  /** Rounding the 54-bit root up when it is odd and inexact rounds the exact
      root to 53 bits, ties (which cannot occur) to even. */
  lemma RootIncrements(v: real, x: real, q: nat, a: nat, lo: nat, g: nat, inexact: bool)
    requires if inexact then q as real < v < (q + 1) as real else v == q as real && q % 2 == 0
    requires a == q / 2 && g > 0 && 2.0 * x == v * (g as real) && lo == a * g
    ensures lo as real <= x < (lo + g) as real
    ensures Increments(x, lo, g, a % 2 == 1, NearEven) <==> q % 2 == 1
  {
    CompareScaled(v, x, 2 * a, g);
    CompareScaled(v, x, 2 * a + 1, g);
    CompareScaled(v, x, 2 * a + 2, g);
    StepProducts(a, g);
  }

  lemma StepProducts(a: nat, g: nat)
    ensures (2 * a) * g == 2 * (a * g) && (2 * a + 1) * g == 2 * (a * g) + g && (2 * a + 2) * g == 2 * (a * g) + 2 * g
  {
  }

  lemma CompareScaled(v: real, x: real, n: int, g: nat)
    requires g > 0 && 2.0 * x == v * (g as real)
    ensures v < n as real <==> 2.0 * x < (n * g) as real
    ensures v > n as real <==> 2.0 * x > (n * g) as real
  {
    CastProduct(n, g);
    if v < n as real {
      MulStrict(v, n as real, g as real);
    } else if v > n as real {
      MulStrict(n as real, v, g as real);
    }
  }

  lemma RoundRoot(v: real, x: real, q: nat, k: nat, inexact: bool)
    requires if inexact then q as real < v < (q + 1) as real else v == q as real && q % 2 == 0
    requires P53 <= q < 2 * P53 && IsScaled(2.0 * x, v, k)
    ensures Rounds(x, (q + q % 2) / 2 * Pow2(k), NearEven)
  {
    var a, g := q / 2, Pow2(k);
    IsScaledElim(2.0 * x, v, k);
    Exp2Nat(k);
    hide *;
    RootIncrements(v, x, q, a, a * g, g, inexact);
    NextGridPoint(a, g);
    RoundsOnGrid(x, a, k, (q + q % 2) / 2 * g, NearEven);
  }

  /** The bits the code assembles are those round_pack would. */
  lemma RootBits(q: nat, k: nat)
    requires P52 <= q <= P53 && k < 2000
    ensures q + k * P52 == Assemble(0, k, q, RNE)
  {
  }

  lemma RootWords(q: nat, q1: nat, half: int)
    requires q1 < TWO32 && P53 <= q * TWO32 + q1 <= 2 * P53 && 0 <= half + 1022 < 2000
    ensures (q / 2 + 0x3fe0_0000 + half * 0x10_0000) * TWO32 + (q1 / 2 + (if q % 2 == 1 then TWO31 else 0))
         == (q * TWO32 + q1) / 2 + (half + 1022) * P52
  {
    assert q == 2 * (q / 2) + q % 2;
  }

  /** The radicand, in units, is the integer operand of the loops times an even
      power of two. */
  lemma WordRadicand(a: Bits, e: int, m0: nat, y: nat, half: int)
    requires Normalized(a, e, m0)
    requires (e == 2 * half + 1023 && y == 2 * m0) || (e == 2 * half + 1024 && y == 4 * m0)
    ensures IsScaled(ScaleBy(Magnitude(a) as real, 1074), (y * P53) as real, 2 * (half + 1021))
  {
    hide Exp2, IsScaled, Magnitude, ScaleBy, Pow2;
    var n := y * P53;
    var r, x := ScaleBy(Magnitude(a) as real, 1074), Magnitude(a) as real;
    var c := if e == 2 * half + 1023 then 54 else 55;
    Pow2Values();
    Pow2Succ(53);
    Pow2Succ(54);
    CastProduct(m0, Pow2(c));
    ScaleNatOf(n as real, m0 as real, c);
    ScaleTrans(r, x, m0 as real, 1074, e - 1);
    ScaleInverse(n as real, m0 as real, c);
    ScaleTrans(r, m0 as real, n as real, 1074 + e - 1, 0 - c);
  }

  lemma RootIsRounded(x: Bits, y: nat, half: int, q: nat, rest: nat, r: Bits)
    requires IsFinite(x) && !IsZero(x) && SignOf(x) == 0 && P53 <= y < 4 * P53
    requires IsScaled(ScaleBy(Magnitude(x) as real, 1074), (y * P53) as real, 2 * (half + 1021))
    requires RootState(y * P53, 1, q, rest) && P53 <= q < 2 * P53 && 0 <= half + 1022 < 2000
    requires r == (if rest != 0 then q + q % 2 else q) / 2 + (half + 1022) * P52
    ensures IsSquareRoot(x, RNE, r)
  {
    var t, inexact, k := y * P53, rest != 0, half + 1022;
    RootDone(t, q, rest);
    if !inexact {
      ExactRootEven(y, q);
    }
    RootBits((q + q % 2) / 2, k);
    hide RootState, IsIntegerRoot, Pow2, Exp2, IsScaled, ScaleBy, Magnitude, Assemble, BracketRounds, RootRounds;
    RootBracketRounds(t, k, q, inexact, r);
    BracketIntro(ScaleBy(Magnitude(x) as real, 1074), t, k - 1, q, RNE, r);
  }

  lemma RootBracketRounds(t: nat, k: nat, q: nat, inexact: bool, r: Bits)
    requires (inexact <==> Square(q) != t) && (inexact || q % 2 == 0) && P53 <= q < 2 * P53
    requires r == Assemble(0, k, (q + q % 2) / 2, RNE)
    ensures BracketRounds(t, k - 1, q, RNE, r)
  {
    var a := (q + q % 2) / 2;
    AssembleDelivers(0, k, a, RNE);
    hide Square, Pow2, Exp2, IsScaled, Delivers, Assemble, Rounds;
    forall z: real | InBracket(z, t, k - 1, q)
      ensures RoundsTo(z, 0, RNE, r)
    {
      var v: real :| InBracketAt(z, v, t, k - 1, q);
      DoubleScale(z, v, k);
      RoundRoot(v, z, q, k, inexact);
      RoundsToIntro(z, a * Pow2(k), 0, RNE, r);
    }
  }

  lemma DoubleScale(z: real, v: real, k: int)
    requires IsScaled(z, v, k - 1)
    ensures IsScaled(2.0 * z, v, k)
  {
    Exp2Succ(k - 1);
    hide Exp2;
    MulAssoc(2.0, v, Exp2(k - 1));
    MulAssoc(v, 2.0, Exp2(k - 1));
  }

  lemma RootRange(y: nat, q: nat, rest: nat)
    requires P53 <= y < 4 * P53 && RootState(y * P53, 1, q, rest)
    ensures P53 <= q < 2 * P53
  {
    assert Square(P53) == P53 * P53 && Square(2 * P53) == 4 * P53 * P53;
    hide Square;
    if q < P53 {
      SquareMonotone(q + 1, P53);
    }
    if q >= 2 * P53 {
      SquareMonotone(2 * P53, q);
    }
  }

  /** In every state of both loops the high words stay far below the sign bit
      of the int variables that hold them. */
  lemma WordsFit(t: nat, p: nat, q: nat, q1: nat, s0: nat, s1: nat, ix0: nat, ix1: nat)
    requires Words(t, p, q, q1, s0, s1, ix0, ix1) && p <= 2 * P53 && t < 4 * P53 * P53
    ensures q < 0x40_0000 && s0 < 0x80_0000 && ix0 < 0x200_0000 && ix1 < TWO32
  {
    var n, x := q * TWO32 + q1, ix0 * TWO32 + ix1;
    assert Square(2 * P53) == 4 * P53 * P53;
    SquareOfSum(n, p);
    assert x * p < (4 * n + 2 * p) * p;
    if x >= 4 * n + 2 * p {
      MulLower(4 * n + 2 * p, x, p, p);
    }
    hide Square;
    if n >= 2 * P53 {
      SquareMonotone(2 * P53, n);
    }
  }

  lemma SquareOfSum(n: int, p: int)
    requires n >= 0 && p >= 0
    ensures 2 * Square(n + p) - 2 * Square(n) == (4 * n + 2 * p) * p
  {
  }

  lemma ShiftFits(h: nat, l: nat)
    requires h < 0x200_0000 && l < TWO32
    ensures ShiftHigh(h, l) < TWO31 && ShiftLow(l) < TWO32
  {
  }

  lemma HighFits(t: nat, i: nat, bit: nat, q: nat, s0: nat, ix0: nat, ix1: nat)
    requires i <= 22 && bit <= 0x20_0000 && t < 4 * P53 * P53 && Words(t, Pow2(i) * TWO32, q, 0, s0, 0, ix0, ix1)
    ensures q + bit < TWO31 && s0 + 2 * bit < TWO31 && ix0 < 0x200_0000
  {
    Pow2Monotone(i, 22);
    HighBit();
    hide Pow2, Words;
    WordsFit(t, Pow2(i) * TWO32, q, 0, s0, 0, ix0, ix1);
  }

  lemma LowFits(t: nat, i: nat, q: nat, q1: nat, s0: nat, s1: nat, ix0: nat, ix1: nat)
    requires i <= 32 && t < 4 * P53 * P53 && Words(t, Pow2(i), q, q1, s0, s1, ix0, ix1)
    ensures s0 + 1 < TWO31 && ix0 < 0x200_0000
  {
    Pow2Monotone(i, 32);
    Pow2Values();
    hide Pow2, Words;
    WordsFit(t, Pow2(i), q, q1, s0, s1, ix0, ix1);
  }

  /** The first loop: the root bits of the high word. */
  method HighLoop(h: IntWord, l: UnsignedWord, ghost t: nat)
    returns (q: IntWord, s0: IntWord, ix0: IntWord, ix1: UnsignedWord)
    requires Words(t, Pow2(22) * TWO32, 0, 0, 0, 0, h, l) && t < 4 * P53 * P53
    ensures Words(t, Pow2(32), q, 0, s0, 0, ix0, ix1)
  {
    hide Pow2, Words, ShiftHigh, ShiftLow;
    ix0, ix1 := h, l;
    q, s0 := 0, 0;
    var bit: IntWord := 0x20_0000;
    ghost var i := 22;
    HighBit();
    while bit != 0
      invariant 0 <= i <= 22 && bit == Pow2(i) / 2
      invariant Words(t, Pow2(i) * TWO32, q, 0, s0, 0, ix0, ix1)
      decreases bit
    {
      BitOf(i, bit);
      HighStep(t, bit, q, s0, ix0, ix1);
      HighFits(t, i, bit, q, s0, ix0, ix1);
      var t0: IntWord := s0 + bit;
      if t0 <= ix0 {
        s0 := t0 + bit;
        ix0 := ix0 - t0;
        q := q + bit;
      }
      ShiftFits(ix0, ix1);
      ix0, ix1 := ShiftHigh(ix0, ix1), ShiftLow(ix1);
      bit := bit / 2;
      i := i - 1;
    }
    BitOf(i, bit);
    Pow2Values();
  }

  lemma HighBit()
    ensures Pow2(22) == 0x40_0000
  {
    Pow2Values();
    Pow2Add(11, 11);
  }

  /** The second loop: the root bits of the low word, with carries and borrows
      between the words. */
  method LowLoop(hq: IntWord, hs: IntWord, h: IntWord, l: UnsignedWord, ghost t: nat)
    returns (q: IntWord, q1: UnsignedWord, ix0: IntWord, ix1: UnsignedWord)
    requires Words(t, Pow2(32), hq, 0, hs, 0, h, l) && t < 4 * P53 * P53
    ensures q1 < TWO32 && ix1 < TWO32 && RootState(t, 1, q * TWO32 + q1, ix0 * TWO32 + ix1)
  {
    hide Pow2, Words, ShiftHigh, ShiftLow, Carries, RootState;
    ix0, ix1, q, q1 := h, l, hq, 0;
    var s0: IntWord, s1: UnsignedWord := hs, 0;
    var bit: UnsignedWord := TWO31;
    ghost var i := 32;
    Pow2Values();
    while bit != 0
      invariant 0 <= i <= 32 && bit == Pow2(i) / 2
      invariant Words(t, Pow2(i), q, q1, s0, s1, ix0, ix1)
      decreases bit
    {
      BitOf(i, bit);
      LowStep(t, bit, q, q1, s0, s1, ix0, ix1);
      LowFits(t, i, q, q1, s0, s1, ix0, ix1);
      var t1: UnsignedWord := s1 + bit;
      var t0 := s0;
      if t0 < ix0 || (t0 == ix0 && t1 <= ix1) {
        s1 := (t1 + bit) % TWO32;
        if Carries(t1, s1) {
          s0 := s0 + 1;
        }
        ix0 := ix0 - t0 - (if ix1 < t1 then 1 else 0);
        ix1 := (ix1 - t1) % TWO32;
        q1 := q1 + bit;
      }
      ShiftFits(ix0, ix1);
      ix0, ix1 := ShiftHigh(ix0, ix1), ShiftLow(ix1);
      bit := bit / 2;
      i := i - 1;
    }
    BitOf(i, bit);
    WordsElim(t, q, q1, s0, s1, ix0, ix1);
  }

  lemma WordsElim(t: nat, q: nat, q1: nat, s0: nat, s1: nat, ix0: nat, ix1: nat)
    requires Words(t, Pow2(0), q, q1, s0, s1, ix0, ix1)
    ensures q1 < TWO32 && ix1 < TWO32 && RootState(t, 1, q * TWO32 + q1, ix0 * TWO32 + ix1)
  {
  }

  lemma StartWords(ix0: nat, ix1: nat)
    requires ix1 < TWO32 && P53 <= ix0 * TWO32 + ix1 < 4 * P53
    ensures Words((ix0 * TWO32 + ix1) * P53, Pow2(22) * TWO32, 0, 0, 0, 0, ix0, ix1)
  {
    hide RootState, Pow2;
    StartRoot(ix0 * TWO32 + ix1);
  }

  /** The end of js_sqrt: round the root and assemble the result words. */
  method FinishRoot(hq: IntWord, lq: UnsignedWord, h: IntWord, l: UnsignedWord, half: int, ghost root: nat)
    returns (r: Bits)
    requires root == hq * TWO32 + lq && P53 <= root < 2 * P53 && 0 <= half + 1022 < 2000
    ensures r == (if h * TWO32 + l != 0 then root + root % 2 else root) / 2 + (half + 1022) * P52
  {
    hide Assemble;
    var q, q1 := hq, lq;
    if h != 0 || l != 0 {
      if q1 == TWO32 - 1 {
        q1 := 0;
        q := q + 1;
      } else {
        q1 := q1 + q1 % 2;
      }
    }
    RootWords(q, q1, half);
    RootBits((q * TWO32 + q1) / 2, half + 1022);
    var ix0: IntWord := q / 2 + 0x3fe0_0000;
    var ix1: UnsignedWord := q1 / 2;
    if q % 2 == 1 {
      ix1 := ix1 + TWO31;
    }
    ix0 := ix0 + half * 0x10_0000;
    r := ix0 * TWO32 + ix1;
  }

  /** The subnormals for which the source shifts a word by 32. */
  predicate ShiftsByWord(x: Bits) {
    SignOf(x) == 0 && ExponentOf(x) == 0 && (TWO31 <= FractionOf(x) < TWO32 || 0x400 <= FractionOf(x) < 0x800)
  }

  /** A shift by 21 moves the low word up. */
  lemma ShiftUp(l: nat)
    requires l < TWO32
    ensures l / 0x800 < 0x20_0000 && l / 0x800 * TWO32 + l * 0x20_0000 % TWO32 == l * 0x20_0000
    ensures l > 0 && l / 0x800 == 0 ==> l < l * 0x20_0000 % TWO32
  {
  }

  /** A shift of both words, by less than their width: the bits that leave the
      low word fill the gap in the high one. */
  lemma ShiftBoth(h: nat, l: nat, p: nat, c: nat)
    requires p > 0 && c > 0 && c * p == TWO32 && l < TWO32
    ensures (h * p + l / c) * TWO32 + l * p % TWO32 == (h * TWO32 + l) * p && l / c < p
  {
    var a, b := l / c, l % c;
    assert l == a * c + b;
    ShiftProducts(h, l, p, c, a, b);
    ScaleBound(b, c, p);
    DivModUnique(l * p, TWO32, a, b * p);
    if a >= p {
      MulLower(p, a, c, c);
    }
  }

  lemma ShiftProducts(h: nat, l: nat, p: nat, c: nat, a: nat, b: nat)
    requires l == a * c + b && c * p == TWO32
    ensures l * p == a * TWO32 + b * p
    ensures (h * p + a) * TWO32 + b * p == (h * TWO32 + l) * p
  {
    MulAssocInt(a, c, p);
    assert (h * TWO32) * p == (h * p) * TWO32;
  }

  /** The loop that brings some bits of a subnormal into the high word. */
  method FillHighWord(f: nat) returns (ix0: IntWord, ix1: UnsignedWord, m: int, ghost k: nat)
    requires 0 < f < P52
    ensures 0 < ix0 < 0x20_0000 && ix0 * TWO32 + ix1 == f * Pow2(k) && m == 0 - k && k <= 42
    ensures k == 0 ==> ix0 < 0x10_0000
    ensures ix0 >= 0x10_0000 <==> TWO31 <= f < TWO32 || 0x400 <= f < 0x800
  {
    hide Pow2;
    Pow2Values();
    ix0, ix1, m, k := f / TWO32, f % TWO32, 0, 0;
    TwentyOne();
    while ix0 == 0
      invariant k == 0 || k == 21 || k == 42
      invariant m == 0 - k && ix0 < 0x20_0000 && (k == 0 ==> ix0 < 0x10_0000) && (k == 42 ==> ix0 > 0)
      invariant ix0 * TWO32 + ix1 == f * Pow2(k)
      decreases if ix0 == 0 then TWO32 - ix1 else 0
    {
      ShiftUp(ix1);
      m := m - 21;
      ix0, ix1 := ix1 / 0x800, ix1 * 0x20_0000 % TWO32;
      k := k + 21;
    }
  }

  lemma TwentyOne()
    ensures Pow2(21) == 0x20_0000 && Pow2(42) == 0x400_0000_0000
  {
    Pow2Values();
    Pow2Add(10, 11);
    Pow2Add(21, 21);
  }

  /** The shift that puts the leading bit in its place. */
  method LeadingBit(h: IntWord) returns (i: nat, ix0: IntWord)
    requires 0 < h < 0x20_0000
    ensures i <= 20 && 0x10_0000 <= ix0 < 0x20_0000 && ix0 == h * Pow2(i) && (i == 0 ==> ix0 == h)
    ensures i == 0 <==> h >= 0x10_0000
  {
    hide Pow2;
    Pow2Values();
    i, ix0 := 0, h;
    while ix0 < 0x10_0000
      invariant 0 < ix0 < 0x20_0000 && ix0 == h * Pow2(i) && ix0 >= Pow2(i) && (i == 0 ==> ix0 == h)
      invariant i > 0 ==> h < 0x10_0000
      decreases 0x10_0000 - ix0
    {
      Pow2Succ(i);
      MulAssocInt(h, 2, Pow2(i));
      ix0 := 2 * ix0;
      i := i + 1;
    }
    LeadingShift(i);
  }

  lemma LeadingShift(i: nat)
    requires Pow2(i) < 0x20_0000
    ensures i <= 20
  {
    TwentyOne();
    hide Pow2;
    if i > 20 {
      Pow2Monotone(21, i);
    }
  }

  lemma SubnormalFraction(x: Bits)
    requires SignOf(x) == 0 && ExponentOf(x) == 0 && !IsZero(x)
    ensures 0 < FractionOf(x) < P52
    ensures ShiftsByWord(x) <==> TWO31 <= FractionOf(x) < TWO32 || 0x400 <= FractionOf(x) < 0x800
  {
  }

  lemma WordPowers(i: nat)
    requires 0 < i <= 20
    ensures Pow2(32 - i) * Pow2(i) == TWO32 && Pow2(i) > 0 && Pow2(32 - i) > 0
  {
    Pow2Add(32 - i, i);
    Pow2Values();
    hide Pow2;
  }

  lemma HighWordFits(h: nat, i: nat, p: nat, rest: nat)
    requires i <= 20 && p == Pow2(i) && h * p < 0x20_0000 && rest < p
    ensures h * p + rest < 0x20_0000
  {
    Pow2Add(21 - i, i);
    TwentyOne();
    hide Pow2;
    var q := Pow2(21 - i);
    if h >= q {
      MulLower(q, h, p, p);
    }
    ScaleBound(h, q, p);
  }

  /** The low word follows the high one, which was shifted by i already. */
  method FollowUp(g: IntWord, l: UnsignedWord, i: nat, ghost h: nat) returns (ix0: IntWord, ix1: UnsignedWord)
    requires 0 < i <= 20 && g == h * Pow2(i) && 0x10_0000 <= g < 0x20_0000
    ensures ix0 * TWO32 + ix1 == (h * TWO32 + l) * Pow2(i) && 0x10_0000 <= ix0 < 0x20_0000
  {
    hide Pow2;
    var p, c := Pow2(i), Pow2(32 - i);
    WordPowers(i);
    ShiftBoth(h, l, p, c);
    HighWordFits(h, i, p, l / c);
    ix0 := g + l / c;
    ix1 := l * p % TWO32;
  }

  lemma ShiftedTwice(f: nat, k: nat, i: nat, v: nat)
    requires v == f * Pow2(k)
    ensures v * Pow2(i) == f * Pow2(k + i)
  {
    Pow2Add(k, i);
    hide Pow2;
    MulAssocInt(f, Pow2(k), Pow2(i));
  }

  /** The loops that look for the leading bit of a subnormal: the shift i that
      is left after them is zero exactly for the operands named above. */
  method FindLeadingBit(x: Bits) returns (ix0: IntWord, ix1: UnsignedWord, m: int, i: nat, ghost k: nat, ghost h: nat)
    requires SignOf(x) == 0 && ExponentOf(x) == 0 && !IsZero(x)
    ensures i == 0 <==> ShiftsByWord(x)
    ensures i <= 20 && ix0 == h * Pow2(i) && 0x10_0000 <= ix0 < 0x20_0000 && (i == 0 ==> ix0 == h)
    ensures h * TWO32 + ix1 == FractionOf(x) * Pow2(k) && m == 1 - k - i && 0 < k + i <= 62
  {
    hide *;
    SubnormalFraction(x);
    ix0, ix1, m, k := FillHighWord(FractionOf(x));
    h := ix0;
    i, ix0 := LeadingBit(ix0);
    m := m - (i - 1);
  }

  /** The smallest operand that needs a shift by the width of a word. */
  method OvershiftExample() returns (i: nat)
    ensures ShiftsByWord(0x400) && i == 0
  {
    var ix0, ix1, m;
    ghost var k, h;
    ix0, ix1, m, i, k, h := FindLeadingBit(0x400);
  }

  /** ix0 |= ix1 >> 32: C leaves the shift undefined, and overshift is what the
      machine makes of it.  The mask that follows keeps the low 20 bits. */
  function OrOvershift(ix0: IntWord, overshift: UnsignedWord): (g: IntWord)
    requires 0x10_0000 <= ix0 < 0x20_0000
    ensures 0x10_0000 <= g < 0x20_0000 && (overshift == 0 ==> g == ix0)
  {
    if overshift == 0 then ix0
    else ((ix0 as bv32) | (overshift as bv32)) as nat % 0x10_0000 + 0x10_0000
  }

  /** No shift by the width of a word, or one that yields zero. */
  predicate Sound(x: Bits, overshift: UnsignedWord) {
    !ShiftsByWord(x) || overshift == 0
  }

  lemma SoundShift(x: Bits, overshift: UnsignedWord, i: nat)
    requires i == 0 <==> ShiftsByWord(x)
    ensures Sound(x, overshift) <==> i > 0 || overshift == 0
  {
    hide ShiftsByWord;
  }

  /** The low word follows, by a shift or an overshift. */
  method PlaceLowWord(g: IntWord, l: UnsignedWord, i: nat, overshift: UnsignedWord, ghost h: nat)
    returns (ix0: IntWord, ix1: UnsignedWord)
    requires i <= 20 && g == h * Pow2(i) && 0x10_0000 <= g < 0x20_0000
    ensures 0x10_0000 <= ix0 < 0x20_0000
    ensures i > 0 || overshift == 0 ==> ix0 * TWO32 + ix1 == (h * TWO32 + l) * Pow2(i)
  {
    hide Pow2, OrOvershift;
    if i > 0 {
      ix0, ix1 := FollowUp(g, l, i, h);
    } else {
      NoShift(h);
      NoShift(h * TWO32 + l);
      ix0, ix1 := OrOvershift(g, overshift), l;
    }
  }

  lemma NoShift(v: nat)
    ensures v * Pow2(0) == v
  {
  }

  /** A subnormal operand: its leading bit moves to where that of a normal one
      is, unless the machine lets a shift by 32 do harm. */
  method NormalizeWords(x: Bits, overshift: UnsignedWord) returns (ix0: IntWord, ix1: UnsignedWord, m: int)
    requires SignOf(x) == 0 && ExponentOf(x) == 0 && !IsZero(x)
    ensures 0x10_0000 <= ix0 < 0x20_0000 && -61 <= m <= 0
    ensures Sound(x, overshift) ==> Normalized(x, m, ix0 * TWO32 + ix1)
  {
    hide *;
    var i;
    ghost var k, h;
    ix0, ix1, m, i, k, h := FindLeadingBit(x);
    ghost var l := ix1;
    ix0, ix1 := PlaceLowWord(ix0, ix1, i, overshift, h);
    SoundShift(x, overshift, i);
    if Sound(x, overshift) {
      ShiftedNormal(x, k, i, h * TWO32 + l, ix0, ix1);
    }
  }

  lemma ShiftedNormal(x: Bits, k: nat, i: nat, v: nat, ix0: nat, ix1: UnsignedWord)
    requires ExponentOf(x) == 0 && k + i > 0 && v == FractionOf(x) * Pow2(k)
    requires 0x10_0000 <= ix0 < 0x20_0000 && ix0 * TWO32 + ix1 == v * Pow2(i)
    ensures Normalized(x, 1 - k - i, ix0 * TWO32 + ix1)
  {
    ShiftedTwice(FractionOf(x), k, i, v);
    hide Pow2, Normalized, ExponentOf, FractionOf;
    NormalizedSubnormal(x, 1 - k - i, ix0 * TWO32 + ix1);
  }

  /** The words of the significand, its leading bit in place, and the unbiased
      exponent. */
  method UnpackOperand(x: Bits, overshift: UnsignedWord) returns (ix0: IntWord, ix1: UnsignedWord, m: int)
    requires SignOf(x) == 0 && IsFinite(x) && !IsZero(x)
    ensures 0x10_0000 <= ix0 < 0x20_0000 && -1084 <= m < 1024
    ensures Sound(x, overshift) ==> Normalized(x, m + 1023, ix0 * TWO32 + ix1)
  {
    hide Normalized, IsScaled, Magnitude, Sound;
    ix0, ix1 := x / TWO32, x % TWO32;
    m := ix0 / 0x10_0000;
    OperandWords(x, ix0, ix1, m);
    hide ExponentOf, SignOf, FractionOf;
    if m == 0 {
      ix0, ix1, m := NormalizeWords(x, overshift);
      m := m - 1023;
    } else {
      m := m - 1023;
      NormalizedNormal(x);
    }
    ix0 := ix0 % 0x10_0000 + 0x10_0000;
  }

  lemma OperandWords(x: Bits, ix0: nat, ix1: nat, m: nat)
    requires SignOf(x) == 0 && IsFinite(x) && ix0 == x / TWO32 && ix1 == x % TWO32 && m == ix0 / 0x10_0000
    ensures if m == 0 then ExponentOf(x) == 0
            else (ix0 % 0x10_0000 + 0x10_0000) * TWO32 + ix1 == P52 + FractionOf(x) && m == ExponentOf(x) < EXP_MASK
  {
    if m != 0 {
      NormalOperand(x, ix0 % 0x10_0000 + 0x10_0000, ix1, m - 1023);
    }
  }

  /** The scaled operand: m is made even and the significand shifted once
      more, so that the root has 54 bits. */
  method ScaleOperand(x: Bits, overshift: UnsignedWord) returns (ix0: IntWord, ix1: UnsignedWord, half: int)
    requires SignOf(x) == 0 && IsFinite(x) && !IsZero(x)
    ensures P53 <= ix0 * TWO32 + ix1 < 4 * P53 && 0 <= half + 1022 < 2000
    ensures Sound(x, overshift) ==>
              IsScaled(ScaleBy(Magnitude(x) as real, 1074), ((ix0 * TWO32 + ix1) * P53) as real, 2 * (half + 1021))
  {
    hide SignOf, ExponentOf, FractionOf, ShiftHigh, ShiftLow, Normalized, IsScaled, ScaleBy, Magnitude, Sound;
    var m;
    ix0, ix1, m := UnpackOperand(x, overshift);
    ghost var m0, e := ix0 * TWO32 + ix1, m + 1023;
    SignificandWords(m0, ix0, ix1);
    ShiftFits(ix0, ix1);
    ShiftWords(ix0, ix1);
    if m % 2 == 1 {
      ix0, ix1 := ShiftHigh(ix0, ix1), ShiftLow(ix1);
    }
    half := m / 2;
    SmallWords(m0, ix0, ix1);
    ShiftFits(ix0, ix1);
    ShiftWords(ix0, ix1);
    ix0, ix1 := ShiftHigh(ix0, ix1), ShiftLow(ix1);
    if Sound(x, overshift) {
      WordRadicand(x, e, m0, ix0 * TWO32 + ix1, half);
    }
  }

  lemma SmallWords(m0: nat, ix0: nat, ix1: nat)
    requires m0 < P53 && ix0 * TWO32 + ix1 <= 2 * m0
    ensures ix0 < 0x40_0000
  {
  }

  lemma SignificandWords(m0: nat, ix0: nat, ix1: nat)
    requires 0x10_0000 <= ix0 < 0x20_0000 && m0 == ix0 * TWO32 + ix1 && ix1 < TWO32
    ensures P52 <= m0 < P53
  {
  }

  /** js_sqrt.  For the few subnormals that make the source shift a word by its
      width, the machine decides: a shift that yields zero gives the root. */
  method JsSqrt(x: Bits, overshift: UnsignedWord) returns (r: Bits)
    ensures Sound(x, overshift) ==> IsSquareRoot(x, RNE, r)
  {
    hide Sound, Pow2, RootState, Words, RoundsTo, Magnitude, IsScaled, ScaleBy, IsRoot, SignOf, ExponentOf, FractionOf;
    if ExponentOf(x) == EXP_MASK {
      r := if FractionOf(x) == 0 && SignOf(x) == 0 then x else QNAN;
      return;
    }
    if IsZero(x) {
      return x;
    }
    if SignOf(x) == 1 {
      return QNAN;
    }
    hide IsSquareRoot;
    var ix0, ix1, half := ScaleOperand(x, overshift);
    ghost var y := ix0 * TWO32 + ix1;
    StartWords(ix0, ix1);
    var q, q1, s0;
    q, s0, ix0, ix1 := HighLoop(ix0, ix1, y * P53);
    q, q1, ix0, ix1 := LowLoop(q, s0, ix0, ix1, y * P53);
    ghost var root := q * TWO32 + q1;
    RootRange(y, root, ix0 * TWO32 + ix1);
    r := FinishRoot(q, q1, ix0, ix1, half, root);
    if Sound(x, overshift) {
      RootIsRounded(x, y, half, root, ix0 * TWO32 + ix1, r);
    }
  }

  /** There is one correctly rounded root, so js_sqrt and sqrt_sf to nearest
      deliver the same bits. */
  lemma RootsCoincide(a: Bits, rm: RoundingMode, r1: Bits, r2: Bits)
    requires IsSquareRoot(a, rm, r1) && IsSquareRoot(a, rm, r2)
    ensures r1 == r2
  {
    hide RoundsTo, ScaleBy, Magnitude, IsBracket, InBracket, SignOf, ExponentOf, FractionOf;
    if !IsNaN(a) && !IsZero(a) && SignOf(a) == 0 && IsFinite(a) {
      var radicand := ScaleBy(Magnitude(a) as real, 1074);
      var n1: nat, k1: int, s1: nat :| IsBracket(radicand, n1, k1, s1) && BracketRounds(n1, k1, s1, rm, r1);
      var n2: nat, k2: int, s2: nat :| IsBracket(radicand, n2, k2, s2) && BracketRounds(n2, k2, s2, rm, r2);
      var x := BracketsMeet(radicand, n1, k1, s1, n2, k2, s2);
      RoundsToUnique(x, 0, rm, r1, r2);
    }
  }
}
