/** mul_log2_radix of dtoa.c is exactly floor(a / log2(radix)) for every a from
    -2048 to 2047: the table entry and the true ratio lie between the same two
    neighbouring fractions, and every fraction with a small numerator lies
    outside. */
module RadixLogarithm {
  import opened PowersOfTwo
  import opened Rounding
  import opened RadixPowers
  import opened RadixTables
  import opened RadixReals

  const MUL_LOG2_RADIX: seq<nat> := [
    0x000000, 0xa1849d, 0x000000, 0x6e40d2, 0x6308c9, 0x5b3065, 0x000000, 0x50c24e,
    0x4d104d, 0x4a0027, 0x4768ce, 0x452e54, 0x433d00, 0x418677, 0x000000, 0x3ea16b,
    0x3d645a, 0x3c43c2, 0x3b3b9a, 0x3a4899, 0x39680b, 0x3897b3, 0x37d5af, 0x372069,
    0x367686, 0x35d6df, 0x354072, 0x34b261, 0x342bea, 0x33ac62, 0x000000, 0x32bfd9,
    0x3251dd, 0x31e8d6, 0x318465]

  const LOG_BASE: nat := 0x100_0000

  /** Division of C: towards zero. */
  function TruncDiv(a: int, n: nat): int
    requires n > 0
  {
    if a >= 0 then a / n else 0 - (0 - a) / n
  }

  /** mul_log2_radix: a division for powers of two, otherwise a 24-bit factor and
      an arithmetic shift. */
  function MulLog2Radix(a: int, b: Radix): int {
    if OddPart(b) == 1 then
      PowerRadix(b);
      TruncDiv(if a < 0 then a - (Ctz32(b) - 1) else a, Ctz32(b))
    else a * MUL_LOG2_RADIX[b - 2] / LOG_BASE
  }

  /** b^(d - 1) <= 2^(e - 1) < b^d */
  ghost predicate LogBracket(b: Radix, e: int, d: int) {
    RPow(b, d - 1) <= Exp2(e - 1) < RPow(b, d)
  }

  // ----- powers of two -----

  lemma PowerRadix(b: Radix)
    requires OddPart(b) == 1
    ensures b == Pow2(Ctz32(b)) && 1 <= Ctz32(b) <= 5
  {
    RadixParts(b);
    Exp2Zero();
    hide Pow2, Ctz32;
  }

  lemma PowerOfTwoPower(b: Radix, s: nat, d: int, sd: int)
    requires b == Pow2(s) && sd == s * d
    ensures RPow(b, d) == Exp2(sd)
  {
    var n: nat, k: nat := if d < 0 then 0 - d else d, if d < 0 then 0 - sd else sd;
    assert k == s * n by { MulLower(0, n, s, 0); }
    PowOfPow2(s, n);
    hide *;
    Exp2InverseProduct(k);
    RPowNat(b, n);
    if d < 0 {
      ProductCancel(RPow(b, 0 - n), Exp2(0 - k), Exp2(k));
    }
  }

  lemma FloorDivision(a: int, s: nat)
    requires s > 0
    ensures var q := TruncDiv(if a < 0 then a - (s - 1) else a, s); s * q <= a < s * q + s
  {
    if a >= 0 {
      assert a == s * (a / s) + a % s;
    } else {
      var c := 0 - a + (s - 1);
      assert c == s * (c / s) + c % s;
    }
  }

  lemma PowerOfTwoBracket(b: Radix, s: nat, a: int, q: int)
    requires b == Pow2(s) && s > 0 && s * q <= a < s * q + s
    ensures LogBracket(b, a + 1, q + 1)
  {
    PowerOfTwoPower(b, s, q, s * q);
    PowerOfTwoPower(b, s, q + 1, s * q + s);
    assert s * (q + 1) == s * q + s;
    hide RPow, Exp2, Pow2;
    Exp2Monotone(s * q, a);
    Exp2Monotone(a + 1, s * q + s);
    Exp2Succ(a);
  }

  // ----- neighbouring fractions -----

  /** p1/q1 < log2(b) < p2/q2, and no fraction with a numerator below p1 + p2
      lies between. */
  ghost predicate Neighbours(b: Radix, p1: nat, q1: nat, p2: nat, q2: nat) {
    && p1 > 0 && p2 > 0 && p2 * q1 == p1 * q2 + 1
    && Exp2(p1) < RPow(b, q1) && RPow(b, q2) < Exp2(p2)
  }

  lemma Exp2Sum(m: int, n: int)
    ensures Exp2(m + n) == Product(Exp2(m), Exp2(n))
  {
    Exp2Add(m, n);
  }

  /** Powers of a strict comparison. */
  lemma {:induction false} ComparePowers(b: Radix, q: nat, p: nat, n: nat, qn: int, pn: int)
    requires qn == q * n && pn == p * n
    ensures Exp2(p) < RPow(b, q) ==> Exp2(pn) <= RPow(b, qn) && (n > 0 ==> Exp2(pn) < RPow(b, qn))
    ensures RPow(b, q) < Exp2(p) ==> RPow(b, qn) <= Exp2(pn) && (n > 0 ==> RPow(b, qn) < Exp2(pn))
  {
    if n == 0 {
      RPowNat(b, 0);
      PowZero(b);
      Exp2Zero();
    } else {
      ComparePowers(b, q, p, n - 1, qn - q, pn - p);
      hide *;
      RPowAdd(b, qn - q, q);
      Exp2Sum(pn - p, p);
      StrictProducts(Exp2(pn - p), RPow(b, qn - q), Exp2(p), RPow(b, q));
      StrictProducts(RPow(b, qn - q), Exp2(pn - p), RPow(b, q), Exp2(p));
    }
  }

  lemma StrictProducts(a: real, c: real, g: real, h: real)
    requires a > 0.0 && c > 0.0 && g > 0.0 && h > 0.0
    ensures a <= c && g < h ==> Product(a, g) < Product(c, h)
  {
    if a <= c && g < h {
      MulStrict(g, h, a);
      MulMono(a, c, h);
    }
  }

  /** b^k <= 2^a when (a, k) combines the neighbours from above. */
  lemma CombineAbove(b: Radix, p1: nat, q1: nat, p2: nat, q2: nat, x: nat, y: nat, a: int, k: int,
                     px: int, qx: int, py: int, qy: int)
    requires Neighbours(b, p1, q1, p2, q2)
    requires px == p1 * x && qx == q1 * x && py == p2 * y && qy == q2 * y && a == py - px && k == qy - qx
    ensures RPow(b, k) <= Exp2(a)
  {
    hide RPow, Exp2, Product;
    ComparePowers(b, q1, p1, x, qx, px);
    ComparePowers(b, q2, p2, y, qy, py);
    hide *;
    RPowAdd(b, k, qx);
    Exp2Sum(a, px);
    CrossLess(RPow(b, k), RPow(b, qx), Exp2(a), Exp2(px));
  }

  lemma CrossLess(r: real, s: real, g: real, h: real)
    requires r > 0.0 && s > 0.0 && g > 0.0 && h > 0.0
    ensures Product(r, s) <= Product(g, h) && h <= s ==> r <= g
    ensures Product(g, h) <= Product(r, s) && s <= h && (Product(g, h) < Product(r, s) || s < h) ==> g < r
  {
    if Product(r, s) <= Product(g, h) && h <= s && g < r {
      MulStrict(g, r, s);
      MulMono(h, s, g);
    }
    if Product(g, h) <= Product(r, s) && s <= h && r <= g {
      MulMono(r, g, s);
      MulMono(s, h, g);
      if s < h {
        MulStrict(s, h, g);
      }
    }
  }

  /** 2^a < b^k when (a, k) combines them from below. */
  lemma CombineBelow(b: Radix, p1: nat, q1: nat, p2: nat, q2: nat, x: nat, y: nat, a: int, k: int,
                     px: int, qx: int, py: int, qy: int)
    requires Neighbours(b, p1, q1, p2, q2) && (x > 0 || y > 0)
    requires px == p1 * x && qx == q1 * x && py == p2 * y && qy == q2 * y && a == px - py && k == qx - qy
    ensures Exp2(a) < RPow(b, k)
  {
    hide RPow, Exp2, Product;
    ComparePowers(b, q1, p1, x, qx, px);
    ComparePowers(b, q2, p2, y, qy, py);
    hide *;
    RPowAdd(b, k, qy);
    Exp2Sum(a, py);
    CrossLess(RPow(b, k), RPow(b, qy), Exp2(a), Exp2(py));
  }

  /** The coordinates of (a, k) in the basis of the neighbours. */
  lemma Coordinates(p1: int, q1: int, p2: int, q2: int, a: int, k: int, m: int, x: int, y: int)
    requires p2 * q1 == p1 * q2 + 1 && x == p2 * k - q2 * a && y == q1 * a - p1 * k
    ensures a == p1 * x + p2 * y && k == q1 * x + q2 * y
    ensures a * m - k * LOG_BASE == x * (p1 * m - q1 * LOG_BASE) + y * (p2 * m - q2 * LOG_BASE)
  {
    assert p1 * x + p2 * y == a * (p2 * q1) - a * (p1 * q2) by {
      assert p1 * x == (p1 * p2) * k - (p1 * q2) * a;
      assert p2 * y == (p2 * q1) * a - (p1 * p2) * k;
    }
    assert q1 * x + q2 * y == k * (p2 * q1) - k * (p1 * q2) by {
      assert q1 * x == (p2 * q1) * k - (q1 * q2) * a;
      assert q2 * y == (q1 * q2) * a - (p1 * q2) * k;
    }
    Weigh(p1, q1, p2, q2, x, y, a, k, m);
  }

  lemma Weigh(p1: int, q1: int, p2: int, q2: int, x: int, y: int, a: int, k: int, m: int)
    requires a == p1 * x + p2 * y && k == q1 * x + q2 * y
    ensures a * m - k * LOG_BASE == x * (p1 * m - q1 * LOG_BASE) + y * (p2 * m - q2 * LOG_BASE)
  {
    assert x * (p1 * m - q1 * LOG_BASE) == (p1 * x) * m - (q1 * x) * LOG_BASE;
    assert y * (p2 * m - q2 * LOG_BASE) == (p2 * y) * m - (q2 * y) * LOG_BASE;
    assert (p1 * x + p2 * y) * m == (p1 * x) * m + (p2 * y) * m;
  }

  /** Comparing k * 2^24 with a * m compares b^k with 2^a. */
  lemma SameSideOfLog(b: Radix, p1: nat, q1: nat, p2: nat, q2: nat, m: nat, a: int, k: int)
    requires Neighbours(b, p1, q1, p2, q2)
    requires p1 * m < q1 * LOG_BASE && q2 * LOG_BASE < p2 * m
    requires 0 - (p1 + p2) < a < p1 + p2
    ensures k * LOG_BASE <= a * m ==> RPow(b, k) <= Exp2(a)
    ensures a * m < k * LOG_BASE ==> Exp2(a) < RPow(b, k)
  {
    var x, y := p2 * k - q2 * a, q1 * a - p1 * k;
    Coordinates(p1, q1, p2, q2, a, k, m, x, y);
    var g1, g2 := p1 * m - q1 * LOG_BASE, p2 * m - q2 * LOG_BASE;
    MulSign(x, p1, y, p2);
    GapSign(x, g1, y, g2);
    if x <= 0 && y >= 0 {
      NegatedProducts(p1, q1, x);
      CombineAbove(b, p1, q1, p2, q2, 0 - x, y, a, k, p1 * (0 - x), q1 * (0 - x), p2 * y, q2 * y);
    } else if x >= 0 && y <= 0 {
      NegatedProducts(p2, q2, y);
      CombineBelow(b, p1, q1, p2, q2, x, 0 - y, a, k, p1 * x, q1 * x, p2 * (0 - y), q2 * (0 - y));
    }
  }

  lemma NegatedProducts(p: int, q: int, x: int)
    ensures p * (0 - x) == 0 - p * x && q * (0 - x) == 0 - q * x
  {
  }

  /** Coordinates of the same sign make the numerator large. */
  lemma MulSign(x: int, p1: nat, y: int, p2: nat)
    ensures x > 0 && y > 0 ==> p1 * x + p2 * y >= p1 + p2
    ensures x < 0 && y < 0 ==> p1 * x + p2 * y <= 0 - (p1 + p2)
  {
    if x > 0 && y > 0 {
      MulLower(p1, p1, x, 1);
      MulLower(p2, p2, y, 1);
    } else if x < 0 && y < 0 {
      NegatedProducts(p1, p2, x);
      NegatedProducts(p1, p2, y);
      MulLower(p1, p1, 0 - x, 1);
      MulLower(p2, p2, 0 - y, 1);
    }
  }

  lemma GapSign(x: int, g1: int, y: int, g2: int)
    requires g1 < 0 < g2
    ensures x <= 0 && y >= 0 ==> x * g1 + y * g2 >= 0
    ensures x >= 0 && y <= 0 ==> x * g1 + y * g2 <= 0 && (x > 0 || y < 0 ==> x * g1 + y * g2 < 0)
  {
    if x >= 0 && y <= 0 {
      NegatedProducts(x, x, g1);
      NegatedProducts(g2, g2, y);
      MulLower(0, x, 0 - g1, 1);
      MulLower(0, 0 - y, g2, 1);
      if x > 0 {
        MulLower(1, x, 0 - g1, 1);
      }
      if y < 0 {
        MulLower(1, 0 - y, g2, 1);
      }
    } else if x <= 0 && y >= 0 {
      NegatedProducts(g1, g1, x);
      MulLower(0, 0 - x, 0 - g1, 1);
      MulLower(0, y, g2, 1);
      assert (0 - x) * (0 - g1) == x * g1;
    }
  }

  // ----- comparing powers by truncated squaring -----

  /** The scales that the comparisons below are cut by. */
  lemma TwoPowers()
    ensures Pow2(9) == 0x200 && Pow2(10) == 0x400 && Pow2(11) == 0x800 && Pow2(12) == 0x1000
    ensures Pow2(13) == 0x2000 && Pow2(14) == 0x4000 && Pow2(15) == 0x8000 && Pow2(16) == 0x10000
    ensures Pow2(17) == 0x20000 && Pow2(18) == 0x40000 && Pow2(19) == 0x80000 && Pow2(20) == 0x100000
    ensures Pow2(21) == 0x200000 && Pow2(23) == 0x800000 && Pow2(24) == 0x1000000 && Pow2(25) == 0x2000000
    ensures Pow2(26) == 0x4000000 && Pow2(29) == 0x20000000 && Pow2(31) == 0x80000000 && Pow2(34) == 0x400000000
    ensures Pow2(36) == 0x1000000000
  {
    Pow2Values();
    hide Pow2;
    Pow2Succ(11);
    Pow2Succ(12);
    Pow2Succ(13);
    Pow2Succ(14);
    Pow2Succ(15);
    Pow2Succ(16);
    Pow2Succ(17);
    Pow2Succ(18);
    Pow2Succ(19);
    Pow2Succ(20);
    Pow2Succ(21);
    Pow2Succ(22);
    Pow2Succ(23);
    Pow2Succ(24);
    Pow2Succ(25);
    Pow2Succ(26);
    Pow2Succ(27);
    Pow2Succ(28);
    Pow2Succ(29);
    Pow2Succ(32);
    Pow2Succ(33);
    Pow2Succ(34);
    Pow2Succ(35);
  }

  lemma LargerTwoPowers()
    ensures Pow2(38) == 0x4000000000 && Pow2(39) == 0x8000000000 && Pow2(40) == 0x10000000000 &&
            Pow2(41) == 0x20000000000
    ensures Pow2(42) == 0x40000000000 && Pow2(43) == 0x80000000000 && Pow2(44) == 0x100000000000 &&
            Pow2(45) == 0x200000000000
    ensures Pow2(46) == 0x400000000000 && Pow2(48) == 0x1000000000000 && Pow2(49) == 0x2000000000000 &&
            Pow2(51) == 0x8000000000000
    ensures Pow2(52) == 0x10000000000000 && Pow2(53) == 0x20000000000000 && Pow2(56) == 0x100000000000000 &&
            Pow2(59) == 0x800000000000000
  {
    TwoPowers();
    hide Pow2;
    Pow2Succ(36);
    Pow2Succ(37);
    Pow2Succ(38);
    Pow2Succ(39);
    Pow2Succ(40);
    Pow2Succ(41);
    Pow2Succ(42);
    Pow2Succ(43);
    Pow2Succ(44);
    Pow2Succ(45);
    Pow2Succ(46);
    Pow2Succ(47);
    Pow2Succ(48);
    Pow2Succ(49);
    Pow2Succ(50);
    Pow2Succ(51);
    Pow2Succ(52);
    Pow2Succ(53);
    Pow2Succ(54);
    Pow2Succ(55);
    Pow2Succ(56);
    Pow2Succ(57);
    Pow2Succ(58);
  }

  /** m * 2^s is below b^n. */
  ghost predicate Below(b: nat, n: nat, m: nat, s: nat) {
    m * Pow2(s) <= Pow(b, n)
  }

  /** b^n is below m * 2^s. */
  ghost predicate Above(b: nat, n: nat, m: nat, s: nat) {
    Pow(b, n) <= m * Pow2(s)
  }

  lemma StartPower(b: nat, n: nat)
    ensures Below(b, n, FastPow(b, n), 0) && Above(b, n, FastPow(b, n), 0)
  {
    FastPowIsPow(b, n);
    Exp2Zero();
  }

  /** b^(2n + e) */
  lemma DoubledPower(b: nat, n: nat, e: nat)
    requires e <= 1
    ensures Pow(b, 2 * n + e) == (Pow(b, n) * Pow(b, n)) * (if e == 1 then b else 1)
  {
    PowAdd(b, n, n);
    PowSucc(b, 2 * n);
    hide Pow;
    var p := Pow(b, n) * Pow(b, n);
    assert b * p == p * b;
  }

  lemma DoubledScale(s: nat, t: nat, m: nat)
    ensures m * Pow2(2 * s + t) == (m * Pow2(t)) * (Pow2(s) * Pow2(s))
  {
    Pow2Add(s, s);
    Pow2Add(2 * s, t);
    hide Pow2;
    MulAssocInt(m, Pow2(t), Pow2(s) * Pow2(s));
  }

  lemma SquareBelow(p: nat, m: nat, g: nat, c: nat, k: nat, v: nat)
    requires m * g <= p && k <= m * m * c && v == k * (g * g)
    ensures v <= (p * p) * c
  {
    SquareOfScaled(m, g, c);
    MulLower(k, m * m * c, g * g, g * g);
    MulLower(m * g, p, p, m * g);
    MulLower((m * g) * (m * g), p * p, c, c);
  }

  lemma SquareAbove(p: nat, m: nat, g: nat, c: nat, k: nat, v: nat)
    requires p <= m * g && m * m * c <= k && v == k * (g * g)
    ensures (p * p) * c <= v
  {
    SquareOfScaled(m, g, c);
    MulLower(m * m * c, k, g * g, g * g);
    MulLower(p, m * g, m * g, p);
    MulLower(p * p, (m * g) * (m * g), c, c);
  }

  /** The square of a bound, times b or not, with the mantissa cut to m. */
  lemma DoubleBelow(b: nat, n: nat, m0: nat, s: nat, e: nat, m: nat, t: nat)
    requires Below(b, n, m0, s) && e <= 1 && m * Pow2(t) <= m0 * m0 * (if e == 1 then b else 1)
    ensures Below(b, 2 * n + e, m, 2 * s + t)
  {
    DoubledPower(b, n, e);
    DoubledScale(s, t, m);
    hide Pow, Pow2;
    SquareBelow(Pow(b, n), m0, Pow2(s), if e == 1 then b else 1, m * Pow2(t), m * Pow2(2 * s + t));
  }

  lemma DoubleAbove(b: nat, n: nat, m0: nat, s: nat, e: nat, m: nat, t: nat)
    requires Above(b, n, m0, s) && e <= 1 && m * Pow2(t) >= m0 * m0 * (if e == 1 then b else 1)
    ensures Above(b, 2 * n + e, m, 2 * s + t)
  {
    DoubledPower(b, n, e);
    DoubledScale(s, t, m);
    hide Pow, Pow2;
    SquareAbove(Pow(b, n), m0, Pow2(s), if e == 1 then b else 1, m * Pow2(t), m * Pow2(2 * s + t));
  }

  lemma SquareOfScaled(m: int, g: int, c: int)
    ensures ((m * g) * (m * g)) * c == (m * m * c) * (g * g)
  {
    assert (m * g) * (m * g) == (m * m) * (g * g);
    assert ((m * m) * (g * g)) * c == ((m * m) * c) * (g * g);
  }

  lemma BelowDone(b: Radix, n: nat, m: nat, s: nat, j: nat, p: nat)
    requires Below(b, n, m, s) && m > Pow2(j) && p == s + j
    ensures Exp2(p) < RPow(b, n)
  {
    RPowNat(b, n);
    Exp2Nat(p);
    hide Pow2, Pow, RPow, Exp2;
    Pow2Add(j, s);
    ScaleBound(Pow2(j), m, Pow2(s));
  }

  lemma AboveDone(b: Radix, n: nat, m: nat, s: nat, j: nat, p: nat)
    requires Above(b, n, m, s) && m < Pow2(j) && p == s + j
    ensures RPow(b, n) < Exp2(p)
  {
    RPowNat(b, n);
    Exp2Nat(p);
    hide Pow2, Pow, RPow, Exp2;
    Pow2Add(j, s);
    ScaleBound(m, Pow2(j), Pow2(s));
  }

  lemma Lower3()
    ensures Exp2(1054) < RPow(3, 665)
  {
    hide Below, Above, RPow, Exp2, Pow2, Pow;
    assert FastPow(3, 20) == 0xcfd41b91;
    StartPower(3, 20);
    TwoPowers();
    LargerTwoPowers();
    hide *;
    DoubleBelow(3, 20, 0xcfd41b91, 0, 1, 0xfd150e7b3d, 25);
    DoubleBelow(3, 41, 0xfd150e7b3d, 25, 1, 0xbba5f84439, 42);
    DoubleBelow(3, 83, 0xbba5f84439, 92, 0, 0x898be44da3, 40);
    DoubleBelow(3, 166, 0x898be44da3, 224, 0, 0x93ce0d99a0, 39);
    DoubleBelow(3, 332, 0x93ce0d99a0, 487, 1, 0x80016e347a, 41);
    BelowDone(3, 665, 0x80016e347a, 1015, 39, 1054);
  }

  lemma Upper3()
    ensures RPow(3, 971) < Exp2(1539)
  {
    hide Below, Above, RPow, Exp2, Pow2, Pow;
    assert FastPow(3, 30) == 0xbb41c3ca78b9;
    StartPower(3, 30);
    TwoPowers();
    LargerTwoPowers();
    hide *;
    DoubleAbove(3, 30, 0xbb41c3ca78b9, 0, 0, 0x88f924eecf, 56);
    DoubleAbove(3, 60, 0x88f924eecf, 56, 1, 0xdbdcfd23ce, 40);
    DoubleAbove(3, 121, 0xdbdcfd23ce, 152, 0, 0xbcd3d7df53, 40);
    DoubleAbove(3, 242, 0xbcd3d7df53, 344, 1, 0xd0ebbe8c5c, 41);
    DoubleAbove(3, 485, 0xd0ebbe8c5c, 729, 1, 0xffbfe61936, 41);
    AboveDone(3, 971, 0xffbfe61936, 1499, 40, 1539);
  }

  lemma Lower5()
    ensures Exp2(1832) < RPow(5, 789)
  {
    hide Below, Above, RPow, Exp2, Pow2, Pow;
    assert FastPow(5, 12) == 0xe8d4a51;
    StartPower(5, 12);
    TwoPowers();
    LargerTwoPowers();
    hide *;
    DoubleBelow(5, 12, 0xe8d4a51, 0, 0, 0xd3c21bcecc, 16);
    DoubleBelow(5, 24, 0xd3c21bcecc, 16, 1, 0xdaf3f0464f, 42);
    DoubleBelow(5, 49, 0xdaf3f0464f, 74, 0, 0xbb445da9c5, 40);
    DoubleBelow(5, 98, 0xbb445da9c5, 188, 1, 0xab3c2fdde4, 42);
    DoubleBelow(5, 197, 0xab3c2fdde4, 418, 0, 0xe512ec31cf, 39);
    DoubleBelow(5, 394, 0xe512ec31cf, 875, 1, 0x801cc97a7c, 43);
    BelowDone(5, 789, 0x801cc97a7c, 1793, 39, 1832);
  }

  lemma Upper5()
    ensures RPow(5, 643) < Exp2(1493)
  {
    hide Below, Above, RPow, Exp2, Pow2, Pow;
    assert FastPow(5, 20) == 0x56bc75e2d631;
    StartPower(5, 20);
    TwoPowers();
    LargerTwoPowers();
    hide *;
    DoubleAbove(5, 20, 0x56bc75e2d631, 0, 0, 0xeb194f8e1b, 53);
    DoubleAbove(5, 40, 0xeb194f8e1b, 53, 0, 0xd7e77a8f89, 40);
    DoubleAbove(5, 80, 0xd7e77a8f89, 146, 0, 0xb616a12b82, 40);
    DoubleAbove(5, 160, 0xb616a12b82, 332, 1, 0xa1e53af474, 42);
    DoubleAbove(5, 321, 0xa1e53af474, 706, 1, 0xfff5538903, 41);
    AboveDone(5, 643, 0xfff5538903, 1453, 40, 1493);
  }

  lemma Lower6()
    ensures Exp2(1719) < RPow(6, 665)
  {
    hide Below, Above, RPow, Exp2, Pow2, Pow;
    assert FastPow(6, 10) == 0x39aa400;
    StartPower(6, 10);
    TwoPowers();
    LargerTwoPowers();
    hide *;
    DoubleBelow(6, 10, 0x39aa400, 0, 0, 0xcfd41b9100, 12);
    DoubleBelow(6, 20, 0xcfd41b9100, 12, 1, 0xfd150e7b3d, 42);
    DoubleBelow(6, 41, 0xfd150e7b3d, 66, 1, 0xbba5f84439, 43);
    DoubleBelow(6, 83, 0xbba5f84439, 175, 0, 0x898be44da3, 40);
    DoubleBelow(6, 166, 0x898be44da3, 390, 0, 0x93ce0d99a0, 39);
    DoubleBelow(6, 332, 0x93ce0d99a0, 819, 1, 0x80016e347a, 42);
    BelowDone(6, 665, 0x80016e347a, 1680, 39, 1719);
  }

  lemma Upper6()
    ensures RPow(6, 306) < Exp2(791)
  {
    hide Below, Above, RPow, Exp2, Pow2, Pow;
    assert FastPow(6, 9) == 0x99c600;
    StartPower(6, 9);
    TwoPowers();
    LargerTwoPowers();
    hide *;
    DoubleAbove(6, 9, 0x99c600, 0, 1, 0x8a8d67b600, 10);
    DoubleAbove(6, 19, 0x8a8d67b600, 10, 0, 0x95f983d741, 39);
    DoubleAbove(6, 38, 0x95f983d741, 59, 0, 0xafb8cd549d, 39);
    DoubleAbove(6, 76, 0xafb8cd549d, 157, 1, 0xb4ed45323c, 42);
    DoubleAbove(6, 153, 0xb4ed45323c, 356, 0, 0xffbd0a6fad, 39);
    AboveDone(6, 306, 0xffbd0a6fad, 751, 40, 791);
  }

  lemma Lower7()
    ensures Exp2(1909) < RPow(7, 680)
  {
    hide Below, Above, RPow, Exp2, Pow2, Pow;
    assert FastPow(7, 10) == 0x10d63af1;
    StartPower(7, 10);
    TwoPowers();
    LargerTwoPowers();
    hide *;
    DoubleBelow(7, 10, 0x10d63af1, 0, 1, 0xf80b50216e, 19);
    DoubleBelow(7, 21, 0xf80b50216e, 19, 0, 0xf055ebc0c1, 40);
    DoubleBelow(7, 42, 0xf055ebc0c1, 78, 1, 0xc56d1003d6, 43);
    DoubleBelow(7, 85, 0xc56d1003d6, 199, 0, 0x9841091c8b, 40);
    DoubleBelow(7, 170, 0x9841091c8b, 438, 0, 0xb51a96af0b, 39);
    DoubleBelow(7, 340, 0xb51a96af0b, 915, 0, 0x801e9bd679, 40);
    BelowDone(7, 680, 0x801e9bd679, 1870, 39, 1909);
  }

  lemma Upper7()
    ensures RPow(7, 571) < Exp2(1603)
  {
    hide Below, Above, RPow, Exp2, Pow2, Pow;
    assert FastPow(7, 17) == 0xd39383266e87;
    StartPower(7, 17);
    TwoPowers();
    LargerTwoPowers();
    hide *;
    DoubleAbove(7, 17, 0xd39383266e87, 0, 1, 0x9900ef4b15, 59);
    DoubleAbove(7, 35, 0x9900ef4b15, 59, 1, 0xa007b48f16, 42);
    DoubleAbove(7, 71, 0xa007b48f16, 160, 0, 0xc81343dc76, 39);
    DoubleAbove(7, 142, 0xc81343dc76, 359, 1, 0x88d2580c2a, 43);
    DoubleAbove(7, 285, 0x88d2580c2a, 761, 1, 0xfff094553d, 41);
    AboveDone(7, 571, 0xfff094553d, 1563, 40, 1603);
  }

  lemma Lower9()
    ensures Exp2(1623) < RPow(9, 512)
  {
    hide Below, Above, RPow, Exp2, Pow2, Pow;
    assert FastPow(9, 8) == 0x290d741;
    StartPower(9, 8);
    TwoPowers();
    LargerTwoPowers();
    hide *;
    DoubleBelow(9, 8, 0x290d741, 0, 0, 0xd2a9fc43c7, 11);
    DoubleBelow(9, 16, 0xd2a9fc43c7, 11, 0, 0xad5b52be3c, 40);
    DoubleBelow(9, 32, 0xad5b52be3c, 62, 0, 0xeac91cd216, 39);
    DoubleBelow(9, 64, 0xeac91cd216, 163, 0, 0xd75446ae55, 40);
    DoubleBelow(9, 128, 0xd75446ae55, 366, 0, 0xb51eaa7748, 40);
    DoubleBelow(9, 256, 0xb51eaa7748, 772, 0, 0x802460b911, 40);
    BelowDone(9, 512, 0x802460b911, 1584, 39, 1623);
  }

  lemma Upper9()
    ensures RPow(9, 153) < Exp2(485)
  {
    hide Below, Above, RPow, Exp2, Pow2, Pow;
    assert FastPow(9, 9) == 0x17179149;
    StartPower(9, 9);
    TwoPowers();
    LargerTwoPowers();
    hide *;
    DoubleAbove(9, 9, 0x17179149, 0, 1, 0x95f983d741, 21);
    DoubleAbove(9, 19, 0x95f983d741, 21, 0, 0xafb8cd549d, 39);
    DoubleAbove(9, 38, 0xafb8cd549d, 81, 0, 0xf13c5c42fa, 39);
    DoubleAbove(9, 76, 0xf13c5c42fa, 201, 1, 0xffbd0a6fab, 43);
    AboveDone(9, 153, 0xffbd0a6fab, 445, 40, 485);
  }

  lemma Lower10()
    ensures Exp2(485) < RPow(10, 146)
  {
    hide Below, Above, RPow, Exp2, Pow2, Pow;
    assert FastPow(10, 9) == 0x3b9aca00;
    StartPower(10, 9);
    TwoPowers();
    LargerTwoPowers();
    hide *;
    DoubleBelow(10, 9, 0x3b9aca00, 0, 0, 0xde0b6b3a76, 20);
    DoubleBelow(10, 18, 0xde0b6b3a76, 20, 0, 0xc097ce7bc8, 40);
    DoubleBelow(10, 36, 0xc097ce7bc8, 80, 1, 0xb51d13aea2, 43);
    DoubleBelow(10, 73, 0xb51d13aea2, 203, 0, 0x8022212268, 40);
    BelowDone(10, 146, 0x8022212268, 446, 39, 485);
  }

  lemma Upper10()
    ensures RPow(10, 497) < Exp2(1651)
  {
    hide Below, Above, RPow, Exp2, Pow2, Pow;
    assert FastPow(10, 7) == 0x989680;
    StartPower(10, 7);
    TwoPowers();
    LargerTwoPowers();
    hide *;
    DoubleAbove(10, 7, 0x989680, 0, 1, 0xe35fa931a0, 10);
    DoubleAbove(10, 15, 0xe35fa931a0, 10, 1, 0xfc6f7c4046, 43);
    DoubleAbove(10, 31, 0xfc6f7c4046, 63, 0, 0xf8ebad2b86, 40);
    DoubleAbove(10, 62, 0xf8ebad2b86, 166, 0, 0xf209787bb7, 40);
    DoubleAbove(10, 124, 0xf209787bb7, 372, 0, 0xe4d5e82398, 40);
    DoubleAbove(10, 248, 0xe4d5e82398, 784, 1, 0xffb1264a66, 43);
    AboveDone(10, 497, 0xffb1264a66, 1611, 40, 1651);
  }

  lemma Lower11()
    ensures Exp2(2003) < RPow(11, 579)
  {
    hide Below, Above, RPow, Exp2, Pow2, Pow;
    assert FastPow(11, 9) == 0x8c8b6d2b;
    StartPower(11, 9);
    TwoPowers();
    LargerTwoPowers();
    hide *;
    DoubleBelow(11, 9, 0x8c8b6d2b, 0, 0, 0x9a5196ad86, 23);
    DoubleBelow(11, 18, 0x9a5196ad86, 23, 0, 0xba0c8692ef, 39);
    DoubleBelow(11, 36, 0xba0c8692ef, 85, 0, 0x8736342a67, 40);
    DoubleBelow(11, 72, 0x8736342a67, 210, 0, 0x8ed46cfd8a, 39);
    DoubleBelow(11, 144, 0x8ed46cfd8a, 459, 1, 0xdb24f53e68, 42);
    DoubleBelow(11, 289, 0xdb24f53e68, 960, 1, 0x80f8aca415, 44);
    BelowDone(11, 579, 0x80f8aca415, 1964, 39, 2003);
  }

  lemma Upper11()
    ensures RPow(11, 37) < Exp2(128)
  {
    hide Below, Above, RPow, Exp2, Pow2, Pow;
    assert FastPow(11, 9) == 0x8c8b6d2b;
    StartPower(11, 9);
    TwoPowers();
    LargerTwoPowers();
    hide *;
    DoubleAbove(11, 9, 0x8c8b6d2b, 0, 0, 0x9a5196ad87, 23);
    DoubleAbove(11, 18, 0x9a5196ad87, 23, 1, 0xffd1390a0d, 42);
    AboveDone(11, 37, 0xffd1390a0d, 88, 40, 128);
  }

  lemma Lower12()
    ensures Exp2(1287) < RPow(12, 359)
  {
    hide Below, Above, RPow, Exp2, Pow2, Pow;
    assert FastPow(12, 11) == 0xacfec00000;
    StartPower(12, 11);
    TwoPowers();
    LargerTwoPowers();
    hide *;
    DoubleBelow(12, 11, 0xacfec00000, 0, 0, 0xe9ce9f0320, 39);
    DoubleBelow(12, 22, 0xe9ce9f0320, 39, 0, 0xd589c437fc, 40);
    DoubleBelow(12, 44, 0xd589c437fc, 118, 1, 0x8596e7fe92, 44);
    DoubleBelow(12, 89, 0x8596e7fe92, 280, 1, 0xd12272099c, 42);
    DoubleBelow(12, 179, 0xd12272099c, 602, 1, 0x8022f220a2, 44);
    BelowDone(12, 359, 0x8022f220a2, 1248, 39, 1287);
  }

  lemma Upper12()
    ensures RPow(12, 306) < Exp2(1097)
  {
    hide Below, Above, RPow, Exp2, Pow2, Pow;
    assert FastPow(12, 9) == 0x1338c0000;
    StartPower(12, 9);
    TwoPowers();
    LargerTwoPowers();
    hide *;
    DoubleAbove(12, 9, 0x1338c0000, 0, 1, 0x8a8d67b600, 29);
    DoubleAbove(12, 19, 0x8a8d67b600, 29, 0, 0x95f983d741, 39);
    DoubleAbove(12, 38, 0x95f983d741, 97, 0, 0xafb8cd549d, 39);
    DoubleAbove(12, 76, 0xafb8cd549d, 233, 1, 0xb4ed45323c, 43);
    DoubleAbove(12, 153, 0xb4ed45323c, 509, 0, 0xffbd0a6fad, 39);
    AboveDone(12, 306, 0xffbd0a6fad, 1057, 40, 1097);
  }

  lemma Lower13()
    ensures Exp2(1717) < RPow(13, 464)
  {
    hide Below, Above, RPow, Exp2, Pow2, Pow;
    assert FastPow(13, 7) == 0x3bd7765;
    StartPower(13, 7);
    TwoPowers();
    LargerTwoPowers();
    hide *;
    DoubleBelow(13, 7, 0x3bd7765, 0, 0, 0xdfd05e0d10, 12);
    DoubleBelow(13, 14, 0xdfd05e0d10, 12, 1, 0x9efc4cee06, 44);
    DoubleBelow(13, 29, 0x9efc4cee06, 68, 0, 0xc578cf3ab6, 39);
    DoubleBelow(13, 58, 0xc578cf3ab6, 175, 0, 0x985327f34a, 40);
    DoubleBelow(13, 116, 0x985327f34a, 390, 0, 0xb545b4e7ab, 39);
    DoubleBelow(13, 232, 0xb545b4e7ab, 819, 0, 0x805ba4ca9c, 40);
    BelowDone(13, 464, 0x805ba4ca9c, 1678, 39, 1717);
  }

  lemma Upper13()
    ensures RPow(13, 227) < Exp2(840)
  {
    hide Below, Above, RPow, Exp2, Pow2, Pow;
    assert FastPow(13, 7) == 0x3bd7765;
    StartPower(13, 7);
    TwoPowers();
    LargerTwoPowers();
    hide *;
    DoubleAbove(13, 7, 0x3bd7765, 0, 0, 0xdfd05e0d11, 12);
    DoubleAbove(13, 14, 0xdfd05e0d11, 12, 0, 0xc3acad73bc, 40);
    DoubleAbove(13, 28, 0xc3acad73bc, 64, 0, 0x959084b7da, 40);
    DoubleAbove(13, 56, 0x959084b7da, 168, 1, 0x8dfe839fd7, 43);
    DoubleAbove(13, 113, 0x8dfe839fd7, 379, 1, 0xfff7a4987a, 42);
    AboveDone(13, 227, 0xfff7a4987a, 800, 40, 840);
  }

  lemma Lower14()
    ensures Exp2(415) < RPow(14, 109)
  {
    hide Below, Above, RPow, Exp2, Pow2, Pow;
    assert FastPow(14, 6) == 0x72e440;
    StartPower(14, 6);
    TwoPowers();
    LargerTwoPowers();
    hide *;
    DoubleBelow(14, 6, 0x72e440, 0, 1, 0xb47847c738, 10);
    DoubleBelow(14, 13, 0xb47847c738, 10, 1, 0xdea4638a29, 43);
    DoubleBelow(14, 27, 0xdea4638a29, 63, 0, 0xc1a186334e, 40);
    DoubleBelow(14, 54, 0xc1a186334e, 166, 1, 0x802653fb00, 44);
    BelowDone(14, 109, 0x802653fb00, 376, 39, 415);
  }

  lemma Upper14()
    ensures RPow(14, 462) < Exp2(1759)
  {
    hide Below, Above, RPow, Exp2, Pow2, Pow;
    assert FastPow(14, 7) == 0x6487b80;
    StartPower(14, 7);
    TwoPowers();
    LargerTwoPowers();
    hide *;
    DoubleAbove(14, 7, 0x6487b80, 0, 0, 0x9de93ece51, 14);
    DoubleAbove(14, 14, 0x9de93ece51, 14, 0, 0xc2cfd718e5, 39);
    DoubleAbove(14, 28, 0xc2cfd718e5, 67, 1, 0x81b7b56761, 44);
    DoubleAbove(14, 57, 0x81b7b56761, 178, 1, 0xe60d4e48a4, 42);
    DoubleAbove(14, 115, 0xe60d4e48a4, 398, 1, 0xb4e46c3020, 44);
    DoubleAbove(14, 231, 0xb4e46c3020, 840, 0, 0xffa407e921, 39);
    AboveDone(14, 462, 0xffa407e921, 1719, 40, 1759);
  }

  lemma Lower15()
    ensures Exp2(965) < RPow(15, 247)
  {
    hide Below, Above, RPow, Exp2, Pow2, Pow;
    assert FastPow(15, 7) == 0xa2f1b6f;
    StartPower(15, 7);
    TwoPowers();
    LargerTwoPowers();
    hide *;
    DoubleBelow(15, 7, 0xa2f1b6f, 0, 1, 0xc276c58b2e, 19);
    DoubleBelow(15, 15, 0xc276c58b2e, 19, 0, 0x93b83a81a6, 40);
    DoubleBelow(15, 30, 0x93b83a81a6, 78, 1, 0x9fd28c9177, 43);
    DoubleBelow(15, 61, 0x9fd28c9177, 199, 1, 0xbb15889647, 43);
    DoubleBelow(15, 123, 0xbb15889647, 441, 1, 0x802cefe589, 44);
    BelowDone(15, 247, 0x802cefe589, 926, 39, 965);
  }

  lemma Upper15()
    ensures RPow(15, 290) < Exp2(1133)
  {
    hide Below, Above, RPow, Exp2, Pow2, Pow;
    assert FastPow(15, 9) == 0x8f3671c8f;
    StartPower(15, 9);
    TwoPowers();
    LargerTwoPowers();
    hide *;
    DoubleAbove(15, 9, 0x8f3671c8f, 0, 0, 0xa03bbd655f, 31);
    DoubleAbove(15, 18, 0xa03bbd655f, 31, 0, 0xc895755f20, 39);
    DoubleAbove(15, 36, 0xc895755f20, 101, 0, 0x9d29dea679, 40);
    DoubleAbove(15, 72, 0x9d29dea679, 242, 1, 0xb4e937a45f, 43);
    DoubleAbove(15, 145, 0xb4e937a45f, 527, 0, 0xffb1956af6, 39);
    AboveDone(15, 290, 0xffb1956af6, 1093, 40, 1133);
  }

  lemma Lower17()
    ensures Exp2(1075) < RPow(17, 263)
  {
    hide Below, Above, RPow, Exp2, Pow2, Pow;
    assert FastPow(17, 8) == 0x19fc99c81;
    StartPower(17, 8);
    TwoPowers();
    LargerTwoPowers();
    hide *;
    DoubleBelow(17, 8, 0x19fc99c81, 0, 0, 0xa8d3d20c58, 26);
    DoubleBelow(17, 16, 0xa8d3d20c58, 26, 0, 0xdead65e840, 39);
    DoubleBelow(17, 32, 0xdead65e840, 91, 1, 0xcdcc4554ce, 44);
    DoubleBelow(17, 65, 0xcdcc4554ce, 226, 1, 0xafc7d6a8ea, 44);
    DoubleBelow(17, 131, 0xafc7d6a8ea, 496, 1, 0x803e00b204, 44);
    BelowDone(17, 263, 0x803e00b204, 1036, 39, 1075);
  }

  lemma Upper17()
    ensures RPow(17, 343) < Exp2(1402)
  {
    hide Below, Above, RPow, Exp2, Pow2, Pow;
    assert FastPow(17, 10) == 0x1d56299ada1;
    StartPower(17, 10);
    TwoPowers();
    LargerTwoPowers();
    hide *;
    DoubleAbove(17, 10, 0x1d56299ada1, 0, 1, 0xe49b24f84f, 46);
    DoubleAbove(17, 21, 0xe49b24f84f, 46, 0, 0xcc24b7e017, 40);
    DoubleAbove(17, 42, 0xcc24b7e017, 132, 1, 0xacf732f676, 44);
    DoubleAbove(17, 85, 0xacf732f676, 308, 1, 0xf855d9c2f3, 43);
    DoubleAbove(17, 171, 0xf855d9c2f3, 659, 1, 0xfff4d9df4d, 44);
    AboveDone(17, 343, 0xfff4d9df4d, 1362, 40, 1402);
  }

  lemma Lower18()
    ensures Exp2(1497) < RPow(18, 359)
  {
    hide Below, Above, RPow, Exp2, Pow2, Pow;
    assert FastPow(18, 11) == 0x3a73a7c0c800;
    StartPower(18, 11);
    TwoPowers();
    LargerTwoPowers();
    hide *;
    DoubleBelow(18, 11, 0x3a73a7c0c800, 0, 0, 0xd589c437fc, 52);
    DoubleBelow(18, 22, 0xd589c437fc, 52, 0, 0xb21e8aa8c3, 40);
    DoubleBelow(18, 44, 0xb21e8aa8c3, 144, 1, 0x8b6c4c0669, 44);
    DoubleBelow(18, 89, 0x8b6c4c0669, 332, 1, 0xaad942d630, 43);
    DoubleBelow(18, 179, 0xaad942d630, 707, 1, 0x8045edcbb3, 44);
    BelowDone(18, 359, 0x8045edcbb3, 1458, 39, 1497);
  }

  lemma Upper18()
    ensures RPow(18, 153) < Exp2(638)
  {
    hide Below, Above, RPow, Exp2, Pow2, Pow;
    assert FastPow(18, 9) == 0x2e2f229200;
    StartPower(18, 9);
    TwoPowers();
    LargerTwoPowers();
    hide *;
    DoubleAbove(18, 9, 0x2e2f229200, 0, 1, 0x95f983d741, 40);
    DoubleAbove(18, 19, 0x95f983d741, 40, 0, 0xafb8cd549d, 39);
    DoubleAbove(18, 38, 0xafb8cd549d, 119, 0, 0xf13c5c42fa, 39);
    DoubleAbove(18, 76, 0xf13c5c42fa, 277, 1, 0xffbd0a6fab, 44);
    AboveDone(18, 153, 0xffbd0a6fab, 598, 40, 638);
  }

  lemma Lower19()
    ensures Exp2(2039) < RPow(19, 480)
  {
    hide Below, Above, RPow, Exp2, Pow2, Pow;
    assert FastPow(19, 7) == 0x3547667b;
    StartPower(19, 7);
    TwoPowers();
    LargerTwoPowers();
    hide *;
    DoubleBelow(19, 7, 0x3547667b, 0, 1, 0xd2ae3299c1, 24);
    DoubleBelow(19, 15, 0xd2ae3299c1, 24, 0, 0xad62418d13, 40);
    DoubleBelow(19, 30, 0xad62418d13, 88, 0, 0xeadbe49dd8, 39);
    DoubleBelow(19, 60, 0xeadbe49dd8, 215, 0, 0xd776bad181, 40);
    DoubleBelow(19, 120, 0xd776bad181, 470, 0, 0xb558a4dca8, 40);
    DoubleBelow(19, 240, 0xb558a4dca8, 980, 0, 0x807677d1c7, 40);
    BelowDone(19, 480, 0x807677d1c7, 2000, 39, 2039);
  }

  lemma Upper19()
    ensures RPow(19, 121) < Exp2(514)
  {
    hide Below, Above, RPow, Exp2, Pow2, Pow;
    assert FastPow(19, 7) == 0x3547667b;
    StartPower(19, 7);
    TwoPowers();
    LargerTwoPowers();
    hide *;
    DoubleAbove(19, 7, 0x3547667b, 0, 1, 0xd2ae3299c2, 24);
    DoubleAbove(19, 15, 0xd2ae3299c2, 24, 0, 0xad62418d16, 40);
    DoubleAbove(19, 30, 0xad62418d16, 88, 0, 0xeadbe49de2, 39);
    DoubleAbove(19, 60, 0xeadbe49de2, 215, 1, 0xffdcfdd8e0, 44);
    AboveDone(19, 121, 0xffdcfdd8e0, 474, 40, 514);
  }

  lemma Lower20()
    ensures Exp2(631) < RPow(20, 146)
  {
    hide Below, Above, RPow, Exp2, Pow2, Pow;
    assert FastPow(20, 9) == 0x7735940000;
    StartPower(20, 9);
    TwoPowers();
    LargerTwoPowers();
    hide *;
    DoubleBelow(20, 9, 0x7735940000, 0, 0, 0xde0b6b3a76, 38);
    DoubleBelow(20, 18, 0xde0b6b3a76, 38, 0, 0xc097ce7bc8, 40);
    DoubleBelow(20, 36, 0xc097ce7bc8, 116, 1, 0xb51d13aea2, 44);
    DoubleBelow(20, 73, 0xb51d13aea2, 276, 0, 0x8022212268, 40);
    BelowDone(20, 146, 0x8022212268, 592, 39, 631);
  }

  lemma Upper20()
    ensures RPow(20, 351) < Exp2(1517)
  {
    hide Below, Above, RPow, Exp2, Pow2, Pow;
    assert FastPow(20, 10) == 0x9502f900000;
    StartPower(20, 10);
    TwoPowers();
    LargerTwoPowers();
    hide *;
    DoubleAbove(20, 10, 0x9502f900000, 0, 1, 0xd8d726b718, 51);
    DoubleAbove(20, 21, 0xd8d726b718, 51, 1, 0xe596b7b0c8, 44);
    DoubleAbove(20, 43, 0xe596b7b0c8, 146, 1, 0x80b05e5ac8, 45);
    DoubleAbove(20, 87, 0x80b05e5ac8, 337, 1, 0xa1ba1ba7a4, 43);
    DoubleAbove(20, 175, 0xa1ba1ba7a4, 717, 1, 0xff6d0b34a6, 43);
    AboveDone(20, 351, 0xff6d0b34a6, 1477, 40, 1517);
  }

  lemma Lower21()
    ensures Exp2(571) < RPow(21, 130)
  {
    hide Below, Above, RPow, Exp2, Pow2, Pow;
    assert FastPow(21, 8) == 0x8ce6b0861;
    StartPower(21, 8);
    TwoPowers();
    LargerTwoPowers();
    hide *;
    DoubleBelow(21, 8, 0x8ce6b0861, 0, 0, 0x9b1a41e898, 31);
    DoubleBelow(21, 16, 0x9b1a41e898, 31, 0, 0xbbf19d0238, 39);
    DoubleBelow(21, 32, 0xbbf19d0238, 101, 1, 0xb519453b6f, 44);
    DoubleBelow(21, 65, 0xb519453b6f, 246, 0, 0x801cbe64a3, 40);
    BelowDone(21, 130, 0x801cbe64a3, 532, 39, 571);
  }

  lemma Upper21()
    ensures RPow(21, 339) < Exp2(1489)
  {
    hide Below, Above, RPow, Exp2, Pow2, Pow;
    assert FastPow(21, 10) == 0xf2b96616f19;
    StartPower(21, 10);
    TwoPowers();
    LargerTwoPowers();
    hide *;
    DoubleAbove(21, 10, 0xf2b96616f19, 0, 1, 0x9706ff674f, 53);
    DoubleAbove(21, 21, 0x9706ff674f, 53, 0, 0xb23282f9ae, 39);
    DoubleAbove(21, 42, 0xb23282f9ae, 145, 0, 0xf814903546, 39);
    DoubleAbove(21, 84, 0xf814903546, 329, 1, 0x9dc426713c, 45);
    DoubleAbove(21, 169, 0x9dc426713c, 703, 1, 0xff38b74aaa, 43);
    AboveDone(21, 339, 0xff38b74aaa, 1449, 40, 1489);
  }

  lemma Lower22()
    ensures Exp2(1922) < RPow(22, 431)
  {
    hide Below, Above, RPow, Exp2, Pow2, Pow;
    assert FastPow(22, 6) == 0x6c20a40;
    StartPower(22, 6);
    TwoPowers();
    LargerTwoPowers();
    hide *;
    DoubleBelow(22, 6, 0x6c20a40, 0, 1, 0xfb2f8ff3c1, 18);
    DoubleBelow(22, 13, 0xfb2f8ff3c1, 18, 0, 0xf6764d1e28, 40);
    DoubleBelow(22, 26, 0xf6764d1e28, 76, 1, 0xa32134fac8, 45);
    DoubleBelow(22, 53, 0xa32134fac8, 197, 1, 0x8eee8af053, 44);
    DoubleBelow(22, 107, 0x8eee8af053, 438, 1, 0xdb7521216b, 43);
    DoubleBelow(22, 215, 0xdb7521216b, 919, 1, 0x81571b7073, 45);
    BelowDone(22, 431, 0x81571b7073, 1883, 39, 1922);
  }

  lemma Upper22()
    ensures RPow(22, 37) < Exp2(165)
  {
    hide Below, Above, RPow, Exp2, Pow2, Pow;
    assert FastPow(22, 9) == 0x11916da5600;
    StartPower(22, 9);
    TwoPowers();
    LargerTwoPowers();
    hide *;
    DoubleAbove(22, 9, 0x11916da5600, 0, 0, 0x9a5196ad87, 41);
    DoubleAbove(22, 18, 0x9a5196ad87, 41, 1, 0xffd1390a0d, 43);
    AboveDone(22, 37, 0xffd1390a0d, 125, 40, 165);
  }

  lemma Lower23()
    ensures Exp2(864) < RPow(23, 191)
  {
    hide Below, Above, RPow, Exp2, Pow2, Pow;
    assert FastPow(23, 5) == 0x6235f7;
    StartPower(23, 5);
    TwoPowers();
    LargerTwoPowers();
    hide *;
    DoubleBelow(23, 5, 0x6235f7, 0, 1, 0xd8a4d3ca2c, 10);
    DoubleBelow(23, 11, 0xd8a4d3ca2c, 10, 1, 0x83c63727bd, 45);
    DoubleBelow(23, 23, 0x83c63727bd, 65, 1, 0xc302d30699, 43);
    DoubleBelow(23, 47, 0xc302d30699, 173, 1, 0xd58b1f6dca, 44);
    DoubleBelow(23, 95, 0xd58b1f6dca, 390, 1, 0x800793fea2, 45);
    BelowDone(23, 191, 0x800793fea2, 825, 39, 864);
  }

  lemma Upper23()
    ensures RPow(23, 403) < Exp2(1823)
  {
    hide Below, Above, RPow, Exp2, Pow2, Pow;
    assert FastPow(23, 6) == 0x8d2d931;
    StartPower(23, 6);
    TwoPowers();
    LargerTwoPowers();
    hide *;
    DoubleAbove(23, 6, 0x8d2d931, 0, 0, 0x9bb6783951, 15);
    DoubleAbove(23, 12, 0x9bb6783951, 15, 1, 0x88264bfc92, 44);
    DoubleAbove(23, 25, 0x88264bfc92, 74, 0, 0x90d16cee02, 39);
    DoubleAbove(23, 50, 0x90d16cee02, 187, 0, 0xa3d88bbd9b, 39);
    DoubleAbove(23, 100, 0xa3d88bbd9b, 413, 1, 0x96be5e1d5f, 44);
    DoubleAbove(23, 201, 0x96be5e1d5f, 870, 1, 0xff3277137d, 43);
    AboveDone(23, 403, 0xff3277137d, 1783, 40, 1823);
  }

  lemma Lower24()
    ensures Exp2(1646) < RPow(24, 359)
  {
    hide Below, Above, RPow, Exp2, Pow2, Pow;
    assert FastPow(24, 5) == 0x798000;
    StartPower(24, 5);
    TwoPowers();
    LargerTwoPowers();
    hide *;
    DoubleBelow(24, 5, 0x798000, 0, 1, 0xacfec00000, 11);
    DoubleBelow(24, 11, 0xacfec00000, 11, 0, 0xe9ce9f0320, 39);
    DoubleBelow(24, 22, 0xe9ce9f0320, 61, 0, 0xd589c437fc, 40);
    DoubleBelow(24, 44, 0xd589c437fc, 162, 1, 0x8596e7fe92, 45);
    DoubleBelow(24, 89, 0x8596e7fe92, 369, 1, 0xd12272099c, 43);
    DoubleBelow(24, 179, 0xd12272099c, 781, 1, 0x8022f220a2, 45);
    BelowDone(24, 359, 0x8022f220a2, 1607, 39, 1646);
  }

  lemma Upper24()
    ensures RPow(24, 306) < Exp2(1403)
  {
    hide Below, Above, RPow, Exp2, Pow2, Pow;
    assert FastPow(24, 9) == 0x26718000000;
    StartPower(24, 9);
    TwoPowers();
    LargerTwoPowers();
    hide *;
    DoubleAbove(24, 9, 0x26718000000, 0, 1, 0x8a8d67b600, 48);
    DoubleAbove(24, 19, 0x8a8d67b600, 48, 0, 0x95f983d741, 39);
    DoubleAbove(24, 38, 0x95f983d741, 135, 0, 0xafb8cd549d, 39);
    DoubleAbove(24, 76, 0xafb8cd549d, 309, 1, 0xb4ed45323c, 44);
    DoubleAbove(24, 153, 0xb4ed45323c, 662, 0, 0xffbd0a6fad, 39);
    AboveDone(24, 306, 0xffbd0a6fad, 1363, 40, 1403);
  }

  lemma Lower25()
    ensures Exp2(339) < RPow(25, 73)
  {
    hide Below, Above, RPow, Exp2, Pow2, Pow;
    assert FastPow(25, 9) == 0x3782dace9d9;
    StartPower(25, 9);
    TwoPowers();
    LargerTwoPowers();
    hide *;
    DoubleBelow(25, 9, 0x3782dace9d9, 0, 0, 0xc097ce7bc9, 44);
    DoubleBelow(25, 18, 0xc097ce7bc9, 44, 0, 0x90e40fbeea, 40);
    DoubleBelow(25, 36, 0x90e40fbeea, 128, 1, 0x802221226b, 44);
    BelowDone(25, 73, 0x802221226b, 300, 39, 339);
  }

  lemma Upper25()
    ensures RPow(25, 424) < Exp2(1969)
  {
    hide Below, Above, RPow, Exp2, Pow2, Pow;
    assert FastPow(25, 6) == 0xe8d4a51;
    StartPower(25, 6);
    TwoPowers();
    LargerTwoPowers();
    hide *;
    DoubleAbove(25, 6, 0xe8d4a51, 0, 1, 0xa56fa5b991, 21);
    DoubleAbove(25, 13, 0xa56fa5b991, 21, 0, 0xd5d238a4af, 39);
    DoubleAbove(25, 26, 0xd5d238a4af, 81, 1, 0x8b865b215d, 45);
    DoubleAbove(25, 53, 0x8b865b215d, 207, 0, 0x98165af385, 39);
    DoubleAbove(25, 106, 0x98165af385, 453, 0, 0xb4b51be9e1, 39);
    DoubleAbove(25, 212, 0xb4b51be9e1, 945, 0, 0xff1e5ec2c1, 39);
    AboveDone(25, 424, 0xff1e5ec2c1, 1929, 40, 1969);
  }

  lemma Lower26()
    ensures Exp2(1114) < RPow(26, 237)
  {
    hide Below, Above, RPow, Exp2, Pow2, Pow;
    assert FastPow(26, 7) == 0x1debbb280;
    StartPower(26, 7);
    TwoPowers();
    LargerTwoPowers();
    hide *;
    DoubleBelow(26, 7, 0x1debbb280, 0, 0, 0xdfd05e0d10, 26);
    DoubleBelow(26, 14, 0xdfd05e0d10, 26, 1, 0x9efc4cee06, 45);
    DoubleBelow(26, 29, 0x9efc4cee06, 97, 1, 0xa072285fb4, 44);
    DoubleBelow(26, 59, 0xa072285fb4, 238, 0, 0xc91dcabf39, 39);
    DoubleBelow(26, 118, 0xc91dcabf39, 515, 1, 0x805fd59f5f, 45);
    BelowDone(26, 237, 0x805fd59f5f, 1075, 39, 1114);
  }

  lemma Upper26()
    ensures RPow(26, 227) < Exp2(1067)
  {
    hide Below, Above, RPow, Exp2, Pow2, Pow;
    assert FastPow(26, 7) == 0x1debbb280;
    StartPower(26, 7);
    TwoPowers();
    LargerTwoPowers();
    hide *;
    DoubleAbove(26, 7, 0x1debbb280, 0, 0, 0xdfd05e0d11, 26);
    DoubleAbove(26, 14, 0xdfd05e0d11, 26, 0, 0xc3acad73bc, 40);
    DoubleAbove(26, 28, 0xc3acad73bc, 92, 0, 0x959084b7da, 40);
    DoubleAbove(26, 56, 0x959084b7da, 224, 1, 0x8dfe839fd7, 44);
    DoubleAbove(26, 113, 0x8dfe839fd7, 492, 1, 0xfff7a4987a, 43);
    AboveDone(26, 227, 0xfff7a4987a, 1027, 40, 1067);
  }

  lemma Lower27()
    ensures Exp2(1707) < RPow(27, 359)
  {
    hide Below, Above, RPow, Exp2, Pow2, Pow;
    assert FastPow(27, 5) == 0xdaf26b;
    StartPower(27, 5);
    TwoPowers();
    LargerTwoPowers();
    hide *;
    DoubleBelow(27, 5, 0xdaf26b, 0, 1, 0x9dff7d32d5, 13);
    DoubleBelow(27, 11, 0x9dff7d32d5, 13, 0, 0xc306bd1603, 39);
    DoubleBelow(27, 22, 0xc306bd1603, 65, 0, 0x9493443cf1, 40);
    DoubleBelow(27, 44, 0x9493443cf1, 170, 1, 0x9182e69a75, 44);
    DoubleBelow(27, 89, 0x9182e69a75, 384, 1, 0x8b925c86db, 44);
    DoubleBelow(27, 179, 0x8b925c86db, 812, 1, 0x8068f303b1, 44);
    BelowDone(27, 359, 0x8068f303b1, 1668, 39, 1707);
  }

  lemma Upper27()
    ensures RPow(27, 102) < Exp2(485)
  {
    hide Below, Above, RPow, Exp2, Pow2, Pow;
    assert FastPow(27, 6) == 0x17179149;
    StartPower(27, 6);
    TwoPowers();
    LargerTwoPowers();
    hide *;
    DoubleAbove(27, 6, 0x17179149, 0, 0, 0x854f91a2e5, 18);
    DoubleAbove(27, 12, 0x854f91a2e5, 18, 1, 0xea4bbc70d3, 43);
    DoubleAbove(27, 25, 0xea4bbc70d3, 79, 1, 0xb4ed45323f, 45);
    DoubleAbove(27, 51, 0xb4ed45323f, 203, 0, 0xffbd0a6fb5, 39);
    AboveDone(27, 102, 0xffbd0a6fb5, 445, 40, 485);
  }

  lemma Lower28()
    ensures Exp2(524) < RPow(28, 109)
  {
    hide Below, Above, RPow, Exp2, Pow2, Pow;
    assert FastPow(28, 6) == 0x1cb91000;
    StartPower(28, 6);
    TwoPowers();
    LargerTwoPowers();
    hide *;
    DoubleBelow(28, 6, 0x1cb91000, 0, 1, 0xb47847c738, 23);
    DoubleBelow(28, 13, 0xb47847c738, 23, 1, 0xdea4638a29, 44);
    DoubleBelow(28, 27, 0xdea4638a29, 90, 0, 0xc1a186334e, 40);
    DoubleBelow(28, 54, 0xc1a186334e, 220, 1, 0x802653fb00, 45);
    BelowDone(28, 109, 0x802653fb00, 485, 39, 524);
  }

  lemma Upper28()
    ensures RPow(28, 353) < Exp2(1697)
  {
    hide Below, Above, RPow, Exp2, Pow2, Pow;
    assert FastPow(28, 5) == 0x1069c00;
    StartPower(28, 5);
    TwoPowers();
    LargerTwoPowers();
    hide *;
    DoubleAbove(28, 5, 0x1069c00, 0, 1, 0xebb7392e00, 13);
    DoubleAbove(28, 11, 0xebb7392e00, 13, 0, 0xd909e61d41, 40);
    DoubleAbove(28, 22, 0xd909e61d41, 66, 0, 0xb801c87f96, 40);
    DoubleAbove(28, 44, 0xb801c87f96, 172, 0, 0x8442903a96, 40);
    DoubleAbove(28, 88, 0x8442903a96, 384, 0, 0x88a96c1635, 39);
    DoubleAbove(28, 176, 0x88a96c1635, 807, 1, 0xff57926230, 43);
    AboveDone(28, 353, 0xff57926230, 1657, 40, 1697);
  }

  lemma Lower29()
    ensures Exp2(1676) < RPow(29, 345)
  {
    hide Below, Above, RPow, Exp2, Pow2, Pow;
    assert FastPow(29, 5) == 0x138f9ad;
    StartPower(29, 5);
    TwoPowers();
    LargerTwoPowers();
    hide *;
    DoubleBelow(29, 5, 0x138f9ad, 0, 0, 0xbf50c498ff, 9);
    DoubleBelow(29, 10, 0xbf50c498ff, 9, 1, 0x819237f388, 45);
    DoubleBelow(29, 21, 0x819237f388, 63, 1, 0xedbafda677, 43);
    DoubleBelow(29, 43, 0xedbafda677, 169, 0, 0xdcc3c23bc9, 40);
    DoubleBelow(29, 86, 0xdcc3c23bc9, 378, 0, 0xbe610b883b, 40);
    DoubleBelow(29, 172, 0xbe610b883b, 796, 1, 0x804e4d3a36, 45);
    BelowDone(29, 345, 0x804e4d3a36, 1637, 39, 1676);
  }

  lemma Upper29()
    ensures RPow(29, 169) < Exp2(821)
  {
    hide Below, Above, RPow, Exp2, Pow2, Pow;
    assert FastPow(29, 5) == 0x138f9ad;
    StartPower(29, 5);
    TwoPowers();
    LargerTwoPowers();
    hide *;
    DoubleAbove(29, 5, 0x138f9ad, 0, 0, 0xbf50c49900, 9);
    DoubleAbove(29, 10, 0xbf50c49900, 9, 1, 0x819237f38b, 45);
    DoubleAbove(29, 21, 0x819237f38b, 63, 0, 0x83295fcea1, 39);
    DoubleAbove(29, 42, 0x83295fcea1, 165, 0, 0x8666bd7a9a, 39);
    DoubleAbove(29, 84, 0x8666bd7a9a, 369, 1, 0xffc8f98698, 43);
    AboveDone(29, 169, 0xffc8f98698, 781, 40, 821);
  }

  lemma Lower30()
    ensures Exp2(1212) < RPow(30, 247)
  {
    hide Below, Above, RPow, Exp2, Pow2, Pow;
    assert FastPow(30, 7) == 0x5178db780;
    StartPower(30, 7);
    TwoPowers();
    LargerTwoPowers();
    hide *;
    DoubleBelow(30, 7, 0x5178db780, 0, 1, 0xc276c58b2e, 34);
    DoubleBelow(30, 15, 0xc276c58b2e, 34, 0, 0x93b83a81a6, 40);
    DoubleBelow(30, 30, 0x93b83a81a6, 108, 1, 0x9fd28c9177, 44);
    DoubleBelow(30, 61, 0x9fd28c9177, 260, 1, 0xbb15889647, 44);
    DoubleBelow(30, 123, 0xbb15889647, 564, 1, 0x802cefe589, 45);
    BelowDone(30, 247, 0x802cefe589, 1173, 39, 1212);
  }

  lemma Upper30()
    ensures RPow(30, 290) < Exp2(1423)
  {
    hide Below, Above, RPow, Exp2, Pow2, Pow;
    assert FastPow(30, 9) == 0x11e6ce391e00;
    StartPower(30, 9);
    TwoPowers();
    LargerTwoPowers();
    hide *;
    DoubleAbove(30, 9, 0x11e6ce391e00, 0, 0, 0xa03bbd655f, 49);
    DoubleAbove(30, 18, 0xa03bbd655f, 49, 0, 0xc895755f20, 39);
    DoubleAbove(30, 36, 0xc895755f20, 137, 0, 0x9d29dea679, 40);
    DoubleAbove(30, 72, 0x9d29dea679, 314, 1, 0xb4e937a45f, 44);
    DoubleAbove(30, 145, 0xb4e937a45f, 672, 0, 0xffb1956af6, 39);
    AboveDone(30, 290, 0xffb1956af6, 1383, 40, 1423);
  }

  lemma Lower31()
    ensures Exp2(1838) < RPow(31, 371)
  {
    hide Below, Above, RPow, Exp2, Pow2, Pow;
    assert FastPow(31, 5) == 0x1b4d89f;
    StartPower(31, 5);
    TwoPowers();
    LargerTwoPowers();
    hide *;
    DoubleBelow(31, 5, 0x1b4d89f, 0, 1, 0xb489c00f63, 15);
    DoubleBelow(31, 11, 0xb489c00f63, 15, 1, 0xf6aee0663b, 44);
    DoubleBelow(31, 23, 0xf6aee0663b, 74, 0, 0xedb48eba49, 40);
    DoubleBelow(31, 46, 0xedb48eba49, 188, 0, 0xdcb7cf9df0, 40);
    DoubleBelow(31, 92, 0xdcb7cf9df0, 416, 1, 0xb85a0d4b61, 45);
    DoubleBelow(31, 185, 0xb85a0d4b61, 877, 1, 0x809b863367, 45);
    BelowDone(31, 371, 0x809b863367, 1799, 39, 1838);
  }

  lemma Upper31()
    ensures RPow(31, 131) < Exp2(649)
  {
    hide Below, Above, RPow, Exp2, Pow2, Pow;
    assert FastPow(31, 8) == 0xc694446f01;
    StartPower(31, 8);
    TwoPowers();
    LargerTwoPowers();
    hide *;
    DoubleAbove(31, 8, 0xc694446f01, 0, 0, 0x9a09afbae9, 40);
    DoubleAbove(31, 16, 0x9a09afbae9, 40, 0, 0xb95f4f9569, 39);
    DoubleAbove(31, 32, 0xb95f4f9569, 119, 1, 0x82090d5e0b, 45);
    DoubleAbove(31, 65, 0x82090d5e0b, 283, 1, 0xfff3215924, 43);
    AboveDone(31, 131, 0xfff3215924, 609, 40, 649);
  }

  lemma Lower33()
    ensures Exp2(1932) < RPow(33, 383)
  {
    hide Below, Above, RPow, Exp2, Pow2, Pow;
    assert FastPow(33, 5) == 0x25528a1;
    StartPower(33, 5);
    TwoPowers();
    LargerTwoPowers();
    hide *;
    DoubleBelow(33, 5, 0x25528a1, 0, 1, 0xb38fc730f3, 16);
    DoubleBelow(33, 11, 0xb38fc730f3, 16, 1, 0x81e1f4590c, 45);
    DoubleBelow(33, 23, 0x81e1f4590c, 77, 1, 0x87e9575d6a, 44);
    DoubleBelow(33, 47, 0x87e9575d6a, 198, 1, 0x94d25c96a2, 44);
    DoubleBelow(33, 95, 0x94d25c96a2, 440, 1, 0xb2700e530b, 44);
    DoubleBelow(33, 191, 0xb2700e530b, 924, 1, 0x8043051fc4, 45);
    BelowDone(33, 383, 0x8043051fc4, 1893, 39, 1932);
  }

  lemma Upper33()
    ensures RPow(33, 45) < Exp2(227)
  {
    hide Below, Above, RPow, Exp2, Pow2, Pow;
    assert FastPow(33, 5) == 0x25528a1;
    StartPower(33, 5);
    TwoPowers();
    LargerTwoPowers();
    hide *;
    DoubleAbove(33, 5, 0x25528a1, 0, 1, 0xb38fc730f4, 16);
    DoubleAbove(33, 11, 0xb38fc730f4, 16, 0, 0xfbe4c29d32, 39);
    DoubleAbove(33, 22, 0xfbe4c29d32, 71, 1, 0xff99351bd8, 45);
    AboveDone(33, 45, 0xff99351bd8, 187, 40, 227);
  }

  lemma Lower34()
    ensures Exp2(1338) < RPow(34, 263)
  {
    hide Below, Above, RPow, Exp2, Pow2, Pow;
    assert FastPow(34, 8) == 0x19fc99c8100;
    StartPower(34, 8);
    TwoPowers();
    LargerTwoPowers();
    hide *;
    DoubleBelow(34, 8, 0x19fc99c8100, 0, 0, 0xa8d3d20c58, 42);
    DoubleBelow(34, 16, 0xa8d3d20c58, 42, 0, 0xdead65e840, 39);
    DoubleBelow(34, 32, 0xdead65e840, 123, 1, 0xcdcc4554ce, 45);
    DoubleBelow(34, 65, 0xcdcc4554ce, 291, 1, 0xafc7d6a8ea, 45);
    DoubleBelow(34, 131, 0xafc7d6a8ea, 627, 1, 0x803e00b204, 45);
    BelowDone(34, 263, 0x803e00b204, 1299, 39, 1338);
  }

  lemma Upper34()
    ensures RPow(34, 343) < Exp2(1745)
  {
    hide Below, Above, RPow, Exp2, Pow2, Pow;
    assert FastPow(34, 5) == 0x2b54a20;
    StartPower(34, 5);
    TwoPowers();
    LargerTwoPowers();
    hide *;
    DoubleAbove(34, 5, 0x2b54a20, 0, 0, 0xeab14cd6d1, 11);
    DoubleAbove(34, 10, 0xeab14cd6d1, 11, 1, 0xe49b24f850, 45);
    DoubleAbove(34, 21, 0xe49b24f850, 67, 0, 0xcc24b7e019, 40);
    DoubleAbove(34, 42, 0xcc24b7e019, 174, 1, 0xacf732f67a, 45);
    DoubleAbove(34, 85, 0xacf732f67a, 393, 1, 0xf855d9c2ff, 44);
    DoubleAbove(34, 171, 0xf855d9c2ff, 830, 1, 0xfff4d9df65, 45);
    AboveDone(34, 343, 0xfff4d9df65, 1705, 40, 1745);
  }

  lemma Lower35()
    ensures Exp2(1349) < RPow(35, 263)
  {
    hide Below, Above, RPow, Exp2, Pow2, Pow;
    assert FastPow(35, 8) == 0x20c4e3b94a1;
    StartPower(35, 8);
    TwoPowers();
    LargerTwoPowers();
    hide *;
    DoubleBelow(35, 8, 0x20c4e3b94a1, 0, 0, 0x863a0b7a19, 43);
    DoubleBelow(35, 16, 0x863a0b7a19, 43, 0, 0x8cc1a25a0c, 39);
    DoubleBelow(35, 32, 0x8cc1a25a0c, 125, 1, 0xa94b895300, 44);
    DoubleBelow(35, 65, 0xa94b895300, 294, 1, 0xf4e78a7f6c, 44);
    DoubleBelow(35, 131, 0xf4e78a7f6c, 632, 1, 0x802093083b, 46);
    BelowDone(35, 263, 0x802093083b, 1310, 39, 1349);
  }

  lemma Upper35()
    ensures RPow(35, 379) < Exp2(1944)
  {
    hide Below, Above, RPow, Exp2, Pow2, Pow;
    assert FastPow(35, 5) == 0x3216b93;
    StartPower(35, 5);
    TwoPowers();
    LargerTwoPowers();
    hide *;
    DoubleAbove(35, 5, 0x3216b93, 0, 1, 0xab81793a4b, 17);
    DoubleAbove(35, 11, 0xab81793a4b, 17, 1, 0xfb579da36a, 44);
    DoubleAbove(35, 23, 0xfb579da36a, 78, 1, 0x86f3b1aac0, 46);
    DoubleAbove(35, 47, 0x86f3b1aac0, 202, 0, 0x8e480bf30d, 39);
    DoubleAbove(35, 94, 0x8e480bf30d, 443, 1, 0xacfbc35a49, 44);
    DoubleAbove(35, 189, 0xacfbc35a49, 930, 1, 0xffb12958d4, 44);
    AboveDone(35, 379, 0xffb12958d4, 1904, 40, 1944);
  }

  lemma Lower36()
    ensures Exp2(1856) < RPow(36, 359)
  {
    hide Below, Above, RPow, Exp2, Pow2, Pow;
    assert FastPow(36, 5) == 0x39aa400;
    StartPower(36, 5);
    TwoPowers();
    LargerTwoPowers();
    hide *;
    DoubleBelow(36, 5, 0x39aa400, 0, 1, 0xe9ce9f0320, 17);
    DoubleBelow(36, 11, 0xe9ce9f0320, 17, 0, 0xd589c437fc, 40);
    DoubleBelow(36, 22, 0xd589c437fc, 74, 0, 0xb21e8aa8c3, 40);
    DoubleBelow(36, 44, 0xb21e8aa8c3, 188, 1, 0x8b6c4c0669, 45);
    DoubleBelow(36, 89, 0x8b6c4c0669, 421, 1, 0xaad942d630, 44);
    DoubleBelow(36, 179, 0xaad942d630, 886, 1, 0x8045edcbb3, 45);
    BelowDone(36, 359, 0x8045edcbb3, 1817, 39, 1856);
  }

  lemma Upper36()
    ensures RPow(36, 153) < Exp2(791)
  {
    hide Below, Above, RPow, Exp2, Pow2, Pow;
    assert FastPow(36, 9) == 0x5c5e45240000;
    StartPower(36, 9);
    TwoPowers();
    LargerTwoPowers();
    hide *;
    DoubleAbove(36, 9, 0x5c5e45240000, 0, 1, 0x95f983d741, 59);
    DoubleAbove(36, 19, 0x95f983d741, 59, 0, 0xafb8cd549d, 39);
    DoubleAbove(36, 38, 0xafb8cd549d, 157, 0, 0xf13c5c42fa, 39);
    DoubleAbove(36, 76, 0xf13c5c42fa, 353, 1, 0xffbd0a6fab, 45);
    AboveDone(36, 153, 0xffbd0a6fab, 751, 40, 791);
  }

  // ----- the table -----

  /** The entry m of radix b: the fraction 2^24 / m lies between neighbours of
      log2(b). */
  ghost predicate Entry(b: Radix, m: nat) {
    exists p1: nat, q1: nat, p2: nat, q2: nat :: EntryBetween(b, m, p1, q1, p2, q2)
  }

  ghost predicate EntryBetween(b: Radix, m: nat, p1: nat, q1: nat, p2: nat, q2: nat) {
    && Neighbours(b, p1, q1, p2, q2) && p1 + p2 > 2048
    && p1 * m < q1 * LOG_BASE && q2 * LOG_BASE < p2 * m
  }

  lemma EntryIntro(b: Radix, m: nat, p1: nat, q1: nat, p2: nat, q2: nat)
    requires p1 > 0 && p2 > 0 && p2 * q1 == p1 * q2 + 1 && p1 + p2 > 2048
    requires p1 * m < q1 * LOG_BASE && q2 * LOG_BASE < p2 * m
    requires Exp2(p1) < RPow(b, q1) && RPow(b, q2) < Exp2(p2)
    ensures Entry(b, m)
  {
    hide Exp2, RPow;
    assert EntryBetween(b, m, p1, q1, p2, q2);
  }

  lemma Entries1(b: Radix)
    requires 3 <= b <= 9 && OddPart(b) != 1
    ensures Entry(b, MUL_LOG2_RADIX[b - 2])
  {
    PowersOfTwoOnly();
    hide Exp2, RPow, Entry, OddPart;
    match b {
      case 3 =>
        Lower3();
        Upper3();
        EntryIntro(3, 0xa1849d, 1054, 665, 1539, 971);
      case 4 =>
      case 5 =>
        Lower5();
        Upper5();
        EntryIntro(5, 0x6e40d2, 1832, 789, 1493, 643);
      case 6 =>
        Lower6();
        Upper6();
        EntryIntro(6, 0x6308c9, 1719, 665, 791, 306);
      case 7 =>
        Lower7();
        Upper7();
        EntryIntro(7, 0x5b3065, 1909, 680, 1603, 571);
      case 8 =>
      case 9 =>
        Lower9();
        Upper9();
        EntryIntro(9, 0x50c24e, 1623, 512, 485, 153);
    }
  }

  lemma Entries2(b: Radix)
    requires 10 <= b <= 14 && OddPart(b) != 1
    ensures Entry(b, MUL_LOG2_RADIX[b - 2])
  {
    PowersOfTwoOnly();
    hide Exp2, RPow, Entry, OddPart;
    match b {
      case 10 =>
        Lower10();
        Upper10();
        EntryIntro(10, 0x4d104d, 485, 146, 1651, 497);
      case 11 =>
        Lower11();
        Upper11();
        EntryIntro(11, 0x4a0027, 2003, 579, 128, 37);
      case 12 =>
        Lower12();
        Upper12();
        EntryIntro(12, 0x4768ce, 1287, 359, 1097, 306);
      case 13 =>
        Lower13();
        Upper13();
        EntryIntro(13, 0x452e54, 1717, 464, 840, 227);
      case 14 =>
        Lower14();
        Upper14();
        EntryIntro(14, 0x433d00, 415, 109, 1759, 462);
    }
  }

  lemma Entries3(b: Radix)
    requires 15 <= b <= 20 && OddPart(b) != 1
    ensures Entry(b, MUL_LOG2_RADIX[b - 2])
  {
    PowersOfTwoOnly();
    hide Exp2, RPow, Entry, OddPart;
    match b {
      case 15 =>
        Lower15();
        Upper15();
        EntryIntro(15, 0x418677, 965, 247, 1133, 290);
      case 16 =>
      case 17 =>
        Lower17();
        Upper17();
        EntryIntro(17, 0x3ea16b, 1075, 263, 1402, 343);
      case 18 =>
        Lower18();
        Upper18();
        EntryIntro(18, 0x3d645a, 1497, 359, 638, 153);
      case 19 =>
        Lower19();
        Upper19();
        EntryIntro(19, 0x3c43c2, 2039, 480, 514, 121);
      case 20 =>
        Lower20();
        Upper20();
        EntryIntro(20, 0x3b3b9a, 631, 146, 1517, 351);
    }
  }

  lemma Entries4(b: Radix)
    requires 21 <= b <= 25 && OddPart(b) != 1
    ensures Entry(b, MUL_LOG2_RADIX[b - 2])
  {
    PowersOfTwoOnly();
    hide Exp2, RPow, Entry, OddPart;
    match b {
      case 21 =>
        Lower21();
        Upper21();
        EntryIntro(21, 0x3a4899, 571, 130, 1489, 339);
      case 22 =>
        Lower22();
        Upper22();
        EntryIntro(22, 0x39680b, 1922, 431, 165, 37);
      case 23 =>
        Lower23();
        Upper23();
        EntryIntro(23, 0x3897b3, 864, 191, 1823, 403);
      case 24 =>
        Lower24();
        Upper24();
        EntryIntro(24, 0x37d5af, 1646, 359, 1403, 306);
      case 25 =>
        Lower25();
        Upper25();
        EntryIntro(25, 0x372069, 339, 73, 1969, 424);
    }
  }

  lemma Entries5(b: Radix)
    requires 26 <= b <= 30 && OddPart(b) != 1
    ensures Entry(b, MUL_LOG2_RADIX[b - 2])
  {
    PowersOfTwoOnly();
    hide Exp2, RPow, Entry, OddPart;
    match b {
      case 26 =>
        Lower26();
        Upper26();
        EntryIntro(26, 0x367686, 1114, 237, 1067, 227);
      case 27 =>
        Lower27();
        Upper27();
        EntryIntro(27, 0x35d6df, 1707, 359, 485, 102);
      case 28 =>
        Lower28();
        Upper28();
        EntryIntro(28, 0x354072, 524, 109, 1697, 353);
      case 29 =>
        Lower29();
        Upper29();
        EntryIntro(29, 0x34b261, 1676, 345, 821, 169);
      case 30 =>
        Lower30();
        Upper30();
        EntryIntro(30, 0x342bea, 1212, 247, 1423, 290);
    }
  }

  lemma Entries6(b: Radix)
    requires 31 <= b <= 36 && OddPart(b) != 1
    ensures Entry(b, MUL_LOG2_RADIX[b - 2])
  {
    PowersOfTwoOnly();
    hide Exp2, RPow, Entry, OddPart;
    match b {
      case 31 =>
        Lower31();
        Upper31();
        EntryIntro(31, 0x33ac62, 1838, 371, 649, 131);
      case 32 =>
      case 33 =>
        Lower33();
        Upper33();
        EntryIntro(33, 0x32bfd9, 1932, 383, 227, 45);
      case 34 =>
        Lower34();
        Upper34();
        EntryIntro(34, 0x3251dd, 1338, 263, 1745, 343);
      case 35 =>
        Lower35();
        Upper35();
        EntryIntro(35, 0x31e8d6, 1349, 263, 1944, 379);
      case 36 =>
        Lower36();
        Upper36();
        EntryIntro(36, 0x318465, 1856, 359, 791, 153);
    }
  }

  lemma PowersOfTwoOnly()
    ensures OddPart(2) == 1 && OddPart(4) == 1 && OddPart(8) == 1 && OddPart(16) == 1 && OddPart(32) == 1
  {
    TwosOnly(2, 1);
    TwosOnly(4, 2);
    TwosOnly(8, 3);
    TwosOnly(16, 4);
    TwosOnly(32, 5);
  }

  lemma SmallPowers()
    ensures Pow2(0) == 1 && Pow2(1) == 2 && Pow2(2) == 4 && Pow2(3) == 8 && Pow2(4) == 16 && Pow2(5) == 32
  {
  }

  lemma TwosOnly(b: Radix, s: nat)
    requires s <= 5 && b == Pow2(s)
    ensures OddPart(b) == 1
  {
    SmallPowers();
    RadixParts(b);
    hide Pow2, OddPart, Ctz32;
  }

  lemma TableEntry(b: Radix)
    requires OddPart(b) != 1
    ensures Entry(b, MUL_LOG2_RADIX[b - 2])
  {
    PowersOfTwoOnly();
    hide Entry, OddPart, MUL_LOG2_RADIX;
    if b < 10 {
      Entries1(b);
    } else if b < 15 {
      Entries2(b);
    } else if b < 21 {
      Entries3(b);
    } else if b < 26 {
      Entries4(b);
    } else if b < 31 {
      Entries5(b);
    } else {
      Entries6(b);
    }
  }

  /** floor(a / log2(b)): b^q <= 2^a < b^(q + 1) for q = mul_log2_radix(a, b). */
  lemma MulLog2RadixIsFloor(b: Radix, a: int)
    requires -2048 <= a <= 2047
    ensures LogBracket(b, a + 1, MulLog2Radix(a, b) + 1)
  {
    var q := MulLog2Radix(a, b);
    if OddPart(b) == 1 {
      PowerRadix(b);
      FloorDivision(a, Ctz32(b));
      PowerOfTwoBracket(b, Ctz32(b), a, q);
    } else {
      var m := MUL_LOG2_RADIX[b - 2];
      TableEntry(b);
      TableBracket(b, a, m, q);
    }
  }

  lemma TableBracket(b: Radix, a: int, m: nat, q: int)
    requires -2048 <= a <= 2047 && Entry(b, m) && q == a * m / LOG_BASE
    ensures LogBracket(b, a + 1, q + 1)
  {
    var p1: nat, q1: nat, p2: nat, q2: nat :| EntryBetween(b, m, p1, q1, p2, q2);
    assert q * LOG_BASE <= a * m < (q + 1) * LOG_BASE;
    hide Exp2, RPow, Neighbours, MulLog2Radix;
    SameSideOfLog(b, p1, q1, p2, q2, m, a, q);
    SameSideOfLog(b, p1, q1, p2, q2, m, a, q + 1);
  }

  // ----- the cut-off exponents of js_atod -----

  /** max_exponent and min_exponent against the logarithm of 2^1024, 2^-1075 and
      2^-1084. */
  predicate CutoffEntry(b: Radix, m: nat) {
    && MaxExponent(b) >= 1024 * m / LOG_BASE + 1
    && MinExponent(b) <= -1075 * m / LOG_BASE && MinExponent(b) >= -1084 * m / LOG_BASE + 1
    && MinExponent(b) < 0
  }

  lemma CutoffEntries1(b: Radix)
    requires 2 <= b <= 7 && OddPart(b) != 1
    ensures CutoffEntry(b, MUL_LOG2_RADIX[b - 2])
  {
    PowersOfTwoOnly();
    hide OddPart;
    match b {
      case 2 =>
      case 3 =>
      case 4 =>
      case 5 =>
      case 6 =>
      case 7 =>
    }
  }

  lemma CutoffEntries2(b: Radix)
    requires 8 <= b <= 12 && OddPart(b) != 1
    ensures CutoffEntry(b, MUL_LOG2_RADIX[b - 2])
  {
    PowersOfTwoOnly();
    hide OddPart;
    match b {
      case 8 =>
      case 9 =>
      case 10 =>
      case 11 =>
      case 12 =>
    }
  }

  lemma CutoffEntries3(b: Radix)
    requires 13 <= b <= 18 && OddPart(b) != 1
    ensures CutoffEntry(b, MUL_LOG2_RADIX[b - 2])
  {
    PowersOfTwoOnly();
    hide OddPart;
    match b {
      case 13 =>
      case 14 =>
      case 15 =>
      case 16 =>
      case 17 =>
      case 18 =>
    }
  }

  lemma CutoffEntries4(b: Radix)
    requires 19 <= b <= 24 && OddPart(b) != 1
    ensures CutoffEntry(b, MUL_LOG2_RADIX[b - 2])
  {
    PowersOfTwoOnly();
    hide OddPart;
    match b {
      case 19 =>
      case 20 =>
      case 21 =>
      case 22 =>
      case 23 =>
      case 24 =>
    }
  }

  lemma CutoffEntries5(b: Radix)
    requires 25 <= b <= 30 && OddPart(b) != 1
    ensures CutoffEntry(b, MUL_LOG2_RADIX[b - 2])
  {
    PowersOfTwoOnly();
    hide OddPart;
    match b {
      case 25 =>
      case 26 =>
      case 27 =>
      case 28 =>
      case 29 =>
      case 30 =>
    }
  }

  lemma CutoffEntries6(b: Radix)
    requires 31 <= b <= 36 && OddPart(b) != 1
    ensures CutoffEntry(b, MUL_LOG2_RADIX[b - 2])
  {
    PowersOfTwoOnly();
    hide OddPart;
    match b {
      case 31 =>
      case 32 =>
      case 33 =>
      case 34 =>
      case 35 =>
      case 36 =>
    }
  }

  lemma CutoffEntries(b: Radix)
    requires OddPart(b) != 1
    ensures CutoffEntry(b, MUL_LOG2_RADIX[b - 2])
  {
    hide CutoffEntry, OddPart, MUL_LOG2_RADIX;
    if b <= 7 {
      CutoffEntries1(b);
    } else if b <= 12 {
      CutoffEntries2(b);
    } else if b <= 18 {
      CutoffEntries3(b);
    } else if b <= 24 {
      CutoffEntries4(b);
    } else if b <= 30 {
      CutoffEntries5(b);
    } else {
      CutoffEntries6(b);
    }
  }

  /** What max_exponent and min_exponent guarantee. */
  lemma CutoffPowers(b: Radix)
    ensures RPow(b, MaxExponent(b)) >= Exp2(1024)
    ensures Exp2(-1084) <= RPow(b, MinExponent(b)) <= Exp2(-1075) && MinExponent(b) < 0
  {
    if OddPart(b) == 1 {
      BinaryCutoffs(b);
    } else {
      var m := MUL_LOG2_RADIX[b - 2];
      TableEntry(b);
      CutoffEntries(b);
      TableCutoffs(b, m);
    }
  }

  lemma TableCutoffs(b: Radix, m: nat)
    requires Entry(b, m) && CutoffEntry(b, m)
    ensures RPow(b, MaxExponent(b)) >= Exp2(1024)
    ensures Exp2(-1084) <= RPow(b, MinExponent(b)) <= Exp2(-1075) && MinExponent(b) < 0
  {
    hide RPow, Exp2, Entry, MaxExponent, MinExponent;
    TableBracket(b, 1024, m, 1024 * m / LOG_BASE);
    TableBracket(b, -1075, m, -1075 * m / LOG_BASE);
    TableBracket(b, -1084, m, -1084 * m / LOG_BASE);
    RPowMonotone(b, 1024 * m / LOG_BASE + 1, MaxExponent(b));
    RPowMonotone(b, MinExponent(b), -1075 * m / LOG_BASE);
    RPowMonotone(b, -1084 * m / LOG_BASE + 1, MinExponent(b));
  }

  lemma BinaryCutoffs(b: Radix)
    requires OddPart(b) == 1
    ensures RPow(b, MaxExponent(b)) >= Exp2(1024)
    ensures Exp2(-1084) <= RPow(b, MinExponent(b)) <= Exp2(-1075) && MinExponent(b) < 0
  {
    PowerRadix(b);
    var s := Ctz32(b);
    BinaryCutoffEntries(b, s);
    hide RPow, Exp2, Pow2, Ctz32, MaxExponent, MinExponent;
    PowerOfTwoPower(b, s, MaxExponent(b), s * MaxExponent(b));
    PowerOfTwoPower(b, s, MinExponent(b), s * MinExponent(b));
    Exp2Monotone(1024, s * MaxExponent(b));
    Exp2Monotone(s * MinExponent(b), -1075);
    Exp2Monotone(-1084, s * MinExponent(b));
  }

  lemma BinaryCutoffEntries(b: Radix, s: nat)
    requires b == Pow2(s) && 1 <= s <= 5
    ensures s * MaxExponent(b) >= 1024 && -1084 <= s * MinExponent(b) <= -1075 && MinExponent(b) < 0
  {
    SmallPowers();
    hide Pow2;
    match s {
      case 1 => assert MaxExponent(2) == 1024 && MinExponent(2) == -1075;
      case 2 => assert MaxExponent(4) == 512 && MinExponent(4) == -538;
      case 3 => assert MaxExponent(8) == 342 && MinExponent(8) == -359;
      case 4 => assert MaxExponent(16) == 256 && MinExponent(16) == -269;
      case 5 => assert MaxExponent(32) == 205 && MinExponent(32) == -215;
    }
  }
}
