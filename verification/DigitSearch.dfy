/** Why the digits that js_dtoa prints in free format identify the number: the
    spacing of binary64 numbers against that of P-digit numbers. */
module DigitSearch {
  import opened PowersOfTwo
  import opened Rounding
  import opened Binary64
  import opened RadixPowers
  import opened RadixTables
  import opened RadixReals
  import opened RadixLogarithm
  import opened DoubleRounding

  /** u is nonzero and finite, and m * 2^(e - 53) with a full significand m. */
  ghost predicate Parts(u: Bits, m: nat, e: int) {
    IsFinite(u) && P52 <= m < P53 && Denotes(m, e, Magnitude(u)) && -1073 <= e <= 1024
  }

  /** The value of m * 2^(e - 53). */
  ghost function PartsValue(m: nat, e: int): real {
    ScaleBy(m as real, e - 53)
  }

  /** k is the P-digit candidate at decimal exponent E: x * b^(P - E), rounded. */
  ghost predicate Candidate(x: real, b: Radix, p: nat, d: int, k: nat) {
    RoundsToInteger(Product(x, RPow(b, p - d)), k, NearEven)
  }

  /** mant * b^f, in units, rounds to u. */
  ghost predicate RoundsBack(mant: nat, b: Radix, f: int, u: Bits) {
    Rounds(ScaleBy(RadixValue(mant as real, b, f), 1074), Magnitude(u), NearEven)
  }

  lemma DenotesScaled(m: nat, e: int, y: nat)
    requires Denotes(m, e, y) && m > 0
    ensures IsScaled(y as real, m as real, e + 1021)
  {
    hide Exp2, Pow2;
    if e >= -1021 {
      CastProduct(m, Pow2(e + 1021));
      ScaleNatOf(y as real, m as real, e + 1021);
    } else {
      CastProduct(y, Pow2(-1021 - e));
      ScaleNatOf(m as real, y as real, -1021 - e);
      ScaleInverse(m as real, y as real, -1021 - e);
    }
  }

  /** The magnitude is the value in units. */
  lemma PartsUnits(u: Bits, m: nat, e: int)
    requires Parts(u, m, e)
    ensures Magnitude(u) as real == ScaleBy(PartsValue(m, e), 1074)
  {
    hide Exp2, Pow2, Magnitude, IsScaled, ScaleBy;
    DenotesScaled(m, e, Magnitude(u));
    var x := PartsValue(m, e);
    ScaleTrans(ScaleBy(x, 1074), x, m as real, 1074, e - 53);
    ScaleOrder(Magnitude(u) as real, ScaleBy(x, 1074), m as real, m as real, e + 1021);
  }

  lemma PartsBounds(m: nat, e: int)
    requires P52 <= m < P53
    ensures Exp2(e - 1) <= PartsValue(m, e) <= Exp2(e) - Exp2(e - 53)
    ensures m == P52 ==> PartsValue(m, e) == Exp2(e - 1)
  {
    assert P52 == 0x10_0000_0000_0000 && P53 == 0x20_0000_0000_0000;
    hide *;
    PartsProduct(m, e);
    TopPowers(e);
    var g := Exp2(e - 53);
    SignificandBounds(m, g);
  }

  lemma PartsProduct(m: nat, e: int)
    ensures PartsValue(m, e) == Product(m as real, Exp2(e - 53))
  {
    IsScaledElim(PartsValue(m, e), m as real, e - 53);
    hide Exp2, ScaleBy;
  }

  lemma TopPowers(e: int)
    ensures Exp2(e - 1) == Product(0x10_0000_0000_0000 as real, Exp2(e - 53))
    ensures Exp2(e) == Product(0x20_0000_0000_0000 as real, Exp2(e - 53))
  {
    Pow2Values();
    Exp2Nat(52);
    Exp2Nat(53);
    Exp2Add(52, e - 53);
    Exp2Add(53, e - 53);
    hide Exp2, Pow2;
  }

  lemma SignificandBounds(m: nat, g: real)
    requires 0x10_0000_0000_0000 <= m < 0x20_0000_0000_0000 && g > 0.0
    ensures Product(0x10_0000_0000_0000 as real, g) <= Product(m as real, g)
    ensures Product(m as real, g) <= Product(0x20_0000_0000_0000 as real, g) - g
  {
    ProductSum(m as real, 1.0, g);
    ProductUnit(g);
    hide Product;
    ProductMono(0x10_0000_0000_0000 as real, m as real, g);
    ProductMono((m as real) + 1.0, 0x20_0000_0000_0000 as real, g);
  }

  // ----- candidates -----

  lemma ScaledBack(x: real, b: Radix, f: int)
    ensures Product(Product(x, RPow(b, f)), RPow(b, 0 - f)) == x
  {
    RPowAdd(b, f, 0 - f);
    RPowNat(b, 0);
    PowZero(b);
    hide *;
    ProductAssoc(x, RPow(b, f), RPow(b, 0 - f));
    ProductUnit(x);
  }

  lemma ScaledBounds(x: real, b: Radix, p: nat, d: int, t: int)
    ensures x >= RPow(b, t) <==> Product(x, RPow(b, p - d)) >= RPow(b, t + p - d)
    ensures x < RPow(b, t) <==> Product(x, RPow(b, p - d)) < RPow(b, t + p - d)
  {
    hide *;
    RPowAdd(b, t, p - d);
    ProductMono(RPow(b, t), x, RPow(b, p - d));
    ProductMono(x, RPow(b, t), RPow(b, p - d));
  }

  /** What rounding to nearest gives, whatever it does with ties. */
  ghost predicate WithinHalf(v: real, k: nat) {
    (2 * k - 1) as real <= 2.0 * v <= (2 * k + 1) as real
  }

  lemma RoundsWithinHalf(v: real, k: nat, d: Direction)
    requires RoundsToInteger(v, k, d) && (d == NearEven || d == NearAway)
    ensures WithinHalf(v, k)
  {
  }

  lemma CandidateWithinHalf(x: real, b: Radix, p: nat, d: int, k: nat)
    requires Candidate(x, b, p, d, k)
    ensures WithinHalf(Product(x, RPow(b, p - d)), k)
  {
    RoundsWithinHalf(Product(x, RPow(b, p - d)), k, NearEven);
  }

  lemma RoundsAtLeast(v: real, k: nat, n: nat)
    requires WithinHalf(v, k) && 2.0 * v > (2 * n - 1) as real
    ensures k >= n
  {
  }

  lemma RoundsAtMost(v: real, k: nat, n: nat)
    requires WithinHalf(v, k) && 2.0 * v < (2 * n + 1) as real
    ensures k <= n
  {
  }

  /** The candidate at the estimated exponent has P digits, or one more. */
  lemma FirstCandidate(x: real, m: nat, e: int, b: Radix, p: nat, d: int, k: nat)
    requires P52 <= m < P53 && x == PartsValue(m, e) && LogBracket(b, e, d) && p > 0
    requires WithinHalf(Product(x, RPow(b, p - d)), k)
    ensures Pow(b, p - 1) <= k <= 2 * Pow(b, p)
  {
    PartsBounds(m, e);
    Exp2Succ(e - 1);
    RPowNat(b, p - 1);
    RPowNat(b, p);
    var v := Product(x, RPow(b, p - d));
    ScaledBounds(x, b, p, d, d - 1);
    DoubledBound(x, b, p, d);
    assert Exp2(e - 53) > 0.0;
    hide Pow, Exp2, RPow, Product, PartsValue, WithinHalf;
    RoundsAtLeast(v, k, Pow(b, p - 1));
    RoundsAtMost(v, k, 2 * Pow(b, p));
  }

  lemma DoubledBound(x: real, b: Radix, p: nat, d: int)
    ensures x < 2.0 * RPow(b, d) ==> Product(x, RPow(b, p - d)) < 2.0 * RPow(b, p)
  {
    hide RPow, Product;
    RPowAdd(b, d, p - d);
    var r, s := RPow(b, d), RPow(b, p - d);
    ProductMono(x, 2.0 * r, s);
    ProductSum(r, r, s);
  }

  /** At the next exponent it has exactly P digits. */
  lemma SecondCandidate(x: real, m: nat, e: int, b: Radix, p: nat, d: int, k0: nat, k: nat)
    requires P52 <= m < P53 && x == PartsValue(m, e) && LogBracket(b, e, d) && p > 0
    requires WithinHalf(Product(x, RPow(b, p - d)), k0) && k0 >= Pow(b, p)
    requires WithinHalf(Product(x, RPow(b, p - (d + 1))), k)
    ensures Pow(b, p - 1) <= k < Pow(b, p)
  {
    var v0, v := Product(x, RPow(b, p - d)), Product(x, RPow(b, p - d - 1));
    assert p - (d + 1) == p - d - 1;
    SmallerByRadix(x, b, p, d, v0, v);
    PartsBounds(m, e);
    Exp2Succ(e - 1);
    DoubledBound(x, b, p, d);
    RPowNat(b, p);
    PowSucc(b, p - 1);
    PowPositive(b, p - 1);
    assert Exp2(e - 53) > 0.0;
    if b == 2 {
      BinaryBracket(e, d);
      ScaledBounds(x, b, p, d, d);
    }
    hide Pow, Exp2, RPow, Product, PartsValue, WithinHalf;
    SecondBounds(b, v0, v, k0, k, Pow(b, p - 1), Pow(b, p));
  }

  lemma SmallerByRadix(x: real, b: Radix, p: nat, d: int, v0: real, v: real)
    requires v0 == Product(x, RPow(b, p - d)) && v == Product(x, RPow(b, p - d - 1))
    ensures v0 == (b as real) * v
  {
    RPowSucc(b, p - d - 1);
    hide RPow;
    MulAssoc(x, b as real, RPow(b, p - d - 1));
    MulAssoc(b as real, x, RPow(b, p - d - 1));
  }

  /** For radix two the estimate is exact. */
  lemma BinaryBracket(e: int, d: int)
    requires LogBracket(2, e, d)
    ensures RPow(2, d) == Exp2(e)
  {
    TwoPower(d);
    TwoPower(d - 1);
    hide RPow, Exp2;
    if d < e {
      Exp2Monotone(d, e - 1);
    } else if d > e {
      Exp2Monotone(e, d - 1);
      Exp2Succ(e - 1);
    }
  }

  lemma TwoPower(d: int)
    ensures RPow(2, d) == Exp2(d)
  {
    var n: nat := if d < 0 then 0 - d else d;
    RPowNat(2, n);
    PowOfTwo(n);
    Exp2Nat(n);
    Exp2Inverse(n);
    assert Product(Exp2(0 - n), Exp2(n)) == 1.0;
    hide RPow, Pow, Pow2, Exp2, Product;
    if d < 0 {
      ProductCancel(RPow(2, d), Exp2(d), Exp2(n));
    }
  }

  lemma SecondBounds(b: Radix, v0: real, v: real, k0: nat, k: nat, q: nat, p: nat)
    requires v0 == (b as real) * v && WithinHalf(v0, k0) && WithinHalf(v, k)
    requires k0 >= p && p == b * q && q > 0 && v0 < 2.0 * (p as real) && (b == 2 ==> v0 < p as real)
    ensures q <= k < p
  {
    assert 2.0 * v0 >= (2 * p - 1) as real;
    hide WithinHalf;
    LargeQuotient(b, v0, v, q, p);
    RoundsAtLeast(v, k, q);
    SmallQuotient(b, v0, v, q, p);
    if b == 2 {
      RoundsAtMost(v, k, q);
    } else {
      RoundsAtMost(v, k, 2 * q);
      MulLower(3, b, q, q);
    }
  }

  lemma LargeQuotient(b: Radix, v0: real, v: real, q: nat, p: nat)
    requires v0 == (b as real) * v && p == b * q && 2.0 * v0 >= (2 * p - 1) as real
    ensures 2.0 * v > (2 * q - 1) as real
  {
    CastProduct(b, q);
    var c, w, y := b as real, 2.0 * v, (2 * q - 1) as real;
    assert c * y == 2.0 * (c * (q as real)) - c;
    assert c * w == 2.0 * v0;
    if w <= y {
      MulMono(w, y, c);
    }
  }

  lemma SmallQuotient(b: Radix, v0: real, v: real, q: nat, p: nat)
    requires v0 == (b as real) * v && p == b * q && q > 0 && v0 < 2.0 * (p as real)
    ensures 2.0 * v < (4 * q) as real && (b == 2 && v0 < p as real ==> 2.0 * v < (2 * q + 1) as real)
  {
    CastProduct(b, q);
    var c, y := b as real, 2.0 * (q as real);
    assert c * y == 2.0 * (c * (q as real));
    if v >= y {
      MulMono(y, v, c);
    }
  }

  // ----- the spacing of binary64 numbers -----

  /** y is the magnitude of m * 2^(e - 53): the distance to any other
      representable number, in halves of its spacing h. */
  ghost predicate Isolated(y: nat, m: nat, h: real) {
    && h > 0.0
    && (forall f: nat :: Representable(f) && f > y ==> f as real - y as real >= 2.0 * h)
    && (forall f: nat :: Representable(f) && f < y ==> y as real - f as real >= h)
    && (forall f: nat :: Representable(f) && f < y && (m != P52 || !EvenSignificand(y)) ==>
         y as real - f as real >= 2.0 * h)
  }

  lemma Spacing(u: Bits, m: nat, e: int)
    requires Parts(u, m, e)
    ensures Isolated(Magnitude(u), m, Exp2(e + 1020))
  {
    var y := Magnitude(u);
    Exp2Succ(e + 1020);
    hide Magnitude, Representable, EvenSignificand, Pow2, Exp2;
    if e >= -1021 {
      var k: nat := e + 1021;
      Exp2Nat(k);
      forall f: nat | Representable(f) && f > y
        ensures f as real - y as real >= 2.0 * Exp2(e + 1020)
      {
        GridGap(f, m, k);
      }
      forall f: nat | Representable(f) && f < y
        ensures y as real - f as real >= Exp2(e + 1020)
        ensures m != P52 || !EvenSignificand(y) ==> y as real - f as real >= 2.0 * Exp2(e + 1020)
      {
        GapBelow(f, y, m, k);
      }
    } else {
      SubnormalSpacing(e);
      forall f: nat | Representable(f) && f != y
        ensures f > y ==> f as real - y as real >= 2.0 * Exp2(e + 1020)
        ensures f < y ==> y as real - f as real >= 2.0 * Exp2(e + 1020)
      {
      }
    }
  }

  lemma SubnormalSpacing(e: int)
    requires e < -1021
    ensures 2.0 * Exp2(e + 1020) <= 1.0
  {
    Exp2Succ(e + 1020);
    Exp2Zero();
    hide Exp2;
    Exp2Monotone(e + 1021, 0);
  }

  lemma GapBelow(f: nat, y: nat, m: nat, k: nat)
    requires Representable(f) && P52 <= m < P53 && y == m * Pow2(k) && f < y
    ensures m != P52 || k == 0 ==> f + Pow2(k) <= y
    ensures m == P52 ==> EvenSignificand(y)
    ensures 2 * f + Pow2(k) <= 2 * y
  {
    hide Representable, EvenSignificand, Pow2;
    var g := Pow2(k);
    if m == P52 {
      GridEven(m, k);
    }
    if m != P52 || k == 0 {
      GridGap(f, m - 1, k);
      NextGridPoint(m - 1, g);
    } else {
      Pow2Succ(k - 1);
      GridGap(f, P53 - 1, k - 1);
      NextGridPoint(P53 - 1, Pow2(k - 1));
      assert P53 * Pow2(k - 1) == P52 * (2 * Pow2(k - 1));
    }
  }

  /** A number within half the smaller gap of an isolated one rounds to it. */
  lemma NearestByGap(c: real, y: nat, m: nat, h: real)
    requires Isolated(y, m, h) && Representable(y)
    requires
      || y as real - h / 2.0 <= c <= y as real + h / 2.0
      || (y as real - h < c < y as real + h && (m == P52 ==> c >= y as real))
    ensures Rounds(c, y, NearEven)
  {
    hide Representable, EvenSignificand;
    forall f: nat | Representable(f)
      ensures Distance(c, y) <= Distance(c, f)
      ensures f != y && Distance(c, f) == Distance(c, y) ==> EvenSignificand(y)
    {
      if f > y {
        assert f as real - y as real >= 2.0 * h;
      } else if f < y {
        assert y as real - f as real >= h;
      }
    }
  }

  // ----- the first candidate is close enough -----

  /** The spacing of P-digit numbers at exponent d, in units. */
  ghost function DigitUnit(b: Radix, f: int): real {
    ScaleBy(RPow(b, f), 1074)
  }

  /** The candidate and the number, both in digit units. */
  lemma CandidateUnits(x: real, b: Radix, f: int, k: nat)
    ensures ScaleBy(RadixValue(k as real, b, f), 1074) == Product(k as real, DigitUnit(b, f))
    ensures ScaleBy(x, 1074) == Product(Product(x, RPow(b, 0 - f)), DigitUnit(b, f))
    ensures DigitUnit(b, f) > 0.0
  {
    ScaledBack(x, b, 0 - f);
    hide *;
    RadixScaledProduct(RadixValue(k as real, b, f), k as real, b, f);
    ScaleFactor(k as real, RPow(b, f));
    ScaleFactor(Product(x, RPow(b, 0 - f)), RPow(b, f));
    UnitFactor(b, f);
  }

  lemma ScaleFactor(v: real, r: real)
    ensures ScaleBy(Product(v, r), 1074) == Product(v, ScaleBy(r, 1074))
  {
    IsScaledElim(ScaleBy(Product(v, r), 1074), Product(v, r), 1074);
    IsScaledElim(ScaleBy(r, 1074), r, 1074);
    hide Exp2, ScaleBy;
    MulAssoc(v, r, Exp2(1074));
  }

  lemma UnitFactor(b: Radix, f: int)
    ensures DigitUnit(b, f) == ScaleBy(RPow(b, f), 1074) && DigitUnit(b, f) > 0.0
  {
    IsScaledElim(DigitUnit(b, f), RPow(b, f), 1074);
    hide Exp2, RPow;
    MulStrict(0.0, RPow(b, f), Exp2(1074));
  }

  /** Rounding moves a number by at most half a digit unit. */
  lemma CandidateError(v: real, k: nat, g: real)
    requires RoundsToInteger(v, k, NearEven) && g > 0.0
    ensures Product(v, g) - g / 2.0 <= Product(k as real, g) <= Product(v, g) + g / 2.0
    ensures k as real >= v ==> Product(k as real, g) >= Product(v, g)
  {
    ProductSum(v, 0.5, g);
    assert Product(0.5, g) == g / 2.0;
    hide Product;
    ProductMono(v - 0.5, k as real, g);
    ProductMono(k as real, v + 0.5, g);
    ProductMono(v, k as real, g);
  }

  /** Enough digits: at the estimated exponent a digit unit is at most half the
      spacing of binary64 numbers. */
  lemma DigitUnitSmall(b: Radix, e: int, d: int, p: nat)
    requires LogBracket(b, e, d) && p > 0 && Pow(b, p - 1) >= P53
    ensures RPow(b, d - p) <= Exp2(e - 54)
  {
    RPowAdd(b, d - p, p - 1);
    RPowNat(b, p - 1);
    TopPowers(e - 1);
    hide Pow, RPow, Exp2, Product;
    ScaleDown(RPow(b, d - p), RPow(b, p - 1), RPow(b, d - 1), Exp2(e - 54), Exp2(e - 1));
  }

  lemma ScaleDown(r: real, s: real, rs: real, g: real, t: real)
    requires rs == Product(r, s) && s >= 0x20_0000_0000_0000 as real && t == Product(0x20_0000_0000_0000 as real, g)
    requires r > 0.0 && g > 0.0
    ensures rs <= t ==> r <= g
    ensures rs < t ==> r < g
  {
    var c := 0x20_0000_0000_0000 as real;
    ProductAssoc(r, s, c);
    ProductAssoc(r, c, s);
    ProductAssoc(c, g, 1.0);
    hide Product;
    ProductMono(c, s, r);
    ProductMono(r, g, c);
    ProductMono(g, r, c);
  }

  lemma NextDigitUnitSmall(b: Radix, e: int, d: int, p: nat)
    requires RPow(b, d) < Exp2(e) && p > 0 && Pow(b, p - 1) >= P53
    ensures RPow(b, d + 1 - p) < Exp2(e - 53)
  {
    RPowAdd(b, d + 1 - p, p - 1);
    RPowNat(b, p - 1);
    TopPowers(e);
    hide Pow, RPow, Exp2, Product;
    ScaleDown(RPow(b, d + 1 - p), RPow(b, p - 1), RPow(b, d), Exp2(e - 53), Exp2(e));
  }

  /** The exponent only moves up when the power of the radix lies below 2^e. */
  lemma CarryMeansBelow(x: real, m: nat, e: int, b: Radix, p: nat, d: int, k0: nat)
    requires P52 <= m < P53 && x == PartsValue(m, e) && LogBracket(b, e, d) && p > 0 && Pow(b, p - 1) >= P53
    requires Candidate(x, b, p, d, k0) && k0 >= Pow(b, p)
    ensures RPow(b, d) < Exp2(e)
  {
    PartsBounds(m, e);
    DigitUnitSmall(b, e, d, p);
    ScaledBack(x, b, p - d);
    RPowAdd(b, p, d - p);
    RPowNat(b, p);
    Exp2Succ(e - 54);
    hide Pow, RPow, Exp2, PartsValue, LogBracket;
    CarryBound(Product(x, RPow(b, p - d)), k0, Pow(b, p), RPow(b, d - p), x, RPow(b, d));
  }

  lemma CarryBound(v: real, k: nat, p: nat, g: real, x: real, t: real)
    requires RoundsToInteger(v, k, NearEven) && k >= p && g > 0.0
    requires Product(v, g) == x && Product(p as real, g) == t
    ensures t - g / 2.0 <= x
  {
    ProductSum(p as real, 0.5, g);
    assert Product(0.5, g) == g / 2.0;
    hide Product;
    ProductMono((p as real) - 0.5, v, g);
  }

  /** The first candidate, of dtoa_max_digits digits, needs no check: it rounds
      back to the number. */
  lemma FirstCandidateRoundsBack(u: Bits, m: nat, e: int, b: Radix, p: nat, d: int, k: nat)
    requires Parts(u, m, e) && LogBracket(b, e, d) && p > 0 && Pow(b, p - 1) >= P53
    requires Candidate(PartsValue(m, e), b, p, d, k)
    ensures RoundsBack(k, b, d - p, u)
  {
    var x, f := PartsValue(m, e), d - p;
    hide Pow, RPow, Exp2, PartsValue, Isolated, Magnitude, Product, RadixValue, DigitUnit, ScaleBy;
    CandidateUnits(x, b, f, k);
    CandidateError(Product(x, RPow(b, p - d)), k, DigitUnit(b, f));
    PartsUnits(u, m, e);
    Spacing(u, m, e);
    MagnitudeRepresentable(u);
    DigitUnitSmall(b, e, d, p);
    UnitScale(b, f, e - 54);
    NearestByGap(ScaleBy(RadixValue(k as real, b, f), 1074), Magnitude(u), m, Exp2(e + 1020));
  }

  lemma UnitScale(b: Radix, f: int, e: int)
    ensures RPow(b, f) <= Exp2(e) ==> DigitUnit(b, f) <= Exp2(e + 1074)
    ensures RPow(b, f) < Exp2(e) ==> DigitUnit(b, f) < Exp2(e + 1074)
  {
    Exp2Add(e, 1074);
    hide *;
    UnitFactor(b, f);
    IsScaledIntro(Exp2(e + 1074), Exp2(e), 1074);
    ScaleOrder(DigitUnit(b, f), Exp2(e + 1074), RPow(b, f), Exp2(e), 1074);
    ScaleOrder(Exp2(e + 1074), DigitUnit(b, f), Exp2(e), RPow(b, f), 1074);
  }

  /** So does the candidate after the exponent had to be raised. */
  lemma SecondCandidateRoundsBack(u: Bits, m: nat, e: int, b: Radix, p: nat, d: int, k0: nat, k: nat)
    requires Parts(u, m, e) && LogBracket(b, e, d) && p > 0 && Pow(b, p - 1) >= P53
    requires Candidate(PartsValue(m, e), b, p, d, k0) && k0 >= Pow(b, p)
    requires Candidate(PartsValue(m, e), b, p, d + 1, k)
    ensures RoundsBack(k, b, d + 1 - p, u)
  {
    var x, f := PartsValue(m, e), d + 1 - p;
    hide Pow, RPow, Exp2, PartsValue, Isolated, Magnitude, Product, RadixValue, DigitUnit, ScaleBy;
    CandidateUnits(x, b, f, k);
    CandidateError(Product(x, RPow(b, p - d - 1)), k, DigitUnit(b, f));
    PartsUnits(u, m, e);
    Spacing(u, m, e);
    MagnitudeRepresentable(u);
    CarryMeansBelow(x, m, e, b, p, d, k0);
    NextDigitUnitSmall(b, e, d, p);
    UnitScale(b, f, e - 53);
    Exp2Succ(e + 1020);
    if m == P52 {
      PowerCandidateAbove(x, m, e, b, p, d, k0, k);
    }
    NearestByGap(ScaleBy(RadixValue(k as real, b, f), 1074), Magnitude(u), m, Exp2(e + 1020));
  }

  /** A power of two below a power of the radix is rounded up to it. */
  lemma PowerCandidateAbove(x: real, m: nat, e: int, b: Radix, p: nat, d: int, k0: nat, k: nat)
    requires m == P52 && x == PartsValue(m, e) && LogBracket(b, e, d) && p > 0
    requires Candidate(x, b, p, d, k0) && k0 >= Pow(b, p) && Candidate(x, b, p, d + 1, k)
    ensures k as real >= Product(x, RPow(b, p - d - 1))
  {
    hide Pow, RPow, Exp2, PartsValue, Product, Candidate, WithinHalf, LogBracket;
    CandidateWithinHalf(x, b, p, d, k0);
    CandidateWithinHalf(x, b, p, d + 1, k);
    SecondCandidate(x, m, e, b, p, d, k0, k);
    PowerBelow(x, m, e, b, d);
    ScaledBounds(x, b, p, d + 1, d);
    RPowNat(b, p - 1);
    assert d + p - (d + 1) == p - 1 && p - (d + 1) == p - d - 1;
  }

  lemma PowerBelow(x: real, m: nat, e: int, b: Radix, d: int)
    requires m == P52 && x == PartsValue(m, e) && LogBracket(b, e, d)
    ensures x < RPow(b, d)
  {
    PartsBounds(m, e);
    hide RPow, Exp2, PartsValue;
  }
}
