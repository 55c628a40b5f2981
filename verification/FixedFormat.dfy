/** The fixed format of js_dtoa (toPrecision, toExponential): the number rounded
    to n significant digits, half away from zero. */
module FixedFormat {
  import opened PowersOfTwo
  import opened Rounding
  import opened Binary64
  import opened StickyBits
  import opened Limbs
  import opened RadixPowers
  import opened RadixTables
  import opened Bignum
  import opened RadixScaling
  import opened RadixReals
  import opened RadixLogarithm
  import opened DigitSearch
  import opened Atod
  import opened FreeFormatSearch
  import opened FractionFormat

  const MANT_LEN_MAX: nat := 18

  /** The n digits of x at exponent d: x * b^(n - d), rounded half away. */
  ghost predicate FixedCandidate(x: real, b: Radix, n: nat, d: int, k: nat) {
    RoundsToInteger(Product(x, RPow(b, n - d)), k, NearAway)
  }

  /** k has exactly n digits, and d is the estimated exponent d0 unless rounding
      there carried to k0, which has more. */
  ghost predicate IsFixed(x: real, b: Radix, n: nat, d0: int, d: int, k: nat, k0: nat) {
    && FixedCandidate(x, b, n, d, k) && n > 0 && Pow(b, n - 1) <= k < Pow(b, n)
    && (d == d0 || (d == d0 + 1 && FixedCandidate(x, b, n, d0, k0) && k0 >= Pow(b, n)))
  }

  // ----- nothing with n digits is closer -----

  ghost function Apart(x: real, y: real): real {
    if x < y then y - x else x - y
  }

  /** y approximates v at least as well as z does, and wins ties from above. */
  ghost predicate Beats(v: real, y: real, z: real) {
    Apart(y, v) <= Apart(z, v) && (Apart(y, v) == Apart(z, v) ==> z <= y)
  }

  /** Of the integers the rounded one is closest. */
  lemma IntegerBeats(v: real, k: nat, j: nat)
    requires RoundsToInteger(v, k, NearAway)
    ensures Beats(v, k as real, j as real)
  {
    assert k as real - 0.5 <= v < k as real + 0.5;
    hide RoundsToInteger;
    if j < k {
      assert j as real <= k as real - 1.0;
    } else if j > k {
      assert j as real >= k as real + 1.0;
    }
  }

  /** What lies below an integer that is at most v is farther than it. */
  lemma BelowBeats(v: real, k: nat, q: nat, z: real)
    requires RoundsToInteger(v, k, NearAway) && z < q as real <= v
    ensures Beats(v, k as real, z)
  {
    IntegerBeats(v, k, q);
  }

  /** After a carry: v0 = b * v rounds to at least p = b * q, and z is at most
      (p - 1) / b. */
  lemma CarryBeats(b: Radix, v: real, v0: real, k: nat, k0: nat, q: nat, p: nat, z: real, z0: real)
    requires RoundsToInteger(v, k, NearAway) && RoundsToInteger(v0, k0, NearAway) && k0 >= p && k >= q
    requires v0 == Product(b as real, v) && z0 == Product(b as real, z) && p == b * q && z0 <= (p - 1) as real
    ensures Beats(v, k as real, z)
  {
    CastProduct(b, q);
    assert Product(b as real, q as real) == p as real;
    IntegerBeats(v, k, q);
    if v < q as real {
      CarryApart(b as real, v, v0, q as real, p as real, z, z0);
    } else {
      assert z < q as real by {
        hide RoundsToInteger;
        ProductMonoLeft(z, q as real, b as real);
      }
    }
  }

  lemma ProductMonoLeft(a: real, c: real, p: real)
    requires p > 0.0
    ensures a < c <==> Product(p, a) < Product(p, c)
    ensures a <= c <==> Product(p, a) <= Product(p, c)
  {
    ProductAssoc(a, p, 1.0);
    ProductAssoc(c, p, 1.0);
    hide Product;
    ProductMono(a, c, p);
  }

  lemma CarryApart(c: real, v: real, v0: real, q: real, p: real, z: real, z0: real)
    requires c >= 2.0 && v0 == Product(c, v) && z0 == Product(c, z) && p == Product(c, q)
    requires v < q && 2.0 * v0 >= 2.0 * p - 1.0 && z0 <= p - 1.0
    ensures z < v && q - v <= v - z
  {
    ProductSum(q, v, c);
    ProductSum(v, z, c);
    SwapProducts(c, v, z, q);
    var s, t := q - v, v - z;
    assert Product(s, c) <= 0.5 <= Product(t, c);
    ProductUnit(c);
    hide Product;
    ProductMono(s, t, c);
    ProductMono(t, 0.0, c);
  }

  lemma SwapProducts(c: real, v: real, z: real, q: real)
    ensures Product(c, v) == Product(v, c) && Product(c, z) == Product(z, c) && Product(c, q) == Product(q, c)
  {
  }

  /** Scaling keeps comparisons of distances. */
  lemma BeatsScaled(x: real, y: real, z: real, g: real)
    requires g > 0.0 && Beats(Product(x, g), Product(y, g), Product(z, g))
    ensures Beats(x, y, z)
  {
    ApartScaled(y, x, g);
    ApartScaled(z, x, g);
    hide Product;
    ProductMono(Apart(y, x), Apart(z, x), g);
    ProductMono(Apart(z, x), Apart(y, x), g);
    ProductMono(z, y, g);
  }

  lemma ApartScaled(y: real, x: real, g: real)
    requires g > 0.0
    ensures Apart(Product(y, g), Product(x, g)) == Product(Apart(y, x), g)
  {
    ProductSum(y, x, g);
    ProductSum(x, y, g);
    hide Product;
    ProductMono(y, x, g);
    ProductMono(x, y, g);
  }

  /** Of all numbers with at most n digits, at any exponent, the printed one is
      closest to x; between two equally close ones it is the larger. */
  lemma FixedIsNearest(x: real, b: Radix, n: nat, d0: int, d: int, k: nat, k0: nat, j: nat, c: int)
    requires IsFixed(x, b, n, d0, d, k, k0) && x >= RPow(b, d0 - 1) && j < Pow(b, n)
    ensures Beats(x, RadixValue(k as real, b, d - n), RadixValue(j as real, b, c - n))
  {
    hide *;
    var g := RPow(b, n - d);
    var y, z := RadixValue(k as real, b, d - n), RadixValue(j as real, b, c - n);
    FixedParts(x, b, n, d0, d, k, k0);
    Rescaled(k, b, d - n, n - d);
    RPowNat(b, 0);
    PowZero(b);
    ProductUnit(k as real);
    assert Product(y, g) == k as real;
    Rescaled(j, b, c - n, n - d);
    if c >= d {
      WholeUnits(j, b, c - d);
      assert c - n + (n - d) == c - d;
      IntegerBeats(Product(x, g), k, j * Pow(b, c - d));
    } else if d == d0 {
      SmallDigits(j, b, n, c, d);
      ScaledBounds(x, b, n, d, d - 1);
      RPowNat(b, n - 1);
      assert d - 1 + n - d == n - 1;
      BelowBeats(Product(x, g), k, Pow(b, n - 1), Product(z, g));
    } else {
      CarriedBeats(x, b, n, d0, d, k, k0, j, c);
    }
    BeatsScaled(x, y, z, g);
  }

  lemma FixedParts(x: real, b: Radix, n: nat, d0: int, d: int, k: nat, k0: nat)
    requires IsFixed(x, b, n, d0, d, k, k0)
    ensures RoundsToInteger(Product(x, RPow(b, n - d)), k, NearAway) && n > 0 && Pow(b, n - 1) <= k < Pow(b, n)
    ensures d == d0 || d == d0 + 1
    ensures d != d0 ==> d == d0 + 1 && RoundsToInteger(Product(x, RPow(b, n - d0)), k0, NearAway) && k0 >= Pow(b, n)
  {
  }

  lemma WholeUnits(j: nat, b: Radix, f: nat)
    ensures Product(j as real, RPow(b, f)) == (j * Pow(b, f)) as real
  {
    RPowNat(b, f);
    hide Pow, RPow;
    CastProduct(j, Pow(b, f));
  }

  lemma Rescaled(k: nat, b: Radix, f: int, g: int)
    ensures Product(RadixValue(k as real, b, f), RPow(b, g)) == Product(k as real, RPow(b, f + g))
  {
    RPowAdd(b, f, g);
    RadixScaledProduct(RadixValue(k as real, b, f), k as real, b, f);
    hide RPow, RadixValue;
    ProductAssoc(k as real, RPow(b, f), RPow(b, g));
  }

  /** At a smaller exponent n digits stay below b^(n - 1) units. */
  lemma SmallDigits(j: nat, b: Radix, n: nat, c: int, d: int)
    requires j < Pow(b, n) && c < d && n > 0
    ensures Product(RadixValue(j as real, b, c - n), RPow(b, n - d)) < Pow(b, n - 1) as real
  {
    hide *;
    Rescaled(j, b, c - n, n - d);
    assert c - n + (n - d) == c - d;
    RPowNat(b, n);
    RPowNat(b, n - 1);
    ProductMono(j as real, RPow(b, n), RPow(b, c - d));
    RPowAdd(b, n, c - d);
    RPowMonotone(b, n + (c - d), n - 1);
  }

  lemma CarriedBeats(x: real, b: Radix, n: nat, d0: int, d: int, k: nat, k0: nat, j: nat, c: int)
    requires IsFixed(x, b, n, d0, d, k, k0) && d == d0 + 1 && j < Pow(b, n) && c < d
    ensures Beats(Product(x, RPow(b, n - d)), k as real, Product(RadixValue(j as real, b, c - n), RPow(b, n - d)))
  {
    hide *;
    FixedParts(x, b, n, d0, d, k, k0);
    var z := RadixValue(j as real, b, c - n);
    var v, v0 := Product(x, RPow(b, n - d)), Product(x, RPow(b, n - d0));
    var w, w0 := Product(z, RPow(b, n - d)), Product(z, RPow(b, n - d0));
    assert n - d0 == n - d + 1;
    LargerByRadix(x, b, n - d);
    LargerByRadix(z, b, n - d);
    PowSucc(b, n - 1);
    AtMostBelow(j, b, n, c, d0);
    CarryBeats(b, v, v0, k, k0, Pow(b, n - 1), Pow(b, n), w, w0);
  }

  lemma LargerByRadix(x: real, b: Radix, f: int)
    ensures Product(x, RPow(b, f + 1)) == Product(b as real, Product(x, RPow(b, f)))
  {
    hide *;
    RPowSucc(b, f);
    ProductAssoc(x, b as real, RPow(b, f));
    ProductAssoc(b as real, x, RPow(b, f));
  }

  /** At most the largest n-digit number in units of exponent d0. */
  lemma AtMostBelow(j: nat, b: Radix, n: nat, c: int, d0: int)
    requires j < Pow(b, n) && c <= d0 && n > 0
    ensures Product(RadixValue(j as real, b, c - n), RPow(b, n - d0)) <= (Pow(b, n) - 1) as real
  {
    hide *;
    if c == d0 {
      Rescaled(j, b, c - n, n - d0);
      assert c - n + (n - d0) == 0;
      RPowNat(b, 0);
      PowZero(b);
      ProductUnit(j as real);
    } else {
      SmallDigits(j, b, n, c, d0);
      PowSucc(b, n - 1);
      PowPositive(b, n - 1);
      MulLower(2, b, Pow(b, n - 1), Pow(b, n - 1));
    }
  }

  // ----- the exponent that is printed -----

  lemma AwayBounds(v: real, k: nat)
    requires RoundsToInteger(v, k, NearAway)
    ensures k as real - 0.5 <= v < k as real + 0.5
  {
  }

  /** The printed exponent exceeds t exactly when x, rounded half away to n
      digits at t, needs one more. */
  lemma FixedReach(x: real, b: Radix, n: nat, d0: int, d: int, k: nat, k0: nat, t: int)
    requires IsFixed(x, b, n, d0, d, k, k0) && x >= RPow(b, d0 - 1)
    ensures d > t <==> Product(x, RPow(b, n - t)) >= Pow(b, n) as real - 0.5
  {
    hide *;
    FixedParts(x, b, n, d0, d, k, k0);
    if d <= t {
      AwayBounds(Product(x, RPow(b, n - d)), k);
      assert k as real <= Pow(b, n) as real - 1.0;
      ProductGrows(x, b, n - t, n - d);
    } else if d == d0 {
      ScaledBounds(x, b, n, t, d0 - 1);
      RPowMonotone(b, n, d0 - 1 + n - t);
      RPowNat(b, n);
    } else {
      AwayBounds(Product(x, RPow(b, n - d0)), k0);
      ProductGrows(x, b, n - d0, n - t);
    }
  }

  lemma ProductGrows(x: real, b: Radix, i: int, j: int)
    requires x > 0.0 && i <= j
    ensures Product(x, RPow(b, i)) <= Product(x, RPow(b, j))
  {
    hide *;
    RPowMonotone(b, i, j);
    ProductMonoLeft(RPow(b, i), RPow(b, j), x);
  }

  // ----- room -----

  /** Radix ten: js_dtoa offers the fixed format for no other. */
  lemma TenParts()
    ensures RadixSplit(10, 5, 1) && OddPart(10) == 5 && Ctz32(10) == 1 && DigitsPerLimb(5) == 13
  {
    SmallPowers();
    hide Pow2;
  }

  lemma TenExponents()
    ensures MinExponent(10) >= -350 && MaxExponent(10) <= 310
  {
  }

  lemma TenPower(n: nat)
    requires n <= JS_DTOA_MAX_DIGITS
    ensures Pow(10, n) <= Pow2(404)
  {
    PowOfPow2(4, n);
    SmallPowers();
    hide Pow, Pow2;
    PowBaseMonotone(10, 16, n);
    Pow2Monotone(4 * n, 404);
  }

  /** The scaled significand stays below the n digits it is rounded to. */
  lemma FixedShift(n: nat, d0: int, d: int, e: int)
    requires LogBracket(10, e, d0) && d0 <= d && n - d >= 0 && n <= JS_DTOA_MAX_DIGITS
    ensures e - 1 + (n - d) <= 404
  {
    hide *;
    TenParts();
    TwosInPower(10, 5, 1, n - d, n - d);
    BracketUpper(10, e, d0);
    TenPower(n);
    RPowNat(10, n);
    Exp2Nat(404);
    ExponentBelow(10, e, d0, n - d, n - d, n, 404);
  }

  /** No bignum of the fixed format exceeds DBIGNUM_LEN_MAX limbs. */
  lemma FixedRoom(n: nat, d0: int, d: int, e: int)
    requires LogBracket(10, e, d0) && d0 <= d <= d0 + 1 && n <= JS_DTOA_MAX_DIGITS && -1073 <= e <= 1024
    ensures RoundLimbs(5, 1, n - d, e - 53) <= DBIGNUM_LEN_MAX
  {
    ExponentRange(10, e, d0);
    TenExponents();
    TenParts();
    TableWidths(5);
    if n - d >= 0 {
      FixedShift(n, d0, d, e);
      hide DigitsPerLimb, Groups, MinExponent, MaxExponent, LogBracket;
      GroupsAtMost(n - d, 36, 13);
    } else {
      hide DigitsPerLimb, Groups, MinExponent, MaxExponent, LogBracket;
      GroupsAtMost(d - n, 24, 13);
    }
  }

  // ----- the loop -----

  /** mant_max = 10^n, built by mul_pow and a shift. */
  method FixedLimit(n: nat) returns (a: Mpb)
    requires n <= JS_DTOA_MAX_DIGITS
    ensures fresh(a) && fresh(a.tab) && a.Valid() && a.Normal() && a.V() == Pow(10, n)
  {
    assert 1 < BASE * BASE && MANT_LEN_MAX == 18;
    hide *;
    TenParts();
    a := new Mpb(MANT_LEN_MAX);
    a.SetU64(1);
    PowPositive(10, n);
    ghost var x := Pow(10, n) as real;
    LimitStart(x, n);
    LimitRoom(n);
    var shift := MulPow(a, 5, 1, n, false, 0, 10, x);
    LimitValue(x, n, a.V());
    a.ShrRound(shift, RNDZ);
  }

  lemma LimitStart(x: real, n: nat)
    requires x == Pow(10, n) as real
    ensures RadixScaled(x, 1 as real, 10, n)
  {
    hide Pow;
  }

  lemma LimitRoom(n: nat)
    requires n <= JS_DTOA_MAX_DIGITS
    ensures ExtraLimbs(5, 1, n, false, 0) <= 8 && n / 32 <= 3
  {
    TenParts();
    TableWidths(5);
    hide DigitsPerLimb, Groups;
    GroupsAtMost(n, 8, 13);
  }

  lemma LimitValue(x: real, n: nat, v: nat)
    requires x == Pow(10, n) as real && Agree(ScaleBy(x, 0 - n), v, 1)
    ensures v * Pow2(n) == Pow(10, n)
  {
    Exp2Nat(n);
    AgreeAtMultiple(ScaleBy(x, 0 - n), v, 1);
    hide Pow, Pow2, Exp2, IsScaled, ScaleBy;
    var w := ScaleBy(x, 0 - n);
    ScaleInverse(w, x, 0 - n);
    IsScaledElim(x, w, n);
    CastProduct(v, Pow2(n));
  }

  /** The n-digit candidate at exponent d, as mul_pow_round computes it. */
  method ComputeFixed(tmp: Mpb, m: nat, e: int, n: nat, d: int, ghost d0: int)
    requires tmp.Valid() && tmp.tab.Length == DBIGNUM_LEN_MAX && P52 <= m < P53 && -1073 <= e <= 1024
    requires LogBracket(10, e, d0) && d0 <= d <= d0 + 1 && n <= JS_DTOA_MAX_DIGITS
    modifies tmp, tmp.tab
    ensures tmp.Valid() && tmp.Normal() && FixedCandidate(PartsValue(m, e), 10, n, d, tmp.V())
  {
    hide *;
    TenParts();
    FixedRoom(n, d0, d, e);
    SignificandFits(m);
    ghost var y := RadixValue(m as real, 10, n - d);
    MulPowRound(tmp, m, e - 53, 5, 1, n - d, RNDNA, 10, y, ScaleBy(y, e - 53));
    CandidateValue(m, e, 10, n - d);
    AwayDirection();
    FixedIntro(PartsValue(m, e), n, d, tmp.V());
  }

  lemma FixedIntro(x: real, n: nat, d: int, k: nat)
    requires RoundsToInteger(Product(x, RPow(10, n - d)), k, NearAway)
    ensures FixedCandidate(x, 10, n, d, k)
  {
  }

  lemma FixedRange(x: real, m: nat, e: int, n: nat, d0: int, d: int, k: nat, k0: nat)
    requires P52 <= m < P53 && x == PartsValue(m, e) && LogBracket(10, e, d0) && n > 0
    requires FixedCandidate(x, 10, n, d, k) && d0 <= d <= d0 + 1
    requires d == d0 + 1 ==> FixedCandidate(x, 10, n, d0, k0) && k0 >= Pow(10, n)
    ensures Pow(10, n - 1) <= k && (d == d0 + 1 ==> k < Pow(10, n))
    ensures k < Pow(10, n) ==> IsFixed(x, 10, n, d0, d, k, k0)
  {
    RoundsWithinHalf(Product(x, RPow(10, n - d)), k, NearAway);
    hide Pow, RPow, LogBracket, PartsValue, WithinHalf, Product;
    if d == d0 {
      FirstCandidate(x, m, e, 10, n, d, k);
    } else {
      RoundsWithinHalf(Product(x, RPow(10, n - d0)), k0, NearAway);
      SecondCandidate(x, m, e, 10, n, d0, k0, k);
    }
  }

  /** The fixed-format loop: the exponent is raised at most once. */
  method FixedMantissa(tmp: Mpb, mantMax: Mpb, m: nat, e: int, n: nat, d0: int) returns (d: int, ghost k0: nat)
    requires tmp.Valid() && tmp.tab.Length == DBIGNUM_LEN_MAX && P52 <= m < P53 && -1073 <= e <= 1024
    requires mantMax.Valid() && mantMax.Normal() && mantMax.V() == Pow(10, n)
    requires tmp != mantMax && tmp.tab != mantMax.tab
    requires LogBracket(10, e, d0) && 0 < n <= JS_DTOA_MAX_DIGITS
    modifies tmp, tmp.tab
    ensures tmp.Valid() && tmp.Normal() && IsFixed(PartsValue(m, e), 10, n, d0, d, tmp.V(), k0)
  {
    hide *;
    ghost var x := PartsValue(m, e);
    d := d0;
    k0 := 0;
    while true
      invariant tmp.Valid() && d0 <= d <= d0 + 1
      invariant d == d0 + 1 ==> FixedCandidate(x, 10, n, d0, k0) && k0 >= Pow(10, n)
      decreases d0 + 1 - d
    {
      ComputeFixed(tmp, m, e, n, d, d0);
      FixedRange(x, m, e, n, d0, d, tmp.V(), k0);
      var c := tmp.Cmp(mantMax);
      if c < 0 {
        break;
      }
      k0 := tmp.V();
      d := d + 1;
    }
  }
}
