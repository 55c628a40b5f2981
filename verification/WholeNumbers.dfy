/** The fast path of js_dtoa for whole numbers below 2^53, against the search
    that it replaces. */
module WholeNumbers {
  import opened PowersOfTwo
  import opened Rounding
  import opened Binary64
  import opened StickyBits
  import opened RadixPowers
  import opened RadixTables
  import opened RadixScaling
  import opened RadixReals
  import opened RadixLogarithm
  import opened DigitSearch
  import opened FreeFormatSearch
  import opened Atod
  import opened DigitOutput
  import opened IntegerText
  import opened NumberLayout

  /** The parts m and e make the whole number v. */
  ghost predicate IsWhole(m: nat, e: int, v: nat) {
    1 <= e <= 53 && m == v * Pow2(53 - e)
  }

  lemma WholeValue(m: nat, e: int, v: nat)
    requires IsWhole(m, e, v) && P52 <= m < P53
    ensures PartsValue(m, e) == v as real && 0 < v < P53 && Exp2(e - 1) <= v as real < Exp2(e)
  {
    PartsBounds(m, e);
    assert Exp2(e - 53) > 0.0;
    hide Pow2, Exp2, PartsValue, IsScaled;
    PartsScaled(m, e);
    NatProductScales(m, v, 53 - e);
    ScaleInverse(m as real, v as real, 53 - e);
    ScaleOrder(PartsValue(m, e), v as real, m as real, m as real, e - 53);
    MulLower(v, v, Pow2(53 - e), 1);
  }

  lemma PartsScaled(m: nat, e: int)
    ensures IsScaled(PartsValue(m, e), m as real, e - 53)
  {
  }

  // ----- trailing zeros -----

  lemma {:induction false} StripWhole(v: nat, b: Radix) returns (k: nat, j: nat)
    requires v > 0
    ensures v == k * Pow(b, j) && k % b != 0 && k > 0
  {
    hide Pow;
    if v % b != 0 {
      PowZero(b);
      k, j := v, 0;
    } else {
      var q := v / b;
      WholeQuotient(v, b, q);
      k, j := StripWhole(q, b);
      PowSucc(b, j);
      MulAssocInt(k, Pow(b, j), b);
      j := j + 1;
    }
  }

  lemma WholeQuotient(v: nat, b: Radix, q: nat)
    requires v % b == 0 && q == v / b && v > 0
    ensures v == q * b && 0 < q < v
  {
    assert v == q * b;
    assert q == 0 ==> q * b == 0;
    MulLower(q, q, b, 2);
  }

  lemma NextProduct(k: nat, b: Radix, j: nat)
    requires j > 0
    ensures k * Pow(b, j) == k * Pow(b, j - 1) * b
  {
    PowSucc(b, j - 1);
    hide Pow;
    MulAssocInt(k, Pow(b, j - 1), b);
  }

  /** The digits of a number with trailing zeros. */
  lemma {:induction false} TrailingZeros(k: nat, b: Radix, j: nat)
    ensures DigitString(k * Pow(b, j), b, j) == Zeros(j)
  {
    if j > 0 {
      hide Pow, DigitString;
      var v := k * Pow(b, j - 1);
      TrailingZeros(k, b, j - 1);
      NextProduct(k, b, j);
      DigitStringStep(v * b, b, j - 1);
      MultipleParts(v, b);
      assert Zeros(j) == Zeros(j - 1) + ['0'];
    } else {
      DigitStringStart(k * Pow(b, 0), b);
    }
  }

  lemma MultipleParts(v: nat, b: Radix)
    ensures Div(v * b, b) == v && Mod(v * b, b) == 0 && DigitChar(0) == '0'
  {
    DivModIs(v * b, b, v, 0);
  }

  lemma StrippedDigits(v: nat, b: Radix, k: nat, j: nat)
    requires v > 0 && v == k * Pow(b, j) && k > 0
    ensures NumeralLength(v, b) > j && HasDigits(k, b, NumeralLength(v, b) - j)
    ensures NumeralText(v, b) == DigitString(k, b, NumeralLength(v, b) - j) + Zeros(j)
  {
    var l := NumeralLength(v, b);
    hide Pow, DigitString, NumeralLength, Div, Zeros;
    NumeralBounds(v, b);
    PowPositive(b, j);
    MulLower(1, k, Pow(b, j), Pow(b, j));
    if j >= l {
      PowMonotone(b, l, j);
    }
    PowAdd(b, l - j, j);
    FactorBelow(k, Pow(b, l - j), Pow(b, j));
    PowZero(b);
    if l - j > 1 {
      PowAdd(b, l - j - 1, j);
      FactorAtLeast(k, Pow(b, l - j - 1), Pow(b, j));
    }
    DigitStringSplit(v, b, l - j, j);
    TrailingZeros(k, b, j);
    DivModIs(v, Pow(b, j), k, 0);
  }

  lemma FactorBelow(k: nat, p: nat, q: nat)
    requires k * q < p * q
    ensures k < p
  {
    if k >= p {
      MulLower(p, k, q, q);
    }
  }

  lemma FactorAtLeast(k: nat, p: nat, q: nat)
    requires p * q <= k * q && q > 0
    ensures p <= k
  {
    if k < p {
      ScaleBound(k, p, q);
    }
  }

  // ----- the digits of a whole number are what the search looks for -----

  /** The digits of v, trailing zeros stripped. */
  ghost predicate WholeDigits(v: nat, b: Radix, k: nat, p: nat, d: int) {
    && p > 0 && d == NumeralLength(v, b) && p <= d && v == k * Pow(b, d - p) && k % b != 0
    && HasDigits(k, b, p)
  }

  lemma WholeDigitsExist(v: nat, b: Radix) returns (k: nat, p: nat, d: int)
    requires v > 0
    ensures WholeDigits(v, b, k, p, d) && NumeralText(v, b) == DigitString(k, b, p) + Zeros(d - p)
  {
    var j;
    k, j := StripWhole(v, b);
    StrippedDigits(v, b, k, j);
    d := NumeralLength(v, b);
    p := d - j;
  }

  /** The fast path prints a layout of them. */
  lemma WholeLayout(v: nat, b: Radix, k: nat, p: nat, d: int, mode: ExponentMode, eMax: int)
    requires WholeDigits(v, b, k, p, d) && mode != ExpEnabled && d <= eMax
    requires NumeralText(v, b) == DigitString(k, b, p) + Zeros(d - p)
    ensures NumeralText(v, b) == Layout(DigitString(k, b, p), b, d, mode, eMax)
  {
    hide DigitString, NumeralText, NumeralLength, Pow;
  }

  /** Below 2^53 there are fewer than dtoa_max_digits digits. */
  lemma WholeLength(v: nat, b: Radix)
    requires v < P53
    ensures NumeralLength(v, b) < DtoaMaxDigits(b)
  {
    PrintedPower(b, 0);
    hide Pow, NumeralLength, DtoaMaxDigits;
    NumeralLengthAtMost(v, b, DtoaMaxDigits(b) - 1);
  }

  lemma WholeRadixValue(v: nat, b: Radix, k: nat, j: nat)
    requires v == k * Pow(b, j)
    ensures RadixValue(k as real, b, j) == v as real
  {
    RadixScaledProduct(RadixValue(k as real, b, j), k as real, b, j);
    RPowNat(b, j);
    CastProduct(k, Pow(b, j));
    hide Pow, RPow, RadixValue;
  }

  /** A whole number is its own rounding. */
  lemma WholeRoundsBack(u: Bits, m: nat, e: int, v: nat, b: Radix, k: nat, j: nat)
    requires Parts(u, m, e) && PartsValue(m, e) == v as real && v == k * Pow(b, j)
    ensures RoundsBack(k, b, j, u)
  {
    MagnitudeRepresentable(u);
    hide *;
    WholeRadixValue(v, b, k, j);
    PartsUnits(u, m, e);
    RoundsExact(Magnitude(u), NearEven);
    RoundsBackIs(k, b, j, u);
  }

  lemma WholeIdentified(u: Bits, m: nat, e: int, v: nat, b: Radix, k: nat, p: nat, d: int)
    requires Parts(u, m, e) && IsWhole(m, e, v) && WholeDigits(v, b, k, p, d)
    ensures Identifies(u, b, k, p, d) && d < DtoaMaxDigits(b)
  {
    PartsRange(u, m, e);
    WholeValue(m, e, v);
    WholeLength(v, b);
    WholeRoundsBack(u, m, e, v, b, k, d - p);
    hide Pow, Parts, HasDigits, RoundsBack, NumeralLength, DtoaMaxDigits;
    IdentifiesIntro(u, b, k, p, d, p);
  }

  /** Scaled by a power of the radix a whole number stays whole. */
  lemma WholeCandidate(x: real, v: nat, b: Radix, q: nat, d: int)
    requires x == v as real && q >= d
    ensures Candidate(x, b, q, d, v * Pow(b, q - d))
  {
    RPowNat(b, q - d);
    CastProduct(v, Pow(b, q - d));
    hide Pow, RPow;
    IntegerRounds(v * Pow(b, q - d), NearEven);
  }

  lemma WholeMantissa(x: real, e: int, v: nat, b: Radix, d0: int, l: nat)
    requires x == v as real && Exp2(e - 1) <= x < Exp2(e) && v > 0 && l == NumeralLength(v, b) && LogBracket(b, e, d0)
    ensures d0 <= l <= d0 + 1 && IsMantissa(x, b, l, d0, l, v, v * Pow(b, l - d0))
  {
    WholeExponent(x, e, v, b, d0, l);
    hide *;
    WholeBounds(v, b, l);
    WholeCandidate(x, v, b, l, l);
    PowZero(b);
    WholeCandidate(x, v, b, l, d0);
    assert v * 1 == v;
    MantissaIntro(x, b, l, d0, l, v, v * Pow(b, l - d0));
  }

  lemma WholeBounds(v: nat, b: Radix, l: nat)
    requires v > 0 && l == NumeralLength(v, b)
    ensures l > 0 && Pow(b, l - 1) <= v < Pow(b, l) && Pow(b, l) <= v * Pow(b, 1)
  {
    NumeralBounds(v, b);
    PowZero(b);
    PowSucc(b, 0);
    PowSucc(b, l - 1);
    hide Pow, NumeralLength;
    assert Pow(b, l - 1) <= v;
    MulLower(Pow(b, l - 1), v, b, b);
  }

  /** The length is the estimated exponent, or one more. */
  lemma WholeExponent(x: real, e: int, v: nat, b: Radix, d0: int, l: nat)
    requires x == v as real && Exp2(e - 1) <= x < Exp2(e) && v > 0 && l == NumeralLength(v, b) && LogBracket(b, e, d0)
    ensures d0 <= l <= d0 + 1
  {
    NumeralBounds(v, b);
    RPowNat(b, l);
    RPowNat(b, l - 1);
    PowZero(b);
    Exp2Succ(e - 1);
    BracketUpper(b, e, d0);
    hide Pow, Exp2, RPow, NumeralLength, LogBracket;
    RPowStrict(b, d0 - 1, l);
    RPowSucc(b, d0);
    TwiceIsLess(b, RPow(b, d0), RPow(b, d0 + 1));
    RPowStrict(b, l - 1, d0 + 1);
  }

  lemma TwiceIsLess(b: Radix, r: real, s: real)
    requires s == Product(b as real, r) && r > 0.0
    ensures 2.0 * r <= s
  {
    MulMono(2.0, b as real, r);
  }

  lemma WholeRounded(u: Bits, m: nat, e: int, v: nat, b: Radix, k: nat, p: nat, d: int, d0: int)
    requires Parts(u, m, e) && IsWhole(m, e, v) && WholeDigits(v, b, k, p, d) && LogBracket(b, e, d0)
    ensures CorrectlyRounded(u, b, k, p, d) && d0 <= d <= d0 + 1
  {
    PartsRange(u, m, e);
    WholeValue(m, e, v);
    WholeMantissa(PartsValue(m, e), e, v, b, d0, d);
    hide *;
    WholeDigitsElim(v, b, k, p, d);
    RoundedIntro(u, b, k, p, d, m, e, d0, d, v, v * Pow(b, d - d0));
  }

  lemma WholeDigitsElim(v: nat, b: Radix, k: nat, p: nat, d: int)
    requires WholeDigits(v, b, k, p, d)
    ensures 0 < p <= d && v == k * Pow(b, d - p) && d == NumeralLength(v, b) && HasDigits(k, b, p)
  {
  }

  // ----- and what it finds -----

  lemma ScaledBackNat(v: nat, b: Radix, k: nat, f: nat)
    requires k == v * Pow(b, f)
    ensures RadixValue(k as real, b, 0 - f) == v as real
  {
    RPowNat(b, f);
    CastProduct(v, Pow(b, f));
    assert Product(v as real, RPow(b, f)) == k as real;
    RadixScaledProduct(RadixValue(k as real, b, 0 - f), k as real, b, 0 - f);
    ScaledBack(v as real, b, f);
    hide *;
  }

  /** A whole number that rounds to another below 2^53 is that number. */
  lemma WholeFixed(n: nat, v: nat, y: nat)
    requires v < P53 && y as real == ScaleBy(v as real, 1074) && Rounds(ScaleBy(n as real, 1074), y, NearEven)
    ensures n == v
  {
    NatInUnits(n);
    NatInUnits(v);
    hide Pow2, Representable, EvenSignificand, ScaleBy, Rounds;
    WholeUnits(n, v, y, Pow2(1074), n * Pow2(1074));
  }

  lemma WholeUnits(n: nat, v: nat, y: nat, g: nat, f: nat)
    requires v < P53 && y == v * g && f == n * g && g == Pow2(1074) && Rounds(f as real, y, NearEven)
    ensures n == v
  {
    hide Pow2, Representable, EvenSignificand, Rounds;
    if n <= P53 {
      GridRepresentable(n, 1074);
      RoundsExact(f, NearEven);
      RoundsUnique(f as real, f, y, NearEven);
      MulCancel(n, v, g);
    } else {
      GridRepresentable(P53, 1074);
      MulLower(P53, n, g, g);
      NotBelow(f as real, y, P53 * g);
      ScaleBound(v, P53, g);
    }
  }

  lemma NatInUnits(n: nat)
    ensures ScaleBy(n as real, 1074) == (n * Pow2(1074)) as real
  {
    hide *;
    ScaledProductOf(n as real, 1074);
    Exp2InverseProduct(1074);
    NatProductReal(n, Pow2(1074), Exp2(1074));
  }

  lemma NatProductReal(n: nat, p: nat, g: real)
    requires g == p as real
    ensures Product(n as real, g) == (n * p) as real
  {
    CastProduct(n, p);
  }

  /** Equal values of equal magnitude. */
  lemma PartsValueUnique(u: Bits, m: nat, e: int, m2: nat, e2: int)
    requires Parts(u, m, e) && Parts(u, m2, e2)
    ensures PartsValue(m2, e2) == PartsValue(m, e)
  {
    hide *;
    PartsUnits(u, m, e);
    PartsUnits(u, m2, e2);
    UnitsInjective(PartsValue(m, e), PartsValue(m2, e2));
  }

  lemma UnitsInjective(x: real, y: real)
    requires ScaleBy(x, 1074) == ScaleBy(y, 1074)
    ensures x == y
  {
    hide Exp2;
    ScaleOrder(ScaleBy(x, 1074), ScaleBy(y, 1074), x, y, 1074);
  }

  /** Correctly rounded digits that identify a whole number have its value. */
  lemma SearchValue(u: Bits, m: nat, e: int, v: nat, b: Radix, mant: nat, p: nat, d: int)
    requires Parts(u, m, e) && IsWhole(m, e, v)
    requires Identifies(u, b, mant, p, d) && CorrectlyRounded(u, b, mant, p, d)
    ensures RadixValue(mant as real, b, d - p) == v as real
  {
    hide *;
    PartsRange(u, m, e);
    WholeValue(m, e, v);
    var q, k := RoundedFromWhole(u, m, e, b, mant, p, d);
    StrippedValue(k, mant, b, q - p, d - q);
    assert d - q + (q - p) == d - p;
    if q >= d {
      ExactDigits(PartsValue(m, e), v, b, q, d, k);
    } else {
      CoarseDigits(u, m, e, v, b, mant, p, d, q, k);
    }
  }

  lemma CoarseDigits(u: Bits, m: nat, e: int, v: nat, b: Radix, mant: nat, p: nat, d: int, q: nat, k: nat)
    requires Parts(u, m, e) && PartsValue(m, e) == v as real && v < P53 && Identifies(u, b, mant, p, d)
    requires q < d && RadixValue(mant as real, b, d - p) == RadixValue(k as real, b, d - q)
    ensures RadixValue(mant as real, b, d - p) == v as real
  {
    hide Pow, HasDigits, Parts, PartsValue, RadixValue, Identifies;
    var n := k * Pow(b, d - q);
    WholeRadixValue(n, b, k, d - q);
    SearchUnits(u, m, e, v, b, mant, p, d, n);
  }

  lemma ExactDigits(x: real, v: nat, b: Radix, q: nat, d: int, k: nat)
    requires x == v as real && q >= d && Candidate(x, b, q, d, k)
    ensures RadixValue(k as real, b, d - q) == v as real
  {
    hide *;
    WholeCandidate(x, v, b, q, d);
    CandidateUnique(x, b, q, d, k, v * Pow(b, q - d));
    ScaledBackNat(v, b, k, q - d);
    assert 0 - (q - d) == d - q;
  }

  lemma RoundedFromWhole(u: Bits, m: nat, e: int, b: Radix, mant: nat, p: nat, d: int) returns (q: nat, k: nat)
    requires Parts(u, m, e) && CorrectlyRounded(u, b, mant, p, d)
    ensures Candidate(PartsValue(m, e), b, q, d, k) && p <= q && k == mant * Pow(b, q - p)
  {
    hide Parts, IsMantissa, LogBracket, Pow, PartsValue;
    var m2: nat, e2: int, d0: int, q1: nat, k1: nat, k0: nat :| RoundedFrom(u, b, mant, p, d, m2, e2, d0, q1, k1, k0);
    RoundedParts(u, b, mant, p, d, m2, e2, d0, q1, k1, k0);
    PartsValueUnique(u, m, e, m2, e2);
    q, k := q1, k1;
  }

  lemma RoundedParts(u: Bits, b: Radix, mant: nat, p: nat, d: int, m: nat, e: int, d0: int, q: nat, k: nat, k0: nat)
    requires RoundedFrom(u, b, mant, p, d, m, e, d0, q, k, k0)
    ensures Parts(u, m, e) && Candidate(PartsValue(m, e), b, q, d, k) && p <= q && k == mant * Pow(b, q - p)
  {
  }

  lemma CandidateUnique(x: real, b: Radix, q: nat, d: int, k: nat, k1: nat)
    requires Candidate(x, b, q, d, k) && Candidate(x, b, q, d, k1)
    ensures k == k1
  {
    RoundsToIntegerUnique(Product(x, RPow(b, q - d)), k, k1, NearEven);
  }

  lemma SearchUnits(u: Bits, m: nat, e: int, v: nat, b: Radix, mant: nat, p: nat, d: int, n: nat)
    requires Parts(u, m, e) && PartsValue(m, e) == v as real && v < P53 && Identifies(u, b, mant, p, d)
    requires RadixValue(mant as real, b, d - p) == n as real
    ensures n == v
  {
    hide Pow, HasDigits, Parts, PartsValue, Magnitude, RadixValue, Rounds, ScaleBy;
    PartsUnits(u, m, e);
    WholeFixed(n, v, Magnitude(u));
  }

  // ----- stripped digits are unique -----

  /** Two ways to write v as a mantissa not divisible by b times a power. */
  lemma StripUnique(v: nat, b: Radix, k: nat, j: nat, mant: nat, f: int)
    requires v > 0 && v == k * Pow(b, j) && k % b != 0 && mant % b != 0 && RadixValue(mant as real, b, f) == v as real
    ensures mant == k && f == j
  {
    hide Pow, RadixValue;
    if f < 0 {
      var n: nat := 0 - f;
      WholeMultiple(v, b, mant, n);
      PowSucc(b, n - 1);
      MultipleOf(v, b, Pow(b, n - 1), mant);
    } else {
      WholeRadixValue(mant * Pow(b, f), b, mant, f);
      if f < j {
        SmallerPower(k, mant, b, j, f);
      } else if j < f {
        SmallerPower(mant, k, b, f, j);
      } else {
        PowPositive(b, j);
        MulCancel(mant, k, Pow(b, j));
      }
    }
  }

  lemma WholeMultiple(v: nat, b: Radix, mant: nat, n: nat)
    requires RadixValue(mant as real, b, 0 - n) == v as real
    ensures mant == v * Pow(b, n)
  {
    RadixScaledProduct(v as real, mant as real, b, 0 - n);
    ScaledBack(mant as real, b, 0 - n);
    RPowNat(b, n);
    CastProduct(v, Pow(b, n));
    assert 0 - (0 - n) == n;
    hide Pow, RPow;
  }

  lemma MultipleOf(v: nat, b: Radix, p: nat, mant: nat)
    requires mant == v * (b * p)
    ensures mant % b == 0
  {
    MulAssocInt(v, p, b);
    assert b * p == p * b;
    DivModUnique(mant, b, v * p, 0);
  }

  lemma SmallerPower(k: nat, mant: nat, b: Radix, j: nat, f: nat)
    requires f < j && k * Pow(b, j) == mant * Pow(b, f)
    ensures mant % b == 0
  {
    PowAdd(b, j - f, f);
    PowSucc(b, j - f - 1);
    PowPositive(b, f);
    hide Pow;
    MulAssocInt(k, Pow(b, j - f), Pow(b, f));
    MulCancel(k * Pow(b, j - f), mant, Pow(b, f));
    MultipleOf(k, b, Pow(b, j - f - 1), mant);
  }

  lemma SameDigitCount(k: nat, b: Radix, p: nat, q: nat)
    requires HasDigits(k, b, p) && HasDigits(k, b, q)
    ensures p == q
  {
    hide Pow;
    if p < q {
      PowMonotone(b, p, q - 1);
    } else if q < p {
      PowMonotone(b, q, p - 1);
    }
  }

  /** The fast path prints exactly what the search would. */
  lemma FastPathAgrees(u: Bits, m: nat, e: int, v: nat, b: Radix, k: nat, p: nat, d: int, mant: nat, q: nat, c: int)
    requires Parts(u, m, e) && IsWhole(m, e, v) && WholeDigits(v, b, k, p, d)
    requires Identifies(u, b, mant, q, c) && CorrectlyRounded(u, b, mant, q, c)
    ensures mant == k && q == p && c == d
  {
    hide *;
    PartsRange(u, m, e);
    WholeValue(m, e, v);
    SearchValue(u, m, e, v, b, mant, q, c);
    WholeDigitsElim(v, b, k, p, d);
    NoTrailingZero(u, v, b, k, p, d, mant, q, c);
    StripUnique(v, b, k, d - p, mant, c - q);
    SameDigitCount(k, b, p, q);
  }

  lemma NoTrailingZero(u: Bits, v: nat, b: Radix, k: nat, p: nat, d: int, mant: nat, q: nat, c: int)
    requires WholeDigits(v, b, k, p, d) && Identifies(u, b, mant, q, c)
    ensures k % b != 0 && mant % b != 0 && HasDigits(mant, b, q)
  {
    hide Pow, RoundsBack, NumeralLength;
  }
}
