/** js_dtoa_max_len against the length of what js_dtoa prints. */
module PrintedLength {
  import opened PowersOfTwo
  import opened Rounding
  import opened Binary64
  import opened RadixPowers
  import opened RadixTables
  import opened RadixScaling
  import opened RadixReals
  import opened RadixLogarithm
  import opened DoubleRounding
  import opened DigitSearch
  import opened FreeFormatSearch
  import opened FractionFormat
  import opened IntegerText
  import opened NumberLayout

  datatype Format = Free | Fixed | Frac

  /** js_dtoa_max_len */
  function JsDtoaMaxLen(u: Bits, b: Radix, n: nat, fmt: Format, mode: ExponentMode): int {
    if fmt == Frac then FractionMaxLen(u, b, n)
    else
      var digits := if fmt == Free then DtoaMaxDigits(b) else n;
      if mode == ExpDisabled then
        if ExponentOf(u) == EXP_MASK then 9
        else Greatest(digits + 10 + Absolute(MulLog2Radix(ExponentOf(u) - 1023 - 1, b)), 9)
      else Greatest(digits + 1 + 1 + 6, 9)
  }

  /** E_max in js_dtoa */
  function LargestPlain(fmt: Format, b: Radix, n: nat): nat {
    if fmt == Fixed then n else DtoaMaxDigits(b) + 4
  }

  /** The length of a layout with p digits. */
  function LayoutLength(p: nat, b: Radix, d: int, mode: ExponentMode, eMax: int): nat
    requires p > 0
  {
    if UsesExponent(mode, d, eMax) then
      (if p == 1 then 1 else p + 1) + 2 + NumeralLength(Absolute(PrintedExponent(b, d)), 10)
    else if d <= 0 then 2 + (0 - d) + p
    else if d < p then p + 1
    else d
  }

  lemma LayoutHasLength(digits: string, b: Radix, d: int, mode: ExponentMode, eMax: int)
    requires |digits| > 0
    ensures |Layout(digits, b, d, mode, eMax)| == LayoutLength(|digits|, b, d, mode, eMax)
  {
    hide NumeralText, NumeralLength, PrintedExponent;
  }

  // ----- exponents -----

  lemma CutoffRange1(b: Radix)
    requires b <= 19
    ensures -1075 <= MinExponent(b) && MaxExponent(b) <= 1024
  {
  }

  lemma CutoffRange2(b: Radix)
    requires b > 19
    ensures -1075 <= MinExponent(b) && MaxExponent(b) <= 1024
  {
  }

  /** A printed exponent has at most four digits. */
  lemma ExponentFits(b: Radix, e: int, d0: int, d: int)
    requires LogBracket(b, e, d0) && -1073 <= e <= 1024 && d0 <= d <= d0 + 1
    ensures -1075 < d <= 1025 && Absolute(PrintedExponent(b, d)) < 10000
    ensures NumeralLength(Absolute(PrintedExponent(b, d)), 10) <= 4
  {
    if b <= 19 {
      CutoffRange1(b);
    } else {
      CutoffRange2(b);
    }
    hide MinExponent, MaxExponent, LogBracket, OddPart, Ctz32, NumeralLength;
    ExponentRange(b, e, d0);
    ExponentDigits(b, d);
  }

  lemma ExponentDigits(b: Radix, d: int)
    requires -1075 < d <= 1025
    ensures Absolute(PrintedExponent(b, d)) < 10000
    ensures NumeralLength(Absolute(PrintedExponent(b, d)), 10) <= 4
  {
    FastPowIsPow(10, 4);
    PrintedExponentRange(b, d);
    hide Pow, NumeralLength, PrintedExponent;
    NumeralLengthAtMost(Absolute(PrintedExponent(b, d)), 10, 4);
  }

  lemma PrintedExponentRange(b: Radix, d: int)
    requires -1075 < d <= 1025
    ensures Absolute(PrintedExponent(b, d)) < 10000
  {
    if BinaryExponent(b) {
      PowerRadix(b);
      hide OddPart, Ctz32;
      BinaryExponentRange(d - 1, Ctz32(b), PrintedExponent(b, d));
    }
  }

  lemma BinaryExponentRange(d: int, s: nat, n: int)
    requires -1076 < d <= 1024 && 1 <= s <= 5 && n == d * s
    ensures -10000 < n < 10000
  {
    assert s == 1 || s == 2 || s == 3 || s == 4 || s == 5;
  }

  /** With an exponent, or in automatic mode, sign included. */
  lemma ScientificFits(p: nat, most: nat, b: Radix, d: int, mode: ExponentMode, eMax: int)
    requires 0 < p <= most && mode != ExpDisabled && eMax <= most + 4
    requires NumeralLength(Absolute(PrintedExponent(b, d)), 10) <= 4
    ensures 1 + LayoutLength(p, b, d, mode, eMax) <= most + 8
  {
    hide NumeralLength, PrintedExponent;
  }

  // ----- without an exponent -----

  lemma EstimateMonotone(b: Radix, a: int)
    requires -2048 <= a < 2047
    ensures MulLog2Radix(a, b) <= MulLog2Radix(a + 1, b)
  {
    var p, q := MulLog2Radix(a, b), MulLog2Radix(a + 1, b);
    hide MulLog2Radix, RPow, Exp2;
    MulLog2RadixIsFloor(b, a);
    MulLog2RadixIsFloor(b, a + 1);
    Exp2Monotone(a, a + 1);
    RPowStrict(b, p, q + 1);
  }

  /** Normal numbers, sign included. */
  lemma PlainFits(p: nat, most: nat, b: Radix, e: int, d: int, eMax: int)
    requires 0 < p <= most && -1021 <= e <= 1024
    requires 1 + MulLog2Radix(e - 1, b) <= d <= 2 + MulLog2Radix(e - 1, b)
    ensures 1 + LayoutLength(p, b, d, ExpDisabled, eMax) <= most + 10 + Absolute(MulLog2Radix(e - 2, b))
  {
    hide MulLog2Radix, NumeralLength, PrintedExponent;
    EstimateMonotone(b, e - 2);
    EstimateStep(b, e - 2);
  }

  // ----- subnormals in free format -----

  lemma IntegerNearest(c: real, y: nat)
    requires y as real - 0.5 < c < y as real + 0.5 && Representable(y)
    ensures Rounds(c, y, NearEven)
  {
    hide Representable, EvenSignificand;
    forall f: nat | Representable(f)
      ensures Distance(c, y) <= Distance(c, f)
      ensures f != y ==> Distance(c, f) != Distance(c, y)
    {
      if f < y {
        assert f as real <= y as real - 1.0;
      } else if f > y {
        assert f as real >= y as real + 1.0;
      }
    }
  }

  /** A candidate finer than the spacing of subnormals rounds back. */
  lemma FineCandidate(u: Bits, m: nat, e: int, b: Radix, q: nat, d: int, k: nat)
    requires Parts(u, m, e) && Candidate(PartsValue(m, e), b, q, d, k) && DigitUnit(b, d - q) < 1.0
    ensures RoundsBack(k, b, d - q, u)
  {
    var x, f := PartsValue(m, e), d - q;
    assert q - d == 0 - f;
    MagnitudeRepresentable(u);
    hide *;
    PartsUnits(u, m, e);
    CandidateUnits(x, b, f, k);
    CandidateElim(x, b, q, d, k);
    CandidateError(Product(x, RPow(b, q - d)), k, DigitUnit(b, f));
    var c, y := ScaleBy(RadixValue(k as real, b, f), 1074), Magnitude(u);
    IntegerNearest(c, y);
    RoundsBackIs(k, b, f, u);
  }

  lemma CandidateElim(x: real, b: Radix, q: nat, d: int, k: nat)
    requires Candidate(x, b, q, d, k)
    ensures RoundsToInteger(Product(x, RPow(b, q - d)), k, NearEven)
  {
  }

  /** So a failing candidate is coarse. */
  lemma FailureIsCoarse(u: Bits, b: Radix, q: nat, e: int, d0: int)
    requires FailsAt(u, b, q) && LogBracket(b, e, d0) && (forall m, g :: Parts(u, m, g) ==> g == e)
    ensures q - d0 - 1 <= MulLog2Radix(1074, b)
  {
    hide *;
    var m, d, k := FailureParts(u, b, q, e, d0);
    if DigitUnit(b, d - q) < 1.0 {
      FineCandidate(u, m, e, b, q, d, k);
    }
    CoarseUnit(b, d - q);
  }

  lemma FailureParts(u: Bits, b: Radix, q: nat, e: int, d0: int) returns (m: nat, d: int, k: nat)
    requires FailsAt(u, b, q) && LogBracket(b, e, d0) && (forall m, g :: Parts(u, m, g) ==> g == e)
    ensures Parts(u, m, e) && Candidate(PartsValue(m, e), b, q, d, k) && !RoundsBack(k, b, d - q, u) && d <= d0 + 1
  {
    hide Parts, LogBracket, Candidate, PartsValue, RoundsBack;
    var m1: nat, g: int, c0: int, d1: int, k1: nat, k0: nat :| FailedMantissa(u, m1, g, b, q, c0, d1, k1, k0);
    BracketUnique(b, e, d0, c0);
    m, d, k := m1, d1, k1;
  }

  lemma BracketUnique(b: Radix, e: int, d0: int, d1: int)
    requires LogBracket(b, e, d0) && LogBracket(b, e, d1)
    ensures d0 == d1
  {
    hide RPow, Exp2;
    RPowStrict(b, d0 - 1, d1);
    RPowStrict(b, d1 - 1, d0);
  }

  lemma CoarseUnit(b: Radix, f: int)
    requires DigitUnit(b, f) >= 1.0
    ensures 0 - f <= MulLog2Radix(1074, b)
  {
    hide *;
    UnitFactor(b, f);
    Exp2InverseProduct(1074);
    RPowAdd(b, f, 0 - f);
    RPowNat(b, 0);
    PowZero(b);
    ScaledProductOf(RPow(b, f), 1074);
    var r, g, h := RPow(b, f), Exp2(-1074), Exp2(1074);
    ProductMono(g, r, h);
    InverseBound(r, RPow(b, 0 - f), g, h);
    MulLog2RadixIsFloor(b, 1074);
    FloorElim(b, 1074);
    RPowStrict(b, 0 - f, MulLog2Radix(1074, b) + 1);
  }

  lemma FloorElim(b: Radix, a: int)
    requires LogBracket(b, a + 1, MulLog2Radix(a, b) + 1)
    ensures Exp2(a) < RPow(b, MulLog2Radix(a, b) + 1)
  {
  }

  // ----- js_dtoa_max_len leaves room for the finest subnormals -----

  /** A power of the radix within 2^(a + c), where 2^c is within b^j. */
  lemma PowerSpan(b: Radix, t: int, a: int, c: int, j: int)
    requires RPow(b, t) <= Exp2(a + c) && Exp2(c) <= RPow(b, j) && -2048 <= a <= 2047
    ensures t - j <= MulLog2Radix(a, b)
  {
    hide *;
    RPowAdd(b, t - j, j);
    Exp2AddProduct(a, c);
    var q := MulLog2Radix(a, b);
    MulLog2RadixIsFloor(b, a);
    FloorElim(b, a);
    if t - j > q {
      RPowMonotone(b, q + 1, t - j);
      ProductBound(Exp2(a), RPow(b, t - j), Exp2(c), RPow(b, j));
    }
  }

  /** dtoa_max_digits covers 53 bits. */
  lemma DigitsCoverBits(b: Radix)
    ensures DtoaMaxDigits(b) >= 2 && Exp2(53) <= RPow(b, DtoaMaxDigits(b) - 1)
  {
    Pow2Values();
    PrintedPower(b, 0);
    Exp2Nat(53);
    RPowNat(b, DtoaMaxDigits(b) - 1);
    hide Pow, Pow2, Exp2, RPow, DtoaMaxDigits;
  }

  /** Rounding down moves negative logarithms away from zero. */
  lemma NegatedEstimate(b: Radix, a: nat)
    requires a <= 2047
    ensures MulLog2Radix(a, b) <= Absolute(MulLog2Radix(0 - a, b))
  {
    var p, q := MulLog2Radix(a, b), MulLog2Radix(0 - a, b);
    hide MulLog2Radix, RPow, Exp2, LogBracket;
    MulLog2RadixIsFloor(b, a);
    MulLog2RadixIsFloor(b, 0 - a);
    FloorLower(b, a);
    FloorLower(b, 0 - a);
    RPowAdd(b, p, q);
    Exp2AddProduct(a, 0 - a);
    Exp2Zero();
    RPowNat(b, 0);
    PowZero(b);
    if p + q > 0 {
      RPowMonotone(b, 1, p + q);
      RPowSucc(b, 0);
      ProductUnit(b as real);
      ProductAtMost(RPow(b, p), Exp2(a), RPow(b, q), Exp2(0 - a));
    }
  }

  lemma FloorLower(b: Radix, a: int)
    requires LogBracket(b, a + 1, MulLog2Radix(a, b) + 1)
    ensures RPow(b, MulLog2Radix(a, b)) <= Exp2(a)
  {
  }

  lemma ProductAtMost(a: real, c: real, g: real, h: real)
    requires 0.0 < a <= c && 0.0 < g <= h
    ensures Product(a, g) <= Product(c, h)
  {
    MulMono(a, c, g);
    MulMono(g, h, c);
  }

  lemma SubnormalRoom(b: Radix)
    ensures MulLog2Radix(1074, b) + 5 <= DtoaMaxDigits(b) + 10 + Absolute(MulLog2Radix(-1024, b))
    ensures 3 - MinExponent(b) <= DtoaMaxDigits(b) + 10 + Absolute(MulLog2Radix(-1024, b))
  {
    hide *;
    DigitsCoverBits(b);
    NegatedEstimate(b, 1024);
    var j, t := DtoaMaxDigits(b) - 1, MulLog2Radix(1074, b);
    MulLog2RadixIsFloor(b, 1074);
    FloorLower(b, 1074);
    Exp2Monotone(50, 53);
    PowerSpan(b, t, 1024, 50, j);
    SmallestPower(b, j);
  }

  lemma SmallestPower(b: Radix, j: nat)
    requires Exp2(53) <= RPow(b, j)
    ensures 0 - MinExponent(b) - (j + 7) <= MulLog2Radix(1024, b)
  {
    hide *;
    var n := 0 - MinExponent(b);
    SevenBits(b);
    RPowAdd(b, j, 7);
    Exp2AddProduct(53, 7);
    ProductAtMost(Exp2(53), RPow(b, j), Exp2(7), RPow(b, 7));
    CutoffPowers(b);
    InverseAtMost(b, n);
    assert 1024 + 60 == 1084 && 53 + 7 == 60;
    PowerSpan(b, n, 1024, 60, j + 7);
  }

  lemma SevenBits(b: Radix)
    ensures Exp2(7) <= RPow(b, 7)
  {
    hide *;
    RPowNat(b, 7);
    PowBaseMonotone(2, b, 7);
    PowOfTwo(7);
    Exp2Nat(7);
  }

  lemma InverseAtMost(b: Radix, n: int)
    requires Exp2(-1084) <= RPow(b, 0 - n)
    ensures RPow(b, n) <= Exp2(1084)
  {
    hide *;
    RPowAdd(b, 0 - n, n);
    RPowNat(b, 0);
    PowZero(b);
    Exp2InverseProduct(1084);
    InverseBound(RPow(b, 0 - n), RPow(b, n), Exp2(-1084), Exp2(1084));
  }

  lemma PartsUnique(u: Bits, m: nat, e: int)
    requires Parts(u, m, e)
    ensures forall n, g :: Parts(u, n, g) ==> g == e
  {
    forall n, g | Parts(u, n, g)
      ensures g == e
    {
      PartsDenote(u, m, e);
      PartsDenote(u, n, g);
      hide Magnitude, Denotes;
      DenotesUnique(m, e, n, g, Magnitude(u));
    }
  }

  /** The free format never prints more digits of a subnormal than fit. */
  lemma SubnormalFits(u: Bits, m: nat, e: int, b: Radix, p: nat, d: int, eMax: int)
    requires Parts(u, m, e) && ExponentOf(u) == 0 && 0 < p <= DtoaMaxDigits(b) && (p == 1 || FailsAt(u, b, p - 1))
    requires 1 + MulLog2Radix(e - 1, b) <= d <= 2 + MulLog2Radix(e - 1, b)
    ensures 1 + LayoutLength(p, b, d, ExpDisabled, eMax) <= DtoaMaxDigits(b) + 10 + Absolute(MulLog2Radix(-1024, b))
  {
    var d0 := 1 + MulLog2Radix(e - 1, b);
    PartsRange(u, m, e);
    PartsExponent(u, m, e);
    EstimateBrackets(b, e, d0);
    EstimateSign(b, e - 1);
    SubnormalRoom(b);
    ExponentRange(b, e, d0);
    if p > 1 {
      PartsUnique(u, m, e);
      FailureIsCoarse(u, b, p - 1, e, d0);
    }
    hide MulLog2Radix, NumeralLength, PrintedExponent, MinExponent, MaxExponent, DtoaMaxDigits, Parts, FailsAt,
      LogBracket;
    PositionalLength(p, b, d, eMax);
  }

  lemma PositionalLength(p: nat, b: Radix, d: int, eMax: int)
    requires p > 0
    ensures LayoutLength(p, b, d, ExpDisabled, eMax) == if d <= 0 then 2 + (0 - d) + p else if d < p then p + 1 else d
  {
  }
}
