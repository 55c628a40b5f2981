/** The free-format branch of js_dtoa: the search for a digit count whose
    correctly rounded digits convert back to the number. */
module FreeFormatSearch {
  import opened PowersOfTwo
  import opened Rounding
  import opened Binary64
  import opened Limbs
  import opened RadixPowers
  import opened RadixTables
  import opened Bignum
  import opened RadixScaling
  import opened RadixReals
  import opened RadixLogarithm
  import opened DoubleRounding
  import opened DigitSearch
  import opened RoundPack
  import opened Atod

  // ----- the estimate of the exponent -----

  /** The estimated exponent lies between the cut-off exponents. */
  lemma ExponentRange(b: Radix, e: int, d: int)
    requires LogBracket(b, e, d) && -1073 <= e <= 1024
    ensures MinExponent(b) < d <= MaxExponent(b)
  {
    CutoffPowers(b);
    hide RPow, Exp2, MinExponent, MaxExponent;
    Exp2Succ(1023);
    Exp2Monotone(e - 1, 1023);
    Exp2Monotone(-1075, e - 1);
    RPowStrict(b, d - 1, MaxExponent(b));
    RPowStrict(b, MinExponent(b), d);
  }

  lemma PrintedPower(b: Radix, p: nat)
    requires p <= DtoaMaxDigits(b)
    ensures 2 * Pow(b, p) < BASE * BASE
    ensures DtoaMaxDigits(b) >= 2 && Pow(b, DtoaMaxDigits(b) - 1) >= P53
  {
    DigitsPower(b);
    FastPowIsPow(b, DtoaMaxDigits(b));
    FastPowIsPow(b, DtoaMaxDigits(b) - 1);
    FastPowIsPow(2, 64);
    FastPowIsPow(2, 53);
    PowOfTwo(64);
    PowOfTwo(53);
    Pow2Values();
    hide FastPow, Pow, Pow2, DtoaMaxDigits;
    PowMonotone(b, p, DtoaMaxDigits(b));
  }

  /** The power of two in a radix power. */
  lemma TwosInPower(b: Radix, radix1: nat, s: nat, f: int, fs: int)
    requires RadixSplit(b, radix1, s) && (f >= 0 || radix1 == 1) && fs == f * s
    ensures RPow(b, f) >= Exp2(fs)
  {
    var n: nat, k: nat := if f < 0 then 0 - f else f, if f < 0 then 0 - fs else fs;
    assert k == s * n by { MulLower(0, n, s, 0); }
    RadixSplitElim(b, radix1, s);
    RadixPowerParts(b, radix1, s, n, k);
    hide *;
    Exp2Nat(k);
    RPowNat(b, n);
    if f >= 0 {
      assert RPow(b, f) >= Exp2(fs);
    } else {
      InversePowers(b, n, k);
    }
  }

  lemma RadixPowerParts(b: Radix, radix1: nat, s: nat, n: nat, k: nat)
    requires b == radix1 * Pow2(s) && radix1 >= 1 && k == s * n
    ensures Pow(b, n) >= Pow2(k) && (radix1 == 1 ==> Pow(b, n) == Pow2(k))
  {
    PowProduct(radix1, Pow2(s), n);
    PowOfPow2(s, n);
    PowPositive(radix1, n);
    PowOfOne(n);
    hide Pow, Pow2;
    MulLower(1, Pow(radix1, n), Pow2(k), Pow2(k));
  }

  /** The scaled significand does not overshoot 64 bits. */
  lemma ShiftedRange(b: Radix, radix1: nat, s: nat, p: nat, d0: int, d: int, e: int, fs: int)
    requires RadixSplit(b, radix1, s) && (p - d >= 0 || radix1 == 1) && LogBracket(b, e, d0) && d >= d0
    requires p <= DtoaMaxDigits(b) && fs == (p - d) * s
    ensures e - 53 + fs <= 10
  {
    TwosInPower(b, radix1, s, p - d, fs);
    PrintedPower(b, p);
    BracketUpper(b, e, d0);
    hide *;
    SmallExponent(b, e, d0, p - d, fs, p);
  }

  lemma SmallExponent(b: Radix, e: int, d0: int, f: int, fs: int, p: nat)
    requires RPow(b, f) >= Exp2(fs) && Exp2(e - 1) < RPow(b, d0) && d0 + f <= p && 2 * Pow(b, p) < BASE * BASE
    ensures e - 1 + fs < 63
  {
    Pow2Values();
    Exp2Nat(63);
    assert BASE * BASE == 2 * Pow2(63);
    RPowNat(b, p);
    hide *;
    ExponentBelow(b, e, d0, f, fs, p, 63);
  }

  /** 2^(e - 1) * 2^fs < b^(d0 + f) bounds the exponents. */
  lemma ExponentBelow(b: Radix, e: int, d0: int, f: int, fs: int, p: int, t: int)
    requires RPow(b, f) >= Exp2(fs) && Exp2(e - 1) < RPow(b, d0) && d0 + f <= p && RPow(b, p) <= Exp2(t)
    ensures e - 1 + fs < t
  {
    hide *;
    RPowAdd(b, d0, f);
    Exp2AddProduct(e - 1, fs);
    RPowMonotone(b, d0 + f, p);
    ProductBound(Exp2(e - 1), RPow(b, d0), Exp2(fs), RPow(b, f));
    if e - 1 + fs >= t {
      Exp2Monotone(t, e - 1 + fs);
    }
  }

  lemma Exp2AddProduct(m: int, n: int)
    ensures Exp2(m + n) == Product(Exp2(m), Exp2(n))
  {
    Exp2Add(m, n);
  }

  lemma BracketUpper(b: Radix, e: int, d: int)
    requires LogBracket(b, e, d)
    ensures Exp2(e - 1) < RPow(b, d) && RPow(b, d - 1) <= Exp2(e - 1)
  {
  }

  lemma ProductBound(a: real, c: real, g: real, h: real)
    requires 0.0 < a < c && 0.0 < g <= h
    ensures Product(a, g) < Product(c, h)
  {
    MulStrict(a, c, g);
    MulMono(g, h, c);
  }

  /** No bignum of the search exceeds DBIGNUM_LEN_MAX limbs. */
  lemma SearchRoom(b: Radix, radix1: nat, s: nat, p: nat, d0: int, d: int, e: int)
    requires RadixSplit(b, radix1, s) && radix1 <= 36 && LogBracket(b, e, d0) && d0 <= d <= d0 + 1
    requires 0 < p <= DtoaMaxDigits(b) && -1073 <= e <= 1024
    ensures RoundLimbs(radix1, s, p - d, e - 53) <= DBIGNUM_LEN_MAX
  {
    ExponentRange(b, e, d0);
    if p - d >= 0 || radix1 == 1 {
      ShiftedRange(b, radix1, s, p, d0, d, e, (p - d) * s);
    }
    RadixSplitElim(b, radix1, s);
    hide RadixSplit, LogBracket, MaxExponent, MinExponent, DtoaMaxDigits, Groups, DigitsPerLimb;
    if radix1 >= 2 {
      SearchGroups(b, radix1, s, p, d);
      if p - d < 0 {
        AppendedAtMost(radix1, s, d - p, e - 53);
      }
    }
  }

  /** The power of the odd part takes 44 limbs at most. */
  lemma SearchGroups(b: Radix, radix1: nat, s: nat, p: nat, d: int)
    requires RadixSplit(b, radix1, s) && 2 <= radix1 <= 36 && 0 < p <= DtoaMaxDigits(b)
    requires MinExponent(b) <= d <= MaxExponent(b) + 1
    ensures Groups(if p >= d then p - d else d - p, DigitsPerLimb(radix1)) <= 44
  {
    OddRadix(b, radix1, s);
    RadixDigitsFit(b);
    DigitsPerLimbMonotone(radix1, b);
    TableWidths(radix1);
    ParsedDigits(b);
    hide DigitsPerLimb, AtodMaxDigits, DtoaMaxDigits, MaxExponent, MinExponent, Groups, RadixSplit;
    GroupsAtMost(if p >= d then p - d else d - p, 44, DigitsPerLimb(radix1));
  }

  lemma AppendedAtMost(radix1: Radix, s: nat, n: nat, e: int)
    requires LimbGroups(n, radix1) <= 44 && e <= 971
    ensures AppendedBits(radix1, s, n, true, e) / 32 <= 44
  {
    hide LimbGroups;
    var l := LimbGroups(n, radix1);
    assert n * s >= 0 by { MulLower(0, n, s, 0); }
  }

  /** Converting a candidate back stays within DBIGNUM_LEN_MAX limbs too. */
  lemma ConvertBackRoom(b: Radix, radix1: nat, s: nat, p: nat, d0: int, d: int, e: int, len: nat)
    requires RadixSplit(b, radix1, s) && radix1 <= 36 && LogBracket(b, e, d0) && d0 <= d <= d0 + 1
    requires 0 < p <= DtoaMaxDigits(b) && -1073 <= e <= 1024 && len <= 2
    ensures ToDoubleLimbs(len, radix1, s, d - p) <= DBIGNUM_LEN_MAX
  {
    ExponentRange(b, e, d0);
    RadixSplitElim(b, radix1, s);
    if radix1 >= 2 {
      OddRadix(b, radix1, s);
      RadixDigitsFit(b);
      DigitsPerLimbMonotone(radix1, b);
      TableWidths(radix1);
      ParsedDigits(b);
      hide DigitsPerLimb, AtodMaxDigits, DtoaMaxDigits, MaxExponent, MinExponent, Groups, RadixSplit;
      if d - p >= 0 {
        GroupsAtMost(d - p, 44, DigitsPerLimb(radix1));
      } else {
        GroupsAtMost(p - d, 44, DigitsPerLimb(radix1));
        AppendedLimbs(LimbGroups(p - d, radix1));
      }
    }
  }

  // ----- one candidate -----

  lemma CandidateValue(m: nat, e: int, b: Radix, f: int)
    ensures ScaleBy(RadixValue(m as real, b, f), e - 53) == Product(PartsValue(m, e), RPow(b, f))
  {
    hide *;
    PartsProduct(m, e);
    RadixScaledProduct(RadixValue(m as real, b, f), m as real, b, f);
    var y, r, g := RadixValue(m as real, b, f), RPow(b, f), Exp2(e - 53);
    ScaledProductOf(y, e - 53);
    ProductAssoc(m as real, r, g);
    ProductAssoc(m as real, g, r);
    ProductAssoc(r, g, 1.0);
  }

  lemma ScaledProductOf(y: real, k: int)
    ensures ScaleBy(y, k) == Product(y, Exp2(k))
  {
    IsScaledElim(ScaleBy(y, k), y, k);
    hide Exp2, ScaleBy;
  }

  /** The mantissa with p digits at exponent d, as mul_pow_round computes it. */
  method ComputeCandidate(tmp: Mpb, m: nat, e: int, b: Radix, radix1: nat, s: nat, p: nat, d: int, ghost d0: int)
    returns (k: nat)
    requires tmp.Valid() && tmp.tab.Length == DBIGNUM_LEN_MAX && RadixSplit(b, radix1, s)
    requires P52 <= m < P53 && -1073 <= e <= 1024 && LogBracket(b, e, d0) && d0 <= d <= d0 + 1
    requires 0 < p <= DtoaMaxDigits(b)
    modifies tmp, tmp.tab
    ensures tmp.Valid() && Candidate(PartsValue(m, e), b, p, d, tmp.V())
    ensures tmp.V() < BASE * BASE ==> k == tmp.V()
  {
    hide Value, BasePow, Pow, RPow, Exp2, RadixScaled, IsScaled, ScaleBy, RadixSplit, RoundsToInteger, LogBracket;
    hide RoundLimbs, RadixValue, PartsValue, Product;
    RadixSplitElim(b, radix1, s);
    SearchRoom(b, radix1, s, p, d0, d, e);
    ghost var y := RadixValue(m as real, b, p - d);
    MulPowRound(tmp, m, e - 53, radix1, s, p - d, RNDN, b, y, ScaleBy(y, e - 53));
    CandidateValue(m, e, b, p - d);
    k := tmp.GetU64();
  }

  /** The digits of x at exponent d, and why d is the estimate d0 or one more:
      k0 is the candidate that had too many digits. */
  ghost predicate IsMantissa(x: real, b: Radix, p: nat, d0: int, d: int, k: nat, k0: nat) {
    && Candidate(x, b, p, d, k) && p > 0 && Pow(b, p - 1) <= k < Pow(b, p)
    && (d == d0 || (d == d0 + 1 && Candidate(x, b, p, d0, k0) && k0 >= Pow(b, p)))
  }

  /** The inner loop: the exponent is raised at most once. */
  method FindMantissa(tmp: Mpb, m: nat, e: int, b: Radix, radix1: nat, s: nat, p: nat, d0: int)
    returns (mant: nat, d: int, ghost k0: nat)
    requires tmp.Valid() && tmp.tab.Length == DBIGNUM_LEN_MAX && RadixSplit(b, radix1, s)
    requires P52 <= m < P53 && -1073 <= e <= 1024 && LogBracket(b, e, d0) && 0 < p <= DtoaMaxDigits(b)
    modifies tmp, tmp.tab
    ensures tmp.Valid() && IsMantissa(PartsValue(m, e), b, p, d0, d, mant, k0)
  {
    hide *;
    var mantMax := PrintLimit(b, p);
    ghost var x := PartsValue(m, e);
    d := d0;
    k0 := 0;
    while true
      invariant tmp.Valid() && d0 <= d <= d0 + 1
      invariant d == d0 + 1 ==> Candidate(x, b, p, d0, k0) && k0 >= Pow(b, p)
      decreases d0 + 1 - d
    {
      mant := ComputeCandidate(tmp, m, e, b, radix1, s, p, d, d0);
      CandidateRange(x, m, e, b, p, d0, d, tmp.V(), k0);
      if mant < mantMax {
        MantissaIntro(x, b, p, d0, d, mant, k0);
        break;
      }
      k0 := mant;
      d := d + 1;
    }
  }

  /** pow_ui(radix, P), which always fits 64 bits. */
  method PrintLimit(b: Radix, p: nat) returns (limit: nat)
    requires p <= DtoaMaxDigits(b)
    ensures limit == Pow(b, p)
  {
    PrintedPower(b, p);
    hide Pow;
    limit := PowUi(b, p);
  }

  lemma CandidateRange(x: real, m: nat, e: int, b: Radix, p: nat, d0: int, d: int, k: nat, k0: nat)
    requires P52 <= m < P53 && x == PartsValue(m, e) && LogBracket(b, e, d0) && 0 < p <= DtoaMaxDigits(b)
    requires Candidate(x, b, p, d, k) && d0 <= d <= d0 + 1
    requires d == d0 + 1 ==> Candidate(x, b, p, d0, k0) && k0 >= Pow(b, p)
    ensures k < BASE * BASE && Pow(b, p - 1) <= k && (d == d0 + 1 ==> k < Pow(b, p))
  {
    PrintedPower(b, p);
    PowPositive(b, p);
    CandidateWithinHalf(x, b, p, d, k);
    hide Pow, Candidate, LogBracket, PartsValue, WithinHalf;
    if d == d0 {
      FirstCandidate(x, m, e, b, p, d, k);
    } else {
      CandidateWithinHalf(x, b, p, d0, k0);
      SecondCandidate(x, m, e, b, p, d0, k0, k);
    }
  }

  lemma MantissaIntro(x: real, b: Radix, p: nat, d0: int, d: int, k: nat, k0: nat)
    requires Candidate(x, b, p, d, k) && p > 0 && Pow(b, p - 1) <= k < Pow(b, p) && d0 <= d <= d0 + 1
    requires d == d0 + 1 ==> Candidate(x, b, p, d0, k0) && k0 >= Pow(b, p)
    ensures IsMantissa(x, b, p, d0, d, k, k0)
  {
  }

  // ----- trailing zeros -----

  /** mant has exactly p digits. */
  ghost predicate HasDigits(mant: nat, b: Radix, p: nat) {
    p > 0 && Pow(b, p - 1) <= mant < Pow(b, p)
  }

  /** Removing the trailing zero digits of a mantissa. */
  method StripZeros(mant0: nat, p0: nat, b: Radix) returns (mant: nat, p: nat)
    requires HasDigits(mant0, b, p0)
    ensures p <= p0 && HasDigits(mant, b, p) && mant % b != 0 && mant0 == mant * Pow(b, p0 - p)
  {
    hide Pow, HasDigits;
    mant, p := mant0, p0;
    PowZero(b);
    while mant % b == 0
      invariant p <= p0 && HasDigits(mant, b, p) && mant0 == mant * Pow(b, p0 - p)
      decreases p
    {
      StripOne(mant0, mant, b, p0, p);
      mant := mant / b;
      p := p - 1;
    }
  }

  lemma StripOne(mant0: nat, mant: nat, b: Radix, p0: nat, p: nat)
    requires p <= p0 && HasDigits(mant, b, p) && mant0 == mant * Pow(b, p0 - p) && mant % b == 0
    ensures p > 1 && HasDigits(mant / b, b, p - 1) && mant0 == (mant / b) * Pow(b, p0 - (p - 1))
  {
    hide Pow, HasDigits;
    assert mant == (mant / b) * b;
    StripQuotient(mant0, mant, mant / b, b, p0, p);
  }

  lemma StripQuotient(mant0: nat, mant: nat, q: nat, b: Radix, p0: nat, p: nat)
    requires p <= p0 && HasDigits(mant, b, p) && mant0 == mant * Pow(b, p0 - p) && mant == q * b
    ensures p > 1 && HasDigits(q, b, p - 1) && mant0 == q * Pow(b, p0 - (p - 1))
  {
    PowZero(b);
    PowPositive(b, p - 1);
    PowSucc(b, p0 - p);
    PowSucc(b, p - 1);
    if p > 1 {
      PowSucc(b, p - 2);
    }
    var lo := if p > 1 then Pow(b, p - 2) else 1;
    hide Pow;
    StripParts(mant, q, b, lo, Pow(b, p - 1), Pow(b, p0 - p), mant0);
  }

  lemma StripParts(mant: nat, q: nat, b: Radix, lo: nat, hi: nat, scale: nat, mant0: nat)
    requires 0 < mant && mant == q * b && mant0 == mant * scale
    ensures mant >= b && (mant < b * hi ==> q < hi) && (b * lo <= mant ==> lo <= q) && mant0 == q * (b * scale)
  {
    MulAssocInt(q, b, scale);
    if q >= hi {
      MulLower(hi, q, b, b);
    }
    if q < lo {
      ScaleBound(q, lo, b);
    }
    MulLower(1, q, b, b);
  }

  /** Trailing zeros moved to the exponent leave the value alone. */
  lemma StrippedValue(mant0: nat, mant: nat, b: Radix, k: nat, f: int)
    requires mant0 == mant * Pow(b, k)
    ensures RadixValue(mant as real, b, f + k) == RadixValue(mant0 as real, b, f)
  {
    hide *;
    RPowAdd(b, k, f);
    StrippedMantissa(mant0, mant, b, k);
    RadixScaledProduct(RadixValue(mant as real, b, f + k), mant as real, b, f + k);
    RadixScaledProduct(RadixValue(mant0 as real, b, f), mant0 as real, b, f);
    ProductAssoc(mant as real, RPow(b, k), RPow(b, f));
  }

  lemma StrippedMantissa(mant0: nat, mant: nat, b: Radix, k: nat)
    requires mant0 == mant * Pow(b, k)
    ensures mant0 as real == Product(mant as real, RPow(b, k))
  {
    RPowNat(b, k);
    CastProduct(mant, Pow(b, k));
    hide Pow, RPow;
  }

  // ----- converting back -----

  /** The check of a candidate: (m1, e1) == (m, e) exactly when it rounds back. */
  method ConvertsBack(tmp: Mpb, u: Bits, m: nat, e: int, b: Radix, radix1: nat, s: nat, mant: nat, p: nat, d: int,
                      ghost d0: int)
    returns (same: bool)
    requires tmp.Valid() && tmp.tab.Length == DBIGNUM_LEN_MAX && RadixSplit(b, radix1, s)
    requires Parts(u, m, e) && LogBracket(b, e, d0) && d0 <= d <= d0 + 1 && 0 < p <= DtoaMaxDigits(b)
    requires 0 < mant < Pow(b, p) && RadixValue(mant as real, b, d - p) >= RPow(b, d - 1)
    modifies tmp, tmp.tab
    ensures tmp.Valid() && (same <==> RoundsBack(mant, b, d - p, u))
  {
    hide *;
    PrintedPower(b, p);
    RadixSplitElim(b, radix1, s);
    SetMantissa(tmp, mant);
    PartsRange(u, m, e);
    ConvertBackRoom(b, radix1, s, p, d0, d, e, tmp.len);
    ghost var z := RadixValue(mant as real, b, d - p);
    ghost var x := ScaleBy(z, 1074);
    LargeEnough(b, e, d0, d, z, x);
    var m1, e1;
    ghost var y;
    m1, e1, y := MulPowRoundToD(tmp, radix1, s, d - p, RNDN, b, z, x);
    same := m1 == m && e1 == e;
    RoundsBackIs(mant, b, d - p, u);
    SameParts(u, m, e, m1, e1, y, x);
  }

  /** mpb_set_u64 on a bignum of full capacity. */
  method SetMantissa(tmp: Mpb, mant: nat)
    requires tmp.Valid() && tmp.tab.Length == DBIGNUM_LEN_MAX && mant < BASE * BASE
    modifies tmp, tmp.tab
    ensures tmp.Valid() && tmp.Normal() && tmp.V() == mant && tmp.len <= 2
  {
    tmp.SetU64(mant);
  }

  lemma PartsRange(u: Bits, m: nat, e: int)
    requires Parts(u, m, e)
    ensures -1073 <= e <= 1024 && P52 <= m < P53
  {
  }

  lemma RoundsBackIs(mant: nat, b: Radix, f: int, u: Bits)
    ensures RoundsBack(mant, b, f, u)
       <==> Rounds(ScaleBy(RadixValue(mant as real, b, f), 1074), Magnitude(u), ModeDirection(RNDN))
    ensures ModeDirection(RNDN) == NearEven
  {
  }

  lemma LargeEnough(b: Radix, e: int, d0: int, d: int, z: real, x: real)
    requires LogBracket(b, e, d0) && d0 <= d && -1073 <= e && z >= RPow(b, d - 1) && x == ScaleBy(z, 1074)
    ensures 1024.0 * x >= 1.0
  {
    hide RPow, Exp2, ScaleBy;
    RPowMonotone(b, d0 - 1, d - 1);
    RPowSucc(b, d0 - 1);
    Exp2Monotone(-1074, e - 1);
    SmallRadix(b, RPow(b, d0 - 1), RPow(b, d0), Exp2(-1074));
    Exp2Add(6, -1080);
    assert Exp2(6) == 64.0 by { SixtyFour(); }
    UnitsAtLeast(x, z, -1080);
    SixtyFour();
    Exp2Monotone(-10, -6);
  }

  lemma SixtyFour()
    ensures Exp2(6) == 64.0 && Exp2(-10) == 1.0 / 1024.0
  {
  }

  lemma SmallRadix(b: Radix, r: real, s: real, g: real)
    requires s == Product(b as real, r) && g < s && r > 0.0
    ensures g < 64.0 * r
  {
    MulMono(b as real, 64.0, r);
  }

  /** Equal parts mean equal magnitudes, and only those. */
  lemma SameParts(u: Bits, m: nat, e: int, m1: nat, e1: int, y: nat, x: real)
    requires Parts(u, m, e) && Denotes(m1, e1, y) && Rounds(x, y, NearEven)
    ensures m1 == m && e1 == e <==> Rounds(x, Magnitude(u), NearEven)
  {
    hide *;
    PartsDenote(u, m, e);
    if Rounds(x, Magnitude(u), NearEven) {
      RoundsUnique(x, y, Magnitude(u), NearEven);
      DenotesUnique(m, e, m1, e1, y);
    }
    if m1 == m && e1 == e {
      DenotedOnce(m, e, y, Magnitude(u));
    }
  }

  lemma PartsDenote(u: Bits, m: nat, e: int)
    requires Parts(u, m, e)
    ensures m > 0 && Denotes(m, e, Magnitude(u))
  {
  }

  lemma DenotedOnce(m: nat, e: int, y: nat, z: nat)
    requires Denotes(m, e, y) && Denotes(m, e, z) && m > 0
    ensures y == z
  {
    if e < -1021 {
      MulCancel(y, z, Pow2(-1021 - e));
    }
  }

  lemma DenotesUnique(m: nat, e: int, m1: nat, e1: int, y: nat)
    requires Denotes(m, e, y) && Denotes(m1, e1, y) && m > 0
    ensures m1 == m && e1 == e
  {
    DenotesPositive(m, e, y);
    hide Pow2, Exp2;
    if m1 != 0 {
      DenotesScaled(m, e, y);
      DenotesScaled(m1, e1, y);
      NormalExponent(m, e, m1, e1, y as real);
      NormalExponent(m1, e1, m, e, y as real);
      ScaleOrderBack(m, m1, e + 1021, y as real);
    }
  }

  lemma DenotesPositive(m: nat, e: int, y: nat)
    requires Denotes(m, e, y) && m > 0
    ensures y > 0
  {
    if e >= -1021 {
      MulLower(1, m, Pow2(e + 1021), 1);
    }
  }

  lemma NormalExponent(m: nat, e: int, m1: nat, e1: int, y: real)
    requires P52 <= m < P53 && P52 <= m1 < P53 && IsScaled(y, m as real, e + 1021) && IsScaled(y, m1 as real, e1 + 1021)
    ensures e <= e1
  {
    IsScaledElim(y, m as real, e + 1021);
    IsScaledElim(y, m1 as real, e1 + 1021);
    Exp2Succ(e1 + 1021);
    hide Exp2;
    if e1 < e {
      Exp2Monotone(e1 + 1022, e + 1021);
      var g, h := Exp2(e1 + 1021), Exp2(e + 1021);
      LargerScale(m as real, m1 as real, g, h);
    }
  }

  lemma LargerScale(m: real, m1: real, g: real, h: real)
    requires h >= 2.0 * g && g > 0.0 && m1 < 2.0 * m && m > 0.0
    ensures m1 * g < m * h
  {
    MulStrict(m1, 2.0 * m, g);
    MulMono(2.0 * g, h, m);
    assert (2.0 * m) * g == m * (2.0 * g);
  }

  lemma ScaleOrderBack(m: nat, m1: nat, k: int, y: real)
    requires IsScaled(y, m as real, k) && IsScaled(y, m1 as real, k)
    ensures m == m1
  {
    hide IsScaled, Exp2;
    ScaleOrder(y, y, m as real, m1 as real, k);
  }

  // ----- the significand and exponent of the number -----

  /** The start of js_dtoa: u = m * 2^(e - 53) with a full significand. */
  method PartsOf(u: Bits) returns (m: nat, e: int)
    requires IsFinite(u) && !IsZero(u)
    ensures Parts(u, m, e)
  {
    hide Pow2, Clz64;
    e := ExponentOf(u);
    m := FractionOf(u);
    if e == 0 {
      SubnormalShiftBounds(m);
      var l: int := Clz64(m) - 11;
      e := e - (l - 1);
      m := m * Pow2(l);
    } else {
      m := m + P52;
    }
    e := e - 1022;
  }

  // ----- the search -----

  /** The candidate with p digits does not convert back to u. */
  ghost predicate FailsAt(u: Bits, b: Radix, p: nat) {
    exists m: nat, e: int, d0: int, d: int, k: nat, k0: nat :: FailedMantissa(u, m, e, b, p, d0, d, k, k0)
  }

  ghost predicate FailedMantissa(u: Bits, m: nat, e: int, b: Radix, p: nat, d0: int, d: int, k: nat, k0: nat) {
    && Parts(u, m, e) && LogBracket(b, e, d0) && IsMantissa(PartsValue(m, e), b, p, d0, d, k, k0)
    && !RoundsBack(k, b, d - p, u)
  }

  /** A mantissa without trailing zeros whose value rounds to u. */
  ghost predicate Identifies(u: Bits, b: Radix, mant: nat, p: nat, d: int) {
    && p <= DtoaMaxDigits(b) && HasDigits(mant, b, p) && mant % b != 0
    && RoundsBack(mant, b, d - p, u)
  }

  /** mant with p digits is the correctly rounded mantissa of u with some digit
      count, without its trailing zeros. */
  ghost predicate CorrectlyRounded(u: Bits, b: Radix, mant: nat, p: nat, d: int) {
    exists m: nat, e: int, d0: int, q: nat, k: nat, k0: nat :: RoundedFrom(u, b, mant, p, d, m, e, d0, q, k, k0)
  }

  ghost predicate RoundedFrom(u: Bits, b: Radix, mant: nat, p: nat, d: int, m: nat, e: int, d0: int, q: nat,
                              k: nat, k0: nat)
  {
    && Parts(u, m, e) && LogBracket(b, e, d0) && IsMantissa(PartsValue(m, e), b, q, d0, d, k, k0)
    && p <= q && k == mant * Pow(b, q - p)
  }

  /** One try of the search: the candidate with p digits, stripped, and whether
      it rounds back.  With `unchecked` it has dtoa_max_digits digits and is
      accepted as it is. */
  method TryDigits(tmp: Mpb, u: Bits, m: nat, e: int, b: Radix, radix1: nat, s: nat, p: nat, d0: int, unchecked: bool)
    returns (same: bool, mant: nat, q: nat, d: int)
    requires tmp.Valid() && tmp.tab.Length == DBIGNUM_LEN_MAX && RadixSplit(b, radix1, s)
    requires Parts(u, m, e) && LogBracket(b, e, d0) && 0 < p <= DtoaMaxDigits(b)
    requires unchecked ==> p == DtoaMaxDigits(b)
    modifies tmp, tmp.tab
    ensures tmp.Valid() && 0 < q <= p && (unchecked ==> same) && d0 <= d <= d0 + 1
    ensures if same then Identifies(u, b, mant, q, d) && CorrectlyRounded(u, b, mant, q, d) else FailsAt(u, b, p)
  {
    hide *;
    PartsRange(u, m, e);
    var k;
    ghost var k0;
    k, d, k0 := FindMantissa(tmp, m, e, b, radix1, s, p, d0);
    MantissaSize(PartsValue(m, e), b, p, d0, d, k, k0);
    mant, q := StripZeros(k, p, b);
    StrippedValue(k, mant, b, p - q, d - p);
    DigitsPositive(mant, b, q);
    assert d - p + (p - q) == d - q;
    if unchecked {
      same := true;
      AcceptedUnchecked(u, m, e, b, p, d0, d, k, k0);
    } else {
      same := ConvertsBack(tmp, u, m, e, b, radix1, s, mant, q, d, d0);
    }
    SameRoundsBack(k, p, mant, q, b, d, u);
    if same {
      IdentifiesIntro(u, b, mant, q, d, p);
      RoundedIntro(u, b, mant, q, d, m, e, d0, p, k, k0);
    } else {
      FailsIntro(u, m, e, b, p, d0, d, k, k0);
    }
  }

  lemma DigitsPositive(mant: nat, b: Radix, p: nat)
    requires HasDigits(mant, b, p)
    ensures p > 0 && 0 < mant < Pow(b, p)
  {
    PowPositive(b, p - 1);
  }

  lemma MantissaSize(x: real, b: Radix, p: nat, d0: int, d: int, k: nat, k0: nat)
    requires IsMantissa(x, b, p, d0, d, k, k0)
    ensures HasDigits(k, b, p) && d0 <= d <= d0 + 1
    ensures RadixValue(k as real, b, d - p) >= RPow(b, d - 1)
  {
    PowPositive(b, p - 1);
    RPowNat(b, p - 1);
    RPowAdd(b, p - 1, d - p);
    RadixScaledProduct(RadixValue(k as real, b, d - p), k as real, b, d - p);
    hide Pow, RPow, Product, RadixValue, Candidate;
    ProductMono(RPow(b, p - 1), k as real, RPow(b, d - p));
  }

  lemma AcceptedUnchecked(u: Bits, m: nat, e: int, b: Radix, p: nat, d0: int, d: int, k: nat, k0: nat)
    requires Parts(u, m, e) && LogBracket(b, e, d0) && IsMantissa(PartsValue(m, e), b, p, d0, d, k, k0)
    requires p == DtoaMaxDigits(b)
    ensures RoundsBack(k, b, d - p, u)
  {
    PrintedPower(b, p);
    hide Pow, Candidate, LogBracket, PartsValue, RoundsBack, Parts, DtoaMaxDigits;
    if d == d0 {
      FirstCandidateRoundsBack(u, m, e, b, p, d0, k);
    } else {
      SecondCandidateRoundsBack(u, m, e, b, p, d0, k0, k);
    }
  }

  lemma SameRoundsBack(k: nat, p: nat, mant: nat, q: nat, b: Radix, d: int, u: Bits)
    requires RadixValue(mant as real, b, d - q) == RadixValue(k as real, b, d - p)
    ensures RoundsBack(mant, b, d - q, u) <==> RoundsBack(k, b, d - p, u)
  {
    hide RadixValue, Rounds, ScaleBy;
  }

  lemma IdentifiesIntro(u: Bits, b: Radix, mant: nat, q: nat, d: int, p: nat)
    requires q <= p <= DtoaMaxDigits(b) && HasDigits(mant, b, q) && mant % b != 0 && RoundsBack(mant, b, d - q, u)
    ensures Identifies(u, b, mant, q, d)
  {
  }

  lemma RoundedIntro(u: Bits, b: Radix, mant: nat, p: nat, d: int, m: nat, e: int, d0: int, q: nat, k: nat, k0: nat)
    requires Parts(u, m, e) && LogBracket(b, e, d0) && IsMantissa(PartsValue(m, e), b, q, d0, d, k, k0)
    requires p <= q && k == mant * Pow(b, q - p)
    ensures CorrectlyRounded(u, b, mant, p, d)
  {
    assert RoundedFrom(u, b, mant, p, d, m, e, d0, q, k, k0);
  }

  lemma FailsIntro(u: Bits, m: nat, e: int, b: Radix, p: nat, d0: int, d: int, k: nat, k0: nat)
    requires Parts(u, m, e) && LogBracket(b, e, d0) && IsMantissa(PartsValue(m, e), b, p, d0, d, k, k0)
    requires !RoundsBack(k, b, d - p, u)
    ensures FailsAt(u, b, p)
  {
    assert FailedMantissa(u, m, e, b, p, d0, d, k, k0);
  }

  /** The free-format search of js_dtoa: digits that identify u, with no
      trailing zero; one digit fewer fails, unless there is only one. */
  method FreeFormat(tmp: Mpb, u: Bits, m: nat, e: int, b: Radix, radix1: nat, s: nat, d0: int)
    returns (mant: nat, p: nat, d: int)
    requires tmp.Valid() && tmp.tab.Length == DBIGNUM_LEN_MAX && RadixSplit(b, radix1, s)
    requires Parts(u, m, e) && LogBracket(b, e, d0)
    modifies tmp, tmp.tab
    ensures tmp.Valid() && tmp.Normal() && tmp.V() == mant
    ensures Identifies(u, b, mant, p, d) && CorrectlyRounded(u, b, mant, p, d) && p > 0 && d0 <= d <= d0 + 1
    ensures p == 1 || FailsAt(u, b, p - 1)
  {
    hide *;
    PrintedPower(b, 0);
    var q, found := DtoaMaxDigits(b), false;
    mant, p, d := 0, 0, 0;
    while true
      invariant tmp.Valid() && 0 < q <= DtoaMaxDigits(b)
      invariant if found then q == p - 1 && d0 <= d <= d0 + 1 else q == DtoaMaxDigits(b)
      invariant found ==> Identifies(u, b, mant, p, d) && CorrectlyRounded(u, b, mant, p, d)
      decreases q
    {
      var same, k, n, d1 := TryDigits(tmp, u, m, e, b, radix1, s, q, d0, !found);
      if !same {
        break;
      }
      found, mant, p, d := true, k, n, d1;
      if p == 1 {
        break;
      }
      q := p - 1;
    }
    IdentifiesSmall(u, b, mant, p, d);
    SetMantissa(tmp, mant);
  }

  lemma IdentifiesSmall(u: Bits, b: Radix, mant: nat, p: nat, d: int)
    requires Identifies(u, b, mant, p, d)
    ensures p <= DtoaMaxDigits(b) && HasDigits(mant, b, p) && 0 < p && mant < BASE * BASE
  {
    PrintedPower(b, p);
    hide Pow, RoundsBack;
  }

  lemma TempLength()
    ensures DBIGNUM_LEN_MAX == 52
  {
  }

  /** The estimate of js_dtoa for the exponent. */
  lemma EstimateBrackets(b: Radix, e: int, d0: int)
    requires -1073 <= e <= 1024 && d0 == 1 + MulLog2Radix(e - 1, b)
    ensures LogBracket(b, e, d0)
  {
    hide LogBracket, MulLog2Radix;
    MulLog2RadixIsFloor(b, e - 1);
    assert e - 1 + 1 == e;
  }
}
