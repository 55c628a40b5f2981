/** js_dtoa as a whole: its three formats, the layouts of their digits, and the
    length that js_dtoa_max_len promises. */
module NumberPrinting {
  import opened MachineWords
  import opened PowersOfTwo
  import opened Rounding
  import opened Binary64
  import opened StickyBits
  import opened RadixPowers
  import opened RadixTables
  import opened Bignum
  import opened RadixScaling
  import opened RadixReals
  import opened RadixLogarithm
  import opened DigitSearch
  import opened Atod
  import opened FreeFormatSearch
  import opened DigitOutput
  import opened FractionFormat
  import opened FixedFormat
  import opened IntegerText
  import opened NumberLayout
  import opened PrintedLength
  import opened WholeNumbers

  // ----- what is printed -----

  /** What a ghost result of js_dtoa says about the digits it printed. */
  datatype Shown = Special | Number(mant: nat, p: nat, d: int) | Fraction(k: nat, i: nat)

  function SignText(u: Bits, minusZero: bool): (s: string)
    ensures |s| <= 1
  {
    if SignOf(u) == 1 && (minusZero || !IsZero(u)) then "-" else ""
  }

  /** The number of digits shown for zero. */
  function ZeroDigits(fmt: Format, n: nat): nat {
    match fmt
    case Free => 1
    case Frac => n + 1
    case Fixed => n
  }

  function LayoutOf(fmt: Format, b: Radix, n: nat, mode: ExponentMode, mant: nat, p: nat, d: int): string
    requires p > 0
  {
    Layout(DigitString(mant, b, p), b, d, mode, LargestPlain(fmt, b, n))
  }

  /** Correctly rounded digits that identify u, without trailing zeros. */
  ghost predicate IsFree(u: Bits, b: Radix, mant: nat, p: nat, d: int) {
    p > 0 && Identifies(u, b, mant, p, d) && CorrectlyRounded(u, b, mant, p, d)
  }

  ghost predicate IsFixedOf(u: Bits, n: nat, k: nat, d: int) {
    exists m: nat, e: int, d0: int, k0: nat :: FixedWith(u, n, k, d, m, e, d0, k0)
  }

  ghost predicate FixedWith(u: Bits, n: nat, k: nat, d: int, m: nat, e: int, d0: int, k0: nat) {
    Parts(u, m, e) && LogBracket(10, e, d0) && IsFixed(PartsValue(m, e), 10, n, d0, d, k, k0)
  }

  /** text, after the sign, shows the finite nonzero number u. */
  ghost predicate ShowsNumber(text: string, u: Bits, b: Radix, n: nat, fmt: Format, mode: ExponentMode, shown: Shown) {
    match fmt
    case Free => shown.Number? && IsFree(u, b, shown.mant, shown.p, shown.d)
                 && text == LayoutOf(Free, b, n, mode, shown.mant, shown.p, shown.d)
    case Fixed => shown.Number? && shown.p == n > 0 && IsFixedOf(u, n, shown.mant, shown.d)
                  && text == LayoutOf(Fixed, b, n, mode, shown.mant, shown.p, shown.d)
    case Frac => shown.Fraction? && ScaledAndRounded(u, b, n, shown.k) && IsFraction(text, shown.k, b, shown.i, n)
  }

  /** text shows u. */
  ghost predicate Shows(text: string, u: Bits, b: Radix, n: nat, fmt: Format, mode: ExponentMode, minusZero: bool,
                        shown: Shown)
  {
    var sign := SignText(u, minusZero);
    if IsNaN(u) then text == "NaN"
    else if IsInfinite(u) then text == sign + "Infinity"
    else if IsZero(u) then
      ZeroDigits(fmt, n) > 0 && text == sign + LayoutOf(fmt, b, n, mode, 0, ZeroDigits(fmt, n), 1)
    else
      |sign| <= |text| && text[..|sign|] == sign && ShowsNumber(text[|sign|..], u, b, n, fmt, mode, shown)
  }

  // ----- room -----

  /** A subnormal u, rounded half away to n digits, reaches 10^(s - 318). */
  predicate FixedFits(u: Bits, n: nat, s: nat)
    requires s <= 1
  {
    2 * Magnitude(u) * Pow(10, n + 318 - s) >= (2 * Pow(10, n) - 1) * Pow2(1074)
  }

  /** Where js_dtoa_max_len is not enough for a text with s sign characters:
      small positional subnormals in the fixed format, and zero with an exponent
      and more than a few digits in the fraction format. */
  predicate MaxLenTooSmall(u: Bits, n: nat, fmt: Format, mode: ExponentMode, s: nat)
    requires s <= 1
  {
    || (fmt == Fixed && mode == ExpDisabled && ExponentOf(u) == 0 && !IsZero(u) && !FixedFits(u, n, s))
    || (fmt == Frac && mode == ExpEnabled && IsZero(u) && n + s > 4)
  }

  /** The length that the text, with s sign characters, stays within. */
  function TextLimit(u: Bits, b: Radix, n: nat, fmt: Format, mode: ExponentMode, s: nat): int
    requires s <= 1
  {
    if MaxLenTooSmall(u, n, fmt, mode, s) then n + 1100 else JsDtoaMaxLen(u, b, n, fmt, mode)
  }

  lemma LimitAtLeast(u: Bits, b: Radix, n: nat, fmt: Format, mode: ExponentMode, s: nat)
    requires s <= 1 && (ExponentOf(u) == EXP_MASK || IsZero(u))
    ensures TextLimit(u, b, n, fmt, mode, s) >= 9
  {
    hide MulLog2Radix, FixedFits;
  }

  /** Zero, sign included. */
  lemma ZeroFits(u: Bits, b: Radix, n: nat, fmt: Format, mode: ExponentMode, s: nat)
    requires s <= 1 && IsZero(u) && (fmt == Fixed ==> n > 0)
    ensures s + LayoutLength(ZeroDigits(fmt, n), b, 1, mode, LargestPlain(fmt, b, n)) <=
            TextLimit(u, b, n, fmt, mode, s)
    ensures PrintedExponent(b, 1) == 0
  {
    assert PrintedExponent(b, 1) == 0;
    assert NumeralLength(0, 10) == 1;
    hide MulLog2Radix, NumeralLength, PrintedExponent, FractionMaxLen, DtoaMaxDigits, FixedFits;
    PrintedPower(b, 0);
    if fmt == Frac {
      ShortestMaxLen(u, b, n);
    }
  }

  /** Nonzero numbers in the free and fixed formats, sign included. */
  lemma NumberFits(u: Bits, m: nat, e: int, b: Radix, n: nat, fmt: Format, mode: ExponentMode, p: nat, d: int, s: nat)
    requires Parts(u, m, e) && 1 + MulLog2Radix(e - 1, b) <= d <= 2 + MulLog2Radix(e - 1, b) && fmt != Frac && s <= 1
    requires fmt == Free ==> 0 < p <= DtoaMaxDigits(b) && (p == 1 || FailsAt(u, b, p - 1))
    requires fmt == Fixed ==> p == n > 0 && b == 10 && (FixedFits(u, n, s) ==> d >= s - 317)
    ensures s + LayoutLength(p, b, d, mode, LargestPlain(fmt, b, n)) <= TextLimit(u, b, n, fmt, mode, s)
    ensures Absolute(PrintedExponent(b, d)) < 10000
  {
    hide *;
    var d0 := 1 + MulLog2Radix(e - 1, b);
    PartsExponents(u, m, e, b, d0);
    ExponentFits(b, e, d0, d);
    var most, eMax := if fmt == Free then DtoaMaxDigits(b) else n, LargestPlain(fmt, b, n);
    LargestPlainIs(fmt, b, n);
    if mode != ExpDisabled {
      ScientificFits(p, most, b, d, mode, eMax);
      ScientificLimit(u, b, n, fmt, mode, most, s);
    } else if ExponentOf(u) != 0 {
      PlainFits(p, most, b, e, d, eMax);
      PlainLimit(u, b, n, fmt, mode, most, s);
    } else if fmt == Free {
      SubnormalFits(u, m, e, b, p, d, eMax);
      PlainLimit(u, b, n, fmt, mode, most, s);
    } else {
      PositionalLength(p, b, d, eMax);
      SubnormalExponents(u, m, e, d);
      SubnormalLimit(u, n, s);
    }
  }

  lemma PartsExponents(u: Bits, m: nat, e: int, b: Radix, d0: int)
    requires Parts(u, m, e) && d0 == 1 + MulLog2Radix(e - 1, b)
    ensures -1073 <= e <= 1024 && LogBracket(b, e, d0) && !IsZero(u) && ExponentOf(u) != EXP_MASK
    ensures ExponentOf(u) != 0 ==> -1021 <= e && ExponentOf(u) - 1023 - 1 == e - 2
  {
    PartsRange(u, m, e);
    PartsExponent(u, m, e);
    EstimateBrackets(b, e, d0);
    NonzeroParts(u, m, e);
    hide MulLog2Radix, LogBracket, Parts;
  }

  lemma LargestPlainIs(fmt: Format, b: Radix, n: nat)
    requires fmt != Frac
    ensures LargestPlain(fmt, b, n) <= (if fmt == Free then DtoaMaxDigits(b) else n) + 4
  {
  }

  lemma ScientificLimit(u: Bits, b: Radix, n: nat, fmt: Format, mode: ExponentMode, most: nat, s: nat)
    requires s <= 1 && fmt != Frac && mode != ExpDisabled && most == if fmt == Free then DtoaMaxDigits(b) else n
    ensures most + 8 <= TextLimit(u, b, n, fmt, mode, s)
  {
    hide DtoaMaxDigits, MulLog2Radix, FixedFits;
  }

  lemma PlainLimit(u: Bits, b: Radix, n: nat, fmt: Format, mode: ExponentMode, most: nat, s: nat)
    requires s <= 1 && fmt != Frac && mode == ExpDisabled && most == if fmt == Free then DtoaMaxDigits(b) else n
    requires ExponentOf(u) != EXP_MASK && (fmt == Free || ExponentOf(u) != 0)
    ensures most + 10 + Absolute(MulLog2Radix(ExponentOf(u) - 1023 - 1, b)) <= TextLimit(u, b, n, fmt, mode, s)
  {
    hide DtoaMaxDigits, MulLog2Radix;
  }

  lemma SubnormalLimit(u: Bits, n: nat, s: nat)
    requires s <= 1 && ExponentOf(u) == 0 && !IsZero(u)
    ensures TextLimit(u, 10, n, Fixed, ExpDisabled, s) == n + if FixedFits(u, n, s) then 319 else 1100
  {
    hide FixedFits, JsDtoaMaxLen;
    FixedLimitIs(u, n);
  }

  lemma SubnormalExponents(u: Bits, m: nat, e: int, d: int)
    requires Parts(u, m, e) && ExponentOf(u) == 0 && d <= 2 + MulLog2Radix(e - 1, 10)
    ensures d <= 1
  {
    PartsRange(u, m, e);
    PartsExponent(u, m, e);
    hide Parts, MulLog2Radix;
    EstimateSign(10, e - 1);
  }

  lemma NonzeroParts(u: Bits, m: nat, e: int)
    requires Parts(u, m, e)
    ensures !IsZero(u) && IsFinite(u)
  {
    MagnitudeZero(u);
    PartsDenote(u, m, e);
    hide Magnitude;
  }

  // ----- the branches of js_dtoa -----

  /** memcpy of a literal */
  method PutText(buf: array<char>, off: nat, ghost start: nat, s: string) returns (next: nat)
    requires start <= off && off + |s| <= buf.Length
    modifies buf
    ensures next == off + |s| && buf[start..next] == old(buf[start..off]) + s && buf[..start] == old(buf[..start])
  {
    ghost var t := buf[start..off];
    next := off;
    var i := 0;
    while i < |s|
      invariant 0 <= i <= |s| && next == off + i
      invariant buf[start..next] == t + s[..i] && buf[..start] == old(buf[..start])
    {
      next := PutChar(buf, next, start, s[i]);
      i := i + 1;
    }
    assert s[..i] == s;
  }

  method PrintZero(buf: array<char>, off: nat, tmp: Mpb, u: Bits, b: Radix, n: nat, fmt: Format, mode: ExponentMode)
    returns (next: nat)
    requires tmp.Valid() && tmp.Normal() && tmp.V() == 0 && IsZero(u) && (fmt == Fixed ==> n > 0) && off <= 1
    requires buf.Length > TextLimit(u, b, n, fmt, mode, off)
    modifies buf, tmp, tmp.tab
    ensures ZeroDigits(fmt, n) > 0 && off < next <= TextLimit(u, b, n, fmt, mode, off)
    ensures buf[off..next] == LayoutOf(fmt, b, n, mode, 0, ZeroDigits(fmt, n), 1) && buf[..off] == old(buf[..off])
  {
    hide *;
    ZeroFits(u, b, n, fmt, mode, off);
    SmallWord();
    ZeroShown(fmt, n);
    var p := ZeroDigits(fmt, n);
    LayoutHasLength(DigitString(0, b, p), b, 1, mode, LargestPlain(fmt, b, n));
    LayoutIs(fmt, b, n, mode, 0, p, 1);
    next := WriteNumber(buf, off, tmp, b, p, 1, mode, LargestPlain(fmt, b, n));
  }

  lemma ZeroShown(fmt: Format, n: nat)
    requires fmt == Fixed ==> n > 0
    ensures ZeroDigits(fmt, n) > 0
  {
  }

  lemma SmallWord()
    ensures 10000 < TWO32 && Absolute(0) == 0
  {
  }

  lemma LayoutIs(fmt: Format, b: Radix, n: nat, mode: ExponentMode, mant: nat, p: nat, d: int)
    requires p > 0
    ensures LayoutOf(fmt, b, n, mode, mant, p, d) ==
            Layout(DigitString(mant, b, p), b, d, mode, LargestPlain(fmt, b, n))
    ensures LayoutLength(p, b, d, mode, LargestPlain(fmt, b, n)) > 0
  {
  }

  /** The layout of the digits in tmp. */
  method PrintDigits(buf: array<char>, off: nat, tmp: Mpb, u: Bits, m: nat, e: int, b: Radix, n: nat,
                     fmt: Format, mode: ExponentMode, p: nat, d: int)
    returns (next: nat)
    requires tmp.Valid() && tmp.Normal() && off <= 1 && buf.Length > TextLimit(u, b, n, fmt, mode, off)
    requires Parts(u, m, e) && 1 + MulLog2Radix(e - 1, b) <= d <= 2 + MulLog2Radix(e - 1, b) && fmt != Frac
    requires fmt == Free ==> 0 < p <= DtoaMaxDigits(b) && (p == 1 || FailsAt(u, b, p - 1))
    requires fmt == Fixed ==> p == n > 0 && b == 10 && (FixedFits(u, n, off) ==> d >= off - 317)
    modifies buf, tmp, tmp.tab
    ensures p > 0 && off < next <= TextLimit(u, b, n, fmt, mode, off)
    ensures buf[off..next] == LayoutOf(fmt, b, n, mode, old(tmp.V()), p, d) && buf[..off] == old(buf[..off])
  {
    hide *;
    NumberFits(u, m, e, b, n, fmt, mode, p, d, off);
    SmallWord();
    LayoutHasLength(DigitString(tmp.V(), b, p), b, d, mode, LargestPlain(fmt, b, n));
    LayoutIs(fmt, b, n, mode, tmp.V(), p, d);
    next := WriteNumber(buf, off, tmp, b, p, d, mode, LargestPlain(fmt, b, n));
  }

  /** The free format. */
  method PrintFree(buf: array<char>, off: nat, tmp: Mpb, u: Bits, m: nat, e: int, b: Radix, n: nat, mode: ExponentMode,
                   d0: int)
    returns (next: nat, ghost shown: Shown)
    requires tmp.Valid() && tmp.tab.Length == DBIGNUM_LEN_MAX && off <= 1 &&
             buf.Length > TextLimit(u, b, n, Free, mode, off)
    requires Parts(u, m, e) && d0 == 1 + MulLog2Radix(e - 1, b)
    modifies buf, tmp, tmp.tab
    ensures off < next <= TextLimit(u, b, n, Free, mode, off) && buf[..off] == old(buf[..off])
    ensures ShowsNumber(buf[off..next], u, b, n, Free, mode, shown)
  {
    hide *;
    PartsRange(u, m, e);
    EstimateBrackets(b, e, d0);
    SplitOf(b);
    var mant, p, d := FreeFormat(tmp, u, m, e, b, OddPart(b), Ctz32(b), d0);
    IdentifiesSmall(u, b, mant, p, d);
    next := PrintDigits(buf, off, tmp, u, m, e, b, n, Free, mode, p, d);
    shown := Number(mant, p, d);
    FreeIntro(u, b, mant, p, d);
    FreeShown(buf[off..next], u, b, n, mode, mant, p, d);
  }

  lemma FreeIntro(u: Bits, b: Radix, mant: nat, p: nat, d: int)
    requires p > 0 && Identifies(u, b, mant, p, d) && CorrectlyRounded(u, b, mant, p, d)
    ensures IsFree(u, b, mant, p, d)
  {
  }

  lemma FreeShown(text: string, u: Bits, b: Radix, n: nat, mode: ExponentMode, mant: nat, p: nat, d: int)
    requires p > 0 && IsFree(u, b, mant, p, d) && text == LayoutOf(Free, b, n, mode, mant, p, d)
    ensures ShowsNumber(text, u, b, n, Free, mode, Number(mant, p, d))
  {
  }

  /** The shift of the fast path: the whole number, when it is one. */
  method WholePart(m: nat, e: int) returns (whole: bool, v: nat)
    requires P52 <= m < P53
    ensures whole <==> exists w: nat :: IsWhole(m, e, w)
    ensures whole ==> IsWhole(m, e, v)
  {
    hide Pow2;
    whole, v := false, 0;
    if 1 <= e <= 53 {
      var p := Pow2(53 - e);
      whole, v := m % p == 0, m / p;
      WholeShift(m, e, p);
    }
  }

  lemma WholeShift(m: nat, e: int, p: nat)
    requires 1 <= e <= 53 && p == Pow2(53 - e)
    ensures m % p == 0 ==> IsWhole(m, e, m / p)
    ensures forall w: nat :: IsWhole(m, e, w) ==> m % p == 0
  {
    hide Pow2;
    assert m == m / p * p + m % p;
    forall w: nat | IsWhole(m, e, w)
      ensures m % p == 0
    {
      DivModUnique(m, p, w, 0);
    }
  }

  /** The fast path: a whole number below 2^53 without an exponent. */
  method PrintWhole(buf: array<char>, off: nat, u: Bits, m: nat, e: int, b: Radix, n: nat, mode: ExponentMode, v: nat)
    returns (next: nat, ghost shown: Shown)
    requires off <= 1 && buf.Length > TextLimit(u, b, n, Free, mode, off) && mode != ExpEnabled
    requires Parts(u, m, e) && IsWhole(m, e, v)
    modifies buf
    ensures off < next <= TextLimit(u, b, n, Free, mode, off) && buf[..off] == old(buf[..off])
    ensures ShowsNumber(buf[off..next], u, b, n, Free, mode, shown)
  {
    hide *;
    ghost var k, p, d := WholeFacts(u, m, e, b, n, mode, v);
    FreeLimitIs(u, b, n, mode, off);
    var len := U64toaRadix(buf, off, v, b);
    next := off + len;
    shown := Number(k, p, d);
    FreeShown(buf[off..next], u, b, n, mode, k, p, d);
  }

  lemma WholeFacts(u: Bits, m: nat, e: int, b: Radix, n: nat, mode: ExponentMode, v: nat)
    returns (k: nat, p: nat, d: int)
    requires Parts(u, m, e) && IsWhole(m, e, v) && mode != ExpEnabled
    ensures v < TWO64 && p > 0 && IsFree(u, b, k, p, d)
    ensures NumeralText(v, b) == LayoutOf(Free, b, n, mode, k, p, d)
    ensures 0 < NumeralLength(v, b) && 1 + NumeralLength(v, b) <= JsDtoaMaxLen(u, b, n, Free, mode)
  {
    PartsRange(u, m, e);
    WholeValue(m, e, v);
    SmallerThanWord();
    hide *;
    k, p, d := WholeDigitsExist(v, b);
    WholeDigitsElim(v, b, k, p, d);
    WholeIdentified(u, m, e, v, b, k, p, d);
    EstimateBrackets(b, e, 1 + MulLog2Radix(e - 1, b));
    WholeRounded(u, m, e, v, b, k, p, d, 1 + MulLog2Radix(e - 1, b));
    FreeIntro(u, b, k, p, d);
    FreeLimit(u, b, n, mode);
    WholeLayout(v, b, k, p, d, mode, LargestPlain(Free, b, n));
    LayoutIs(Free, b, n, mode, k, p, d);
  }

  lemma SmallerThanWord()
    ensures P53 < TWO64
  {
  }

  lemma FreeLimit(u: Bits, b: Radix, n: nat, mode: ExponentMode)
    ensures DtoaMaxDigits(b) <= LargestPlain(Free, b, n)
    ensures ExponentOf(u) != EXP_MASK ==> DtoaMaxDigits(b) + 8 <= JsDtoaMaxLen(u, b, n, Free, mode)
  {
    hide DtoaMaxDigits, MulLog2Radix;
  }

  lemma FreeLimitIs(u: Bits, b: Radix, n: nat, mode: ExponentMode, s: nat)
    requires s <= 1
    ensures TextLimit(u, b, n, Free, mode, s) == JsDtoaMaxLen(u, b, n, Free, mode)
  {
    hide JsDtoaMaxLen;
  }

  /** The fixed format. */
  method PrintFixed(buf: array<char>, off: nat, tmp: Mpb, u: Bits, m: nat, e: int, n: nat, mode: ExponentMode, d0: int)
    returns (next: nat, ghost shown: Shown)
    requires tmp.Valid() && tmp.tab.Length == DBIGNUM_LEN_MAX && off <= 1 &&
             buf.Length > TextLimit(u, 10, n, Fixed, mode, off)
    requires Parts(u, m, e) && d0 == 1 + MulLog2Radix(e - 1, 10) && 0 < n <= JS_DTOA_MAX_DIGITS
    modifies buf, tmp, tmp.tab
    ensures off < next <= TextLimit(u, 10, n, Fixed, mode, off) && buf[..off] == old(buf[..off])
    ensures ShowsNumber(buf[off..next], u, 10, n, Fixed, mode, shown)
  {
    hide *;
    PartsRange(u, m, e);
    EstimateBrackets(10, e, d0);
    var mantMax := FixedLimit(n);
    var d;
    ghost var k0;
    d, k0 := FixedMantissa(tmp, mantMax, m, e, n, d0);
    ghost var k := tmp.V();
    FixedExponent(PartsValue(m, e), n, d0, d, k, k0);
    FixedFitsIs(u, m, e, n, d0, d, k, k0, off);
    next := PrintDigits(buf, off, tmp, u, m, e, 10, n, Fixed, mode, n, d);
    shown := Number(k, n, d);
    FixedShown(buf[off..next], u, n, mode, k, d, m, e, d0, k0);
  }

  lemma FixedExponent(x: real, n: nat, d0: int, d: int, k: nat, k0: nat)
    requires IsFixed(x, 10, n, d0, d, k, k0)
    ensures d0 <= d <= d0 + 1
  {
  }

  lemma FixedShown(text: string, u: Bits, n: nat, mode: ExponentMode, k: nat, d: int, m: nat, e: int, d0: int, k0: nat)
    requires Parts(u, m, e) && LogBracket(10, e, d0) && IsFixed(PartsValue(m, e), 10, n, d0, d, k, k0) && n > 0
    requires text == LayoutOf(Fixed, 10, n, mode, k, n, d)
    ensures ShowsNumber(text, u, 10, n, Fixed, mode, Number(k, n, d))
  {
    assert FixedWith(u, n, k, d, m, e, d0, k0);
  }

  /** The fraction format. */
  method PrintFrac(buf: array<char>, off: nat, tmp: Mpb, u: Bits, m: nat, e: int, b: Radix, n: nat, mode: ExponentMode,
                   d0: int)
    returns (next: nat, ghost shown: Shown)
    requires tmp.Valid() && tmp.tab.Length == DBIGNUM_LEN_MAX && off <= 1 &&
             buf.Length > TextLimit(u, b, n, Frac, mode, off)
    requires Parts(u, m, e) && d0 == 1 + MulLog2Radix(e - 1, b) && n <= JS_DTOA_MAX_DIGITS
    modifies buf, tmp, tmp.tab
    ensures off < next <= TextLimit(u, b, n, Frac, mode, off) && buf[..off] == old(buf[..off])
    ensures ShowsNumber(buf[off..next], u, b, n, Frac, mode, shown)
  {
    hide *;
    PartsExponents(u, m, e, b, d0);
    FracLimit(u, m, e, b, n, mode, off);
    ghost var k, i;
    next, k, i := PrintFraction(buf, off, tmp, u, m, e, b, n, d0);
    shown := Fraction(k, i);
    FracShown(buf[off..next], u, b, n, mode, k, i);
  }

  lemma FracLimit(u: Bits, m: nat, e: int, b: Radix, n: nat, mode: ExponentMode, s: nat)
    requires s <= 1 && Parts(u, m, e)
    ensures 1 + Greatest(MulLog2Radix(e - 1, b) + 2, 1) + n + 1 <= TextLimit(u, b, n, Frac, mode, s)
  {
    PartsExponent(u, m, e);
    NonzeroParts(u, m, e);
    FractionFits(u, m, e, b, n);
    hide Parts, FractionMaxLen, MulLog2Radix;
  }

  lemma FracShown(text: string, u: Bits, b: Radix, n: nat, mode: ExponentMode, k: nat, i: nat)
    requires ScaledAndRounded(u, b, n, k) && IsFraction(text, k, b, i, n)
    ensures ShowsNumber(text, u, b, n, Frac, mode, Fraction(k, i))
  {
  }

  /** A finite nonzero number after its sign. */
  method PrintNumber(buf: array<char>, off: nat, u: Bits, b: Radix, n: nat, fmt: Format, mode: ExponentMode)
    returns (next: nat, ghost shown: Shown)
    requires IsFinite(u) && !IsZero(u) && off <= 1 && buf.Length > TextLimit(u, b, n, fmt, mode, off)
    requires n <= JS_DTOA_MAX_DIGITS && (fmt == Fixed ==> b == 10 && n > 0)
    modifies buf
    ensures off < next <= TextLimit(u, b, n, fmt, mode, off) && buf[..off] == old(buf[..off])
    ensures ShowsNumber(buf[off..next], u, b, n, fmt, mode, shown)
  {
    hide *;
    var m, e := PartsOf(u);
    PartsRange(u, m, e);
    if fmt == Free && mode != ExpEnabled {
      var whole, v := WholePart(m, e);
      if whole {
        next, shown := PrintWhole(buf, off, u, m, e, b, n, mode, v);
        return;
      }
    }
    var tmp := new Mpb(52);
    TempLength();
    var d0 := 1 + MulLog2Radix(e - 1, b);
    match fmt {
      case Free => next, shown := PrintFree(buf, off, tmp, u, m, e, b, n, mode, d0);
      case Frac => next, shown := PrintFrac(buf, off, tmp, u, m, e, b, n, mode, d0);
      case Fixed => next, shown := PrintFixed(buf, off, tmp, u, m, e, n, mode, d0);
    }
  }

  /** NaN and the infinities. */
  method PrintSpecial(buf: array<char>, u: Bits, minusZero: bool) returns (len: nat)
    requires ExponentOf(u) == EXP_MASK && buf.Length > 9
    modifies buf
    ensures len <= 9 && buf[..len] == if IsNaN(u) then "NaN" else SignText(u, minusZero) + "Infinity"
  {
    len := 0;
    assert buf[0..0] == "";
    if FractionOf(u) == 0 {
      if SignOf(u) == 1 {
        len := PutChar(buf, 0, 0, '-');
      }
      len := PutText(buf, len, 0, "Infinity");
    } else {
      len := PutText(buf, 0, 0, "NaN");
    }
    assert buf[0..len] == buf[..len];
  }

  method PrintSignedZero(buf: array<char>, u: Bits, b: Radix, n: nat, fmt: Format, mode: ExponentMode, minusZero: bool)
    returns (len: nat)
    requires IsZero(u) && (fmt == Fixed ==> n > 0)
    requires buf.Length > TextLimit(u, b, n, fmt, mode, |SignText(u, minusZero)|)
    modifies buf
    ensures ZeroDigits(fmt, n) > 0 && len <= TextLimit(u, b, n, fmt, mode, |SignText(u, minusZero)|)
    ensures buf[..len] == SignText(u, minusZero) + LayoutOf(fmt, b, n, mode, 0, ZeroDigits(fmt, n), 1)
  {
    hide TextLimit, LayoutOf, ExponentOf, FractionOf, SignOf, ZeroDigits;
    LimitAtLeast(u, b, n, fmt, mode, |SignText(u, minusZero)|);
    var tmp := new Mpb(52);
    len := 0;
    assert buf[0..0] == "";
    if SignOf(u) == 1 && minusZero {
      len := PutChar(buf, 0, 0, '-');
    }
    var off := len;
    len := PrintZero(buf, off, tmp, u, b, n, fmt, mode);
    assert buf[..len] == buf[..off] + buf[off..len];
  }

  /** js_dtoa: the text of any binary64, and exactly when it stays within the
      length that js_dtoa_max_len promises. */
  method JsDtoa(buf: array<char>, u: Bits, b: Radix, n: nat, fmt: Format, mode: ExponentMode, minusZero: bool)
    returns (len: nat, ghost shown: Shown)
    requires n <= JS_DTOA_MAX_DIGITS && (fmt == Fixed ==> b == 10 && n > 0)
    requires buf.Length > TextLimit(u, b, n, fmt, mode, |SignText(u, minusZero)|)
    modifies buf
    ensures len < buf.Length && len <= TextLimit(u, b, n, fmt, mode, |SignText(u, minusZero)|)
    ensures len <= JsDtoaMaxLen(u, b, n, fmt, mode) <==> !MaxLenTooSmall(u, n, fmt, mode, |SignText(u, minusZero)|)
    ensures Shows(buf[..len], u, b, n, fmt, mode, minusZero, shown)
  {
    hide TextLimit, MaxLenTooSmall, JsDtoaMaxLen, LayoutOf, ShowsNumber, ExponentOf, FractionOf, SignOf, ZeroDigits;
    ghost var s := |SignText(u, minusZero)|;
    shown := Special;
    len := 0;
    assert buf[0..0] == "";
    if ExponentOf(u) == EXP_MASK {
      LimitAtLeast(u, b, n, fmt, mode, s);
      len := PrintSpecial(buf, u, minusZero);
    } else if IsZero(u) {
      len := PrintSignedZero(buf, u, b, n, fmt, mode, minusZero);
    } else {
      LimitPositive(u, b, n, fmt, mode, s);
      if SignOf(u) == 1 {
        len := PutChar(buf, 0, 0, '-');
      }
      var off := len;
      len, shown := PrintNumber(buf, off, u, b, n, fmt, mode);
      assert buf[..len][..off] == buf[..off] && buf[..len][off..] == buf[off..len];
    }
    assert buf[0..len] == buf[..len];
    LengthExact(buf[..len], u, b, n, fmt, mode, minusZero, shown);
  }

  lemma LimitPositive(u: Bits, b: Radix, n: nat, fmt: Format, mode: ExponentMode, s: nat)
    requires s <= 1
    ensures TextLimit(u, b, n, fmt, mode, s) > 0
  {
    hide MulLog2Radix, FixedFits;
  }

  // ----- where js_dtoa_max_len is too small -----

  /** js_dtoa_max_len is enough except where MaxLenTooSmall says. */
  lemma LengthExact(text: string, u: Bits, b: Radix, n: nat, fmt: Format, mode: ExponentMode, minusZero: bool,
                    shown: Shown)
    requires Shows(text, u, b, n, fmt, mode, minusZero, shown) && (fmt == Fixed ==> b == 10)
    requires |text| <= TextLimit(u, b, n, fmt, mode, |SignText(u, minusZero)|)
    ensures |text| <= JsDtoaMaxLen(u, b, n, fmt, mode) <==> !MaxLenTooSmall(u, n, fmt, mode, |SignText(u, minusZero)|)
  {
    hide Shows, JsDtoaMaxLen, FixedFits, SignText, IsZero;
    if fmt == Fixed && mode == ExpDisabled && ExponentOf(u) == 0 && !IsZero(u) {
      FixedSubnormalLength(text, u, n, minusZero, shown);
    } else if fmt == Frac && mode == ExpEnabled && IsZero(u) {
      ZeroFractionLength(text, u, b, n, minusZero, shown);
    }
  }

  /** Zero with an exponent in the fraction format: exactly when it fits. */
  lemma ZeroFractionLength(text: string, u: Bits, b: Radix, n: nat, minusZero: bool, shown: Shown)
    requires IsZero(u) && Shows(text, u, b, n, Frac, ExpEnabled, minusZero, shown)
    ensures |text| <= JsDtoaMaxLen(u, b, n, Frac, ExpEnabled) <==> n + |SignText(u, minusZero)| <= 4
  {
    assert PrintedExponent(b, 1) == 0 && NumeralLength(0, 10) == 1;
    LayoutHasLength(DigitString(0, b, n + 1), b, 1, ExpEnabled, LargestPlain(Frac, b, n));
    hide Layout, DigitString, MulLog2Radix, LargestPlain, NumeralLength;
  }

  /** Positional subnormals in the fixed format: exactly when they fit. */
  lemma FixedSubnormalLength(text: string, u: Bits, n: nat, minusZero: bool, shown: Shown)
    requires ExponentOf(u) == 0 && !IsZero(u) && Shows(text, u, 10, n, Fixed, ExpDisabled, minusZero, shown)
    ensures |text| <= JsDtoaMaxLen(u, 10, n, Fixed, ExpDisabled) <==> FixedFits(u, n, |SignText(u, minusZero)|)
  {
    hide *;
    FixedTextLength(text, u, n, minusZero, shown);
    FixedShownOf(text, u, n, minusZero, shown);
    FixedLimitIs(u, n);
    FixedFitsOf(u, n, shown.mant, shown.d, |SignText(u, minusZero)|);
  }

  lemma FixedFitsOf(u: Bits, n: nat, k: nat, d: int, s: nat)
    requires s <= 1 && IsFixedOf(u, n, k, d)
    ensures FixedFits(u, n, s) <==> d >= s - 317
  {
    hide FixedFits, Parts, LogBracket, IsFixed, PartsValue;
    var m: nat, e: int, d0: int, k0: nat :| FixedWith(u, n, k, d, m, e, d0, k0);
    FixedFitsIs(u, m, e, n, d0, d, k, k0, s);
  }

  /** The comparison of integers decides the printed exponent. */
  lemma FixedFitsIs(u: Bits, m: nat, e: int, n: nat, d0: int, d: int, k: nat, k0: nat, s: nat)
    requires s <= 1 && Parts(u, m, e) && LogBracket(10, e, d0) && IsFixed(PartsValue(m, e), 10, n, d0, d, k, k0)
    ensures FixedFits(u, n, s) <==> d >= s - 317
  {
    hide *;
    PartsRange(u, m, e);
    var x, f := PartsValue(m, e), n + 318 - s;
    PartsBounds(m, e);
    BracketUpper(10, e, d0);
    FixedReach(x, 10, n, d0, d, k, k0, s - 318);
    assert n - (s - 318) == f;
    UnitsReach(u, m, e, n, f);
    FixedFitsDef(u, n, s);
  }

  lemma UnitsReach(u: Bits, m: nat, e: int, n: nat, f: nat)
    requires Parts(u, m, e)
    ensures Product(PartsValue(m, e), RPow(10, f)) >= Pow(10, n) as real - 0.5
       <==> 2 * Magnitude(u) * Pow(10, f) >= (2 * Pow(10, n) - 1) * Pow2(1074)
  {
    hide *;
    PartsUnits(u, m, e);
    RPowNat(10, f);
    ScaledProductOf(PartsValue(m, e), 1074);
    Exp2InverseProduct(1074);
    Reaches(PartsValue(m, e), RPow(10, f), Exp2(1074), Magnitude(u), Pow(10, f), Pow(10, n), Pow2(1074));
  }

  lemma FixedFitsDef(u: Bits, n: nat, s: nat)
    requires s <= 1
    ensures FixedFits(u, n, s) <==> 2 * Magnitude(u) * Pow(10, n + 318 - s) >= (2 * Pow(10, n) - 1) * Pow2(1074)
  {
    hide Magnitude, Pow, Pow2;
  }

  /** x * p >= q - 1/2, in units of 1/g. */
  lemma Reaches(x: real, r: real, h: real, y: nat, p: nat, q: nat, g: nat)
    requires Product(x, h) == y as real && r == p as real && h == g as real > 0.0
    ensures Product(x, r) >= q as real - 0.5 <==> 2 * y * p >= (2 * q - 1) * g
  {
    ProductMono(q as real - 0.5, Product(x, r), h);
    SwapFactors(x, r, h);
    CastProduct(y, p);
    CastProduct(2 * q - 1, g);
    var w, v := q as real - 0.5, (2 * q - 1) as real;
    assert v == 2.0 * w;
    DoubledProduct(w, h);
    assert 2 * y * p == 2 * (y * p);
    assert Product(v, h) == ((2 * q - 1) * g) as real;
    assert Product(y as real, r) == (y * p) as real;
  }

  lemma SwapFactors(x: real, r: real, h: real)
    ensures Product(Product(x, r), h) == Product(Product(x, h), r)
  {
    ProductAssoc(x, r, h);
    ProductAssoc(x, h, r);
    ProductAssoc(r, h, 1.0);
  }

  lemma DoubledProduct(w: real, h: real)
    ensures Product(2.0 * w, h) == 2.0 * Product(w, h)
  {
    ProductAssoc(2.0, w, h);
  }

  lemma FixedLimitIs(u: Bits, n: nat)
    requires ExponentOf(u) == 0
    ensures JsDtoaMaxLen(u, 10, n, Fixed, ExpDisabled) == n + 319
  {
    hide MulLog2Radix;
    TenEstimates();
  }

  lemma TenEstimates()
    ensures MulLog2Radix(-1024, 10) == -309 && MulLog2Radix(-1074, 10) == -324
  {
    TenParts();
    hide OddPart, Ctz32;
  }

  lemma FixedTextLength(text: string, u: Bits, n: nat, minusZero: bool, shown: Shown)
    requires ExponentOf(u) == 0 && !IsZero(u) && Shows(text, u, 10, n, Fixed, ExpDisabled, minusZero, shown)
    ensures shown.Number? && |text| == |SignText(u, minusZero)| + 2 + n - shown.d
  {
    hide FixedWith, SignText, Layout, DigitString;
    var m: nat, e: int, d0: int, k0: nat :| FixedWith(u, n, shown.mant, shown.d, m, e, d0, k0);
    SubnormalExponent(u, n, shown.mant, shown.d, m, e, d0, k0);
    LayoutHasLength(DigitString(shown.mant, 10, n), 10, shown.d, ExpDisabled, n);
    PositionalLength(n, 10, shown.d, n);
    hide LayoutLength;
  }

  lemma SubnormalExponent(u: Bits, n: nat, k: nat, d: int, m: nat, e: int, d0: int, k0: nat)
    requires ExponentOf(u) == 0 && FixedWith(u, n, k, d, m, e, d0, k0)
    ensures d <= 0
  {
    PartsExponent(u, m, e);
    FixedExponent(PartsValue(m, e), n, d0, d, k, k0);
    BracketUpper(10, e, d0);
    assert Exp2(-7) == 1.0 / 128.0 && RPow(10, -2) == 1.0 / 100.0;
    hide *;
    Exp2Monotone(e - 1, -7);
    RPowStrict(10, d0 - 1, -2);
  }

  /** The smallest subnormal never fits. */
  lemma SmallestSubnormalTooLong(text: string, n: nat, minusZero: bool, shown: Shown)
    requires Shows(text, 1, 10, n, Fixed, ExpDisabled, minusZero, shown)
    ensures |text| > JsDtoaMaxLen(1, 10, n, Fixed, ExpDisabled)
  {
    hide Shows, IsFixedOf, SignText, JsDtoaMaxLen;
    FixedTextLength(text, 1, n, minusZero, shown);
    FixedLimitIs(1, n);
    FixedShownOf(text, 1, n, minusZero, shown);
    SmallestFixed(n, shown.mant, shown.d);
  }

  lemma FixedShownOf(text: string, u: Bits, n: nat, minusZero: bool, shown: Shown)
    requires ExponentOf(u) == 0 && !IsZero(u) && Shows(text, u, 10, n, Fixed, ExpDisabled, minusZero, shown)
    ensures shown.Number? && IsFixedOf(u, n, shown.mant, shown.d)
  {
    hide IsFixedOf, Layout, DigitString, SignText;
  }

  lemma SmallestFixed(n: nat, k: nat, d: int)
    requires IsFixedOf(1, n, k, d)
    ensures d <= -322
  {
    hide FixedWith;
    var m: nat, e: int, d0: int, k0: nat :| FixedWith(1, n, k, d, m, e, d0, k0);
    SmallestExponent(n, k, d, m, e, d0, k0);
  }

  lemma SmallestExponent(n: nat, k: nat, d: int, m: nat, e: int, d0: int, k0: nat)
    requires FixedWith(1, n, k, d, m, e, d0, k0)
    ensures d <= -322
  {
    FixedExponent(PartsValue(m, e), n, d0, d, k, k0);
    BracketUpper(10, e, d0);
    hide *;
    SmallestParts(m, e);
    TenEstimates();
    MulLog2RadixIsFloor(10, -1074);
    FloorElim(10, -1074);
    RPowStrict(10, d0 - 1, -323);
  }

  lemma SmallestParts(m: nat, e: int)
    requires Parts(1, m, e)
    ensures Exp2(e - 1) <= Exp2(-1074)
  {
    PartsRange(1, m, e);
    PartsUnits(1, m, e);
    PartsBounds(m, e);
    SmallestMagnitude();
    hide *;
    UnitsOrder(PartsValue(m, e), Exp2(e - 1));
  }

  lemma SmallestMagnitude()
    ensures Magnitude(1) == 1
  {
  }

  lemma UnitsOrder(x: real, g: real)
    requires ScaleBy(x, 1074) == 1 as real && g <= x
    ensures g <= Exp2(-1074)
  {
    hide Exp2;
    ScaledProductOf(x, 1074);
    Exp2InverseProduct(1074);
    ProductCancel(x, Exp2(-1074), Exp2(1074));
  }
}
