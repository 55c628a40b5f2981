/** What a printed number looks like: when it has an exponent, where its dot
    stands, how zero is written.  Said of the text and of the number it shows. */
module NumberStyle {
  import opened PowersOfTwo
  import opened Binary64
  import opened StickyBits
  import opened RadixPowers
  import opened RadixTables
  import opened RadixScaling
  import opened RadixReals
  import opened RadixLogarithm
  import opened DigitSearch
  import opened Digits
  import opened Atod
  import opened FreeFormatSearch
  import opened DigitOutput
  import opened FractionFormat
  import opened FixedFormat
  import opened IntegerText
  import opened NumberLayout
  import opened PrintedLength
  import opened NumberPrinting
  import opened NumberScan
  import opened NumberGrammar
  import opened NumberReading

  /** The number that the digits mant show, with p digits and exponent d. */
  ghost function ShownValue(mant: nat, b: Radix, p: nat, d: int): real {
    RadixValue(mant as real, b, d - p)
  }

  /** The mark of an exponent: e, or p for the radices 2, 4, 8 and 16, or @. */
  function MarkOf(b: Radix): char {
    if b == 10 then 'e' else if b == 2 || b == 4 || b == 8 || b == 16 then 'p' else '@'
  }

  /** The powers of the radix from which on, and below which, numbers get an
      exponent in automatic mode: above, n digits in the fixed format (as in
      Number.prototype.toPrecision), 21 decimal digits in free format. */
  function LargestPower(fmt: Format, b: Radix, n: nat): nat {
    if fmt == Fixed then n else if b == 10 then 21 else DtoaMaxDigits(b) + 4
  }

  ghost predicate WantsExponent(v: real, b: Radix, n: nat, fmt: Format, mode: ExponentMode) {
    match mode
    case ExpEnabled => true
    case ExpDisabled => false
    case ExpAuto => v < RPow(b, -6) || v >= RPow(b, LargestPower(fmt, b, n))
  }

  // ----- values and exponents -----

  /** p digits at exponent d lie between two powers of the radix. */
  lemma ShownBetween(mant: nat, b: Radix, p: nat, d: int)
    requires HasDigits(mant, b, p)
    ensures RPow(b, d - 1) <= ShownValue(mant, b, p, d) < RPow(b, d)
  {
    hide RPow, RadixScaled, RadixValue;
    var v := ShownValue(mant, b, p, d);
    assert RadixScaled(v, mant as real, b, d - p);
    LowerPower(v, mant as real, b, d - p, p - 1, d - 1);
    UpperPower(v, mant as real, b, d - p, p, d);
  }

  /** So comparing the number with a power compares the exponents. */
  lemma ShownReaches(mant: nat, b: Radix, p: nat, d: int, k: int)
    requires HasDigits(mant, b, p)
    ensures ShownValue(mant, b, p, d) >= RPow(b, k) <==> d > k
  {
    ShownBetween(mant, b, p, d);
    hide *;
    if d > k {
      RPowMonotone(b, k, d - 1);
    } else {
      RPowMonotone(b, d, k);
    }
  }

  lemma WantsIff(mant: nat, b: Radix, p: nat, d: int, n: nat, fmt: Format, mode: ExponentMode)
    requires HasDigits(mant, b, p) && fmt != Frac
    ensures UsesExponent(mode, d, LargestPlain(fmt, b, n)) <==>
            WantsExponent(ShownValue(mant, b, p, d), b, n, fmt, mode)
  {
    ShownReaches(mant, b, p, d, -6);
    ShownReaches(mant, b, p, d, LargestPower(fmt, b, n));
    hide HasDigits, ShownValue, RPow;
  }

  lemma MarkIsMark(b: Radix)
    ensures ExponentMark(b) == MarkOf(b) && (BinaryExponent(b) <==> b == 2 || b == 4 || b == 8 || b == 16)
    ensures ToDigit(MarkOf(b)) >= b && MarkOf(b) != '.' && MarkOf(b) != '-' && MarkOf(b) != '+'
  {
    PowerMarks(b);
    hide OddPart, Ctz32;
  }

  // ----- the layouts, character by character -----

  /** Digits, and a dot behind the first. */
  lemma DottedChars(ds: string, b: Radix)
    requires |ds| > 0 && IsDigitText(ds, b)
    ensures var m := WithDot(ds, 1);
            && |m| == (if |ds| == 1 then 1 else |ds| + 1)
            && (forall i :: 0 <= i < |m| && i != 1 ==> ToDigit(m[i]) < b) && (|ds| > 1 ==> m[1] == '.')
  {
    assert forall i :: 2 <= i < |WithDot(ds, 1)| ==> WithDot(ds, 1)[i] == ds[i - 1];
  }

  /** A power of the radix, or, behind the mark p, of two. */
  function PrintedPower(power: int, b: Radix): nat {
    var bits := if b == 4 then 2 else if b == 8 then 3 else if b == 16 then 4 else 1;
    Absolute(power) * (if MarkOf(b) == 'p' then bits else 1)
  }

  /** t is written with an exponent: one digit, the others after a dot, the mark,
      a sign, and a decimal number without superfluous zeros, which tells the
      power of the radix (of two, for the mark p) of the first digit. */
  ghost predicate WithExponent(t: string, b: Radix, p: nat, v: real, power: int) {
    var k := if p == 1 then 1 else p + 1;
    && |t| > k + 2 && t[k] == MarkOf(b) && t[k + 1] == (if v < 1.0 then '-' else '+')
    && (forall i :: 0 <= i < k && i != 1 ==> ToDigit(t[i]) < b) && (p > 1 ==> t[1] == '.')
    && IsDigitText(t[k + 2..], 10) && (t[k + 2] == '0' ==> |t| == k + 3)
    && RPow(b, power) <= v < RPow(b, power + 1)
    && DigitsValue(Decoded(t[k + 2..]), 10) == PrintedPower(power, b)
  }

  /** t is written without one: it starts with a digit, which is 0 when and only
      when the number is below 1; and if it has p - d digits after a dot, where
      the last of p digits stands, it has a dot. */
  ghost predicate WithoutExponent(t: string, b: Radix, p: nat, d: int, v: real) {
    && |t| > 0 && ToDigit(t[0]) < b && (t[0] == '0' <==> v < 1.0)
    && (forall i :: 0 <= i < |t| ==> ToDigit(t[i]) < b || (t[i] == '.' && d < p && i == |t| - 1 - (p - d)))
    && (d < p ==> |t| > p - d && t[|t| - 1 - (p - d)] == '.')
    && (v < 1.0 ==> |t| > 1 && t[1] == '.')
  }

  lemma ScientificChars(ds: string, b: Radix, d: int, v: real)
    requires |ds| > 0 && IsDigitText(ds, b) && RPow(b, d - 1) <= v < RPow(b, d)
    ensures WithExponent(WithDot(ds, 1) + ExponentText(b, d), b, |ds|, v, d - 1)
  {
    hide *;
    var e := NumeralText(Absolute(PrintedExponent(b, d)), 10);
    var c := if v < 1.0 then '-' else '+';
    SignOfExponent(b, d, v);
    ExponentTextIs(b, d);
    PowerText(b, d);
    var t := WithDot(ds, 1) + ExponentText(b, d);
    Placed(ds, b, MarkOf(b), c, e, t);
    ExponentIntro(t, b, |ds|, v, d - 1, e);
  }

  lemma ExponentTextIs(b: Radix, d: int)
    ensures var n := PrintedExponent(b, d);
            ExponentText(b, d) == [MarkOf(b)] + ([if n < 0 then '-' else '+'] + NumeralText(Absolute(n), 10))
  {
    MarkIsMark(b);
    hide NumeralText, PrintedExponent, ExponentMark, MarkOf;
  }

  lemma PowerText(b: Radix, d: int)
    ensures var e := NumeralText(Absolute(PrintedExponent(b, d)), 10);
            && |e| > 0 && IsDigitText(e, 10) && (e[0] == '0' ==> |e| == 1)
            && DigitsValue(Decoded(e), 10) == PrintedPower(d - 1, b)
  {
    var n := Absolute(PrintedExponent(b, d));
    NumeralIsDigits(n);
    NumeralValue(n, 10);
    MarkedPower(b, d);
    hide NumeralText, PrintedExponent, PrintedPower, DigitsValue, DigitsIn;
  }

  /** The parts of a text with an exponent. */
  lemma Placed(ds: string, b: Radix, c: char, s: char, e: string, t: string)
    requires |ds| > 0 && IsDigitText(ds, b) && |e| > 0 && t == WithDot(ds, 1) + ([c] + ([s] + e))
    ensures var k := if |ds| == 1 then 1 else |ds| + 1;
            && |t| == k + 2 + |e| && t[k] == c && t[k + 1] == s && t[k + 2..] == e
            && (forall i :: 0 <= i < k && i != 1 ==> ToDigit(t[i]) < b) && (|ds| > 1 ==> t[1] == '.')
  {
    DottedChars(ds, b);
    var m := WithDot(ds, 1);
    hide WithDot;
    assert t[|m| + 2..] == e;
    assert forall i :: 0 <= i < |m| ==> t[i] == m[i];
  }

  lemma ExponentIntro(t: string, b: Radix, p: nat, v: real, power: int, e: string)
    requires var k := if p == 1 then 1 else p + 1;
             && |t| == k + 2 + |e| && |e| > 0 && t[k] == MarkOf(b) && t[k + 1] == (if v < 1.0 then '-' else '+')
             && t[k + 2..] == e
             && (forall i :: 0 <= i < k && i != 1 ==> ToDigit(t[i]) < b) && (p > 1 ==> t[1] == '.')
    requires IsDigitText(e, 10) && (e[0] == '0' ==> |e| == 1) && RPow(b, power) <= v < RPow(b, power + 1)
    requires DigitsValue(Decoded(e), 10) == PrintedPower(power, b)
    ensures WithExponent(t, b, p, v, power)
  {
    hide MarkOf, RPow, DigitsValue, PrintedPower;
    var k := if p == 1 then 1 else p + 1;
    assert t[k + 2] == t[k + 2..][0];
  }

  lemma SignOfExponent(b: Radix, d: int, v: real)
    requires RPow(b, d - 1) <= v < RPow(b, d)
    ensures v < 1.0 <==> d <= 0
    ensures PrintedExponent(b, d) < 0 <==> d <= 0
  {
    hide *;
    OneIsPower(b);
    PrintedSign(b, d);
    if d <= 0 {
      RPowMonotone(b, d, 0);
    } else {
      RPowMonotone(b, 0, d - 1);
    }
  }

  lemma PrintedSign(b: Radix, d: int)
    ensures PrintedExponent(b, d) < 0 <==> d <= 0
  {
    PowerMarks(b);
    hide OddPart, Ctz32;
    if BinaryExponent(b) {
      SignOfProduct(d - 1, Ctz32(b));
    }
  }

  lemma OneIsPower(b: Radix)
    ensures RPow(b, 0) == 1.0
  {
    PowZero(b);
    hide Pow;
  }

  lemma SignOfProduct(x: int, s: nat)
    requires s > 0
    ensures x * s < 0 <==> x < 0
  {
  }

  lemma MarkedPower(b: Radix, d: int)
    ensures Absolute(PrintedExponent(b, d)) == PrintedPower(d - 1, b)
  {
    MarkIsMark(b);
    PowerShifts(b);
    hide OddPart, Ctz32, ExponentMark;
    var x, s := d - 1, Ctz32(b);
    if x < 0 {
      assert (0 - x) * s == 0 - x * s;
    }
    SignOfProductWeak(x, s);
  }

  lemma PowerShifts(b: Radix)
    ensures b == 2 ==> Ctz32(b) == 1
    ensures b == 4 ==> Ctz32(b) == 2
    ensures b == 8 ==> Ctz32(b) == 3
    ensures b == 16 ==> Ctz32(b) == 4
  {
    RadixParts(b);
    ShiftOf(b, OddPart(b), Ctz32(b));
    hide OddPart, Ctz32;
  }

  lemma ShiftOf(b: Radix, o: nat, k: nat)
    requires b == o * Pow2(k) && o % 2 == 1 && k <= 5
    ensures (b == 2 ==> k == 1) && (b == 4 ==> k == 2) && (b == 8 ==> k == 3) && (b == 16 ==> k == 4)
  {
    assert Pow2(0) == 1 && Pow2(1) == 2 && Pow2(2) == 4 && Pow2(3) == 8 && Pow2(4) == 16 && Pow2(5) == 32;
    hide Pow2;
    assert k == 0 || k == 1 || k == 2 || k == 3 || k == 4 || k == 5;
  }

  lemma SignOfProductWeak(x: int, s: nat)
    ensures x >= 0 ==> x * s >= 0
    ensures x <= 0 ==> x * s <= 0
  {
  }

  /** Below 1 the digits come after a zero, a dot and more zeros; from there on
      the dot stands among the digits, or is left out behind them. */
  lemma PlainChars(ds: string, b: Radix, d: int, v: real, mode: ExponentMode, eMax: int)
    requires |ds| > 0 && IsDigitText(ds, b) && ToDigit(ds[0]) > 0 && RPow(b, d - 1) <= v < RPow(b, d)
    requires !UsesExponent(mode, d, eMax)
    ensures WithoutExponent(Layout(ds, b, d, mode, eMax), b, |ds|, d, v)
  {
    SignOfExponent(b, d, v);
    hide RPow, UsesExponent;
    assert forall i :: 0 <= i < |ds| ==> ds[i] != '.';
    assert ds[0] != '0';
  }

  lemma FreeDigits(u: Bits, b: Radix, mant: nat, p: nat, d: int)
    requires IsFree(u, b, mant, p, d)
    ensures HasDigits(mant, b, p)
  {
    hide HasDigits, RoundsBack;
  }

  lemma FixedDigits(u: Bits, n: nat, k: nat, d: int)
    requires IsFixedOf(u, n, k, d)
    ensures HasDigits(k, 10, n)
  {
    hide Parts, LogBracket, FixedCandidate, PartsValue;
    var m: nat, e: int, d0: int, k0: nat :| FixedWith(u, n, k, d, m, e, d0, k0);
  }

  // ----- nonzero numbers in the free and fixed formats -----

  /** The sign of a nonzero number. */
  function MinusOf(u: Bits): string {
    if SignOf(u) == 1 then "-" else ""
  }

  lemma ShownParts(text: string, u: Bits, b: Radix, n: nat, fmt: Format, mode: ExponentMode, minusZero: bool,
                   shown: Shown)
    requires Shows(text, u, b, n, fmt, mode, minusZero, shown) && IsFinite(u) && !IsZero(u)
    requires fmt != Frac && (fmt == Fixed ==> b == 10)
    ensures shown.Number? && HasDigits(shown.mant, b, shown.p)
    ensures text == MinusOf(u) +
                    Layout(DigitString(shown.mant, b, shown.p), b, shown.d, mode, LargestPlain(fmt, b, n))
  {
    hide IsFixedOf, IsFree, Layout, DigitString, HasDigits, LargestPlain, ExponentOf, FractionOf, SignOf;
    assert text == MinusOf(u) + text[|MinusOf(u)|..];
    if fmt == Free {
      FreeDigits(u, b, shown.mant, shown.p, shown.d);
    } else {
      FixedDigits(u, n, shown.mant, shown.d);
    }
  }

  lemma MantissaText(mant: nat, b: Radix, p: nat)
    requires HasDigits(mant, b, p)
    ensures var ds := DigitString(mant, b, p); |ds| == p > 0 && IsDigitText(ds, b) && ToDigit(ds[0]) > 0
  {
    hide Pow, DigitString, DigitsValue, Mod, AreDigits;
    DigitStringValue(mant, b, p);
    var ds := DigitString(mant, b, p);
    SmallMod(mant, Pow(b, p));
    assert forall i :: 0 <= i < |ds| ==> Decoded(ds)[i] == ToDigit(ds[i]);
    AllBelow(Decoded(ds), b);
    if ToDigit(ds[0]) == 0 {
      ZeroFirst(Decoded(ds), b);
    }
  }

  lemma AllBelow(d: seq<nat>, b: Radix)
    requires AreDigits(d, b)
    ensures forall i :: 0 <= i < |d| ==> d[i] < b
  {
  }

  /** How a nonzero number is written, in the words of its value. */
  lemma NumberWritten(text: string, u: Bits, b: Radix, n: nat, fmt: Format, mode: ExponentMode, minusZero: bool,
                      shown: Shown)
    requires Shows(text, u, b, n, fmt, mode, minusZero, shown) && IsFinite(u) && !IsZero(u)
    requires fmt != Frac && (fmt == Fixed ==> b == 10)
    ensures shown.Number? && |MinusOf(u)| <= |text| && text[..|MinusOf(u)|] == MinusOf(u)
    ensures var t, v := text[|MinusOf(u)|..], ShownValue(shown.mant, b, shown.p, shown.d);
            if WantsExponent(v, b, n, fmt, mode) then WithExponent(t, b, shown.p, v, shown.d - 1)
            else WithoutExponent(t, b, shown.p, shown.d, v)
  {
    hide *;
    ShownParts(text, u, b, n, fmt, mode, minusZero, shown);
    var mant, k, d := shown.mant, shown.p, shown.d;
    var ds, v, eMax := DigitString(mant, b, k), ShownValue(mant, b, k, d), LargestPlain(fmt, b, n);
    MantissaText(mant, b, k);
    ShownBetween(mant, b, k, d);
    WantsIff(mant, b, k, d, n, fmt, mode);
    var t := Layout(ds, b, d, mode, eMax);
    assert text[|MinusOf(u)|..] == t;
    if UsesExponent(mode, d, eMax) {
      LayoutWithExponent(ds, b, d, mode, eMax);
      ScientificChars(ds, b, d, v);
    } else {
      PlainChars(ds, b, d, v, mode, eMax);
    }
  }

  lemma LayoutWithExponent(ds: string, b: Radix, d: int, mode: ExponentMode, eMax: int)
    requires |ds| > 0 && UsesExponent(mode, d, eMax)
    ensures Layout(ds, b, d, mode, eMax) == WithDot(ds, 1) + ExponentText(b, d)
  {
    hide ExponentText;
  }

  lemma MarkInside(t: string, b: Radix, k: nat, v: real, power: int)
    requires WithExponent(t, b, k, v, power)
    ensures MarkOf(b) in t
    ensures forall i :: 0 <= i < |t| && t[i] == MarkOf(b) ==> i + 1 < |t| && t[i + 1] == (if v < 1.0 then '-' else '+')
  {
    MarkIsMark(b);
    hide MarkOf, RPow, DigitsValue, PrintedPower, ExponentMark, BinaryExponent;
    var j := if k == 1 then 1 else k + 1;
    assert t[j] in t;
    forall i | 0 <= i < |t| && t[i] == MarkOf(b)
      ensures i == j
    {
      if i > j + 1 {
        assert t[i] == t[j + 2..][i - j - 2];
        NoDecimalMark(b);
      }
    }
  }

  lemma NoDecimalMark(b: Radix)
    ensures ToDigit(MarkOf(b)) >= 10
  {
  }

  lemma NoMarkInside(t: string, b: Radix, k: nat, d: int, v: real)
    requires WithoutExponent(t, b, k, d, v)
    ensures MarkOf(b) !in t
  {
    MarkIsMark(b);
    hide MarkOf, ExponentMark, BinaryExponent;
  }

  /** A printed number has the mark of an exponent exactly when its value is
      beyond the bounds, or when an exponent was asked for; the mark is followed
      by a sign, which tells whether the number is below 1. */
  lemma MarkInText(text: string, u: Bits, b: Radix, n: nat, fmt: Format, mode: ExponentMode, minusZero: bool,
                   shown: Shown)
    requires Shows(text, u, b, n, fmt, mode, minusZero, shown) && IsFinite(u) && !IsZero(u)
    requires fmt != Frac && (fmt == Fixed ==> b == 10)
    ensures shown.Number?
    ensures var v := ShownValue(shown.mant, b, shown.p, shown.d);
            && (MarkOf(b) in text <==> WantsExponent(v, b, n, fmt, mode))
            && forall i :: 0 <= i < |text| && text[i] == MarkOf(b) ==>
                 i + 1 < |text| && text[i + 1] == (if v < 1.0 then '-' else '+')
  {
    hide *;
    NumberWritten(text, u, b, n, fmt, mode, minusZero, shown);
    NoMarkInSign(u, b);
    var m, t := MinusOf(u), text[|MinusOf(u)|..];
    var v := ShownValue(shown.mant, b, shown.p, shown.d);
    assert text == m + t;
    if WantsExponent(v, b, n, fmt, mode) {
      MarkInside(t, b, shown.p, v, shown.d - 1);
    } else {
      NoMarkInside(t, b, shown.p, shown.d, v);
    }
    BehindSign(m, t, MarkOf(b), if v < 1.0 then '-' else '+');
  }

  lemma BehindSign(m: string, t: string, c: char, s: char)
    requires forall i :: 0 <= i < |m| ==> m[i] != c
    requires forall i :: 0 <= i < |t| && t[i] == c ==> i + 1 < |t| && t[i + 1] == s
    ensures c in m + t <==> c in t
    ensures forall i :: 0 <= i < |m + t| && (m + t)[i] == c ==> i + 1 < |m + t| && (m + t)[i + 1] == s
  {
    forall i | 0 <= i < |m + t| && (m + t)[i] == c
      ensures i + 1 < |m + t| && (m + t)[i + 1] == s
    {
      if i >= |m| {
        assert t[i - |m|] == c;
      }
    }
  }

  lemma NoMarkInSign(u: Bits, b: Radix)
    ensures forall i :: 0 <= i < |MinusOf(u)| ==> MinusOf(u)[i] != MarkOf(b)
  {
    MarkIsMark(b);
    hide MarkOf, ExponentMark, BinaryExponent;
  }

  /** Number.prototype.toString: an exponent below 10^-6 and from 10^21 on. */
  lemma DecimalExponents(text: string, u: Bits, n: nat, minusZero: bool, shown: Shown)
    requires Shows(text, u, 10, n, Free, ExpAuto, minusZero, shown) && IsFinite(u) && !IsZero(u)
    ensures shown.Number?
    ensures var v := ShownValue(shown.mant, 10, shown.p, shown.d);
            'e' in text <==> v < RPow(10, -6) || v >= RPow(10, 21)
  {
    hide Shows, RPow, IsFinite, IsZero, ShownValue;
    MarkInText(text, u, 10, n, Free, ExpAuto, minusZero, shown);
  }

  // ----- zero, fractions and words -----

  lemma {:induction false} ZeroDigitString(b: Radix, n: nat)
    ensures DigitString(0, b, n) == Zeros(n)
    decreases n
  {
    if n == 0 {
      DigitStringStart(0, b);
    } else {
      DigitStringStep(0, b, n - 1);
      assert Div(0, b) == 0 && Mod(0, b) == 0 && DigitChar(0) == '0';
      ZeroDigitString(b, n - 1);
      hide DigitString;
      assert Zeros(n) == Zeros(n - 1) + ['0'];
    }
  }

  /** The digits behind the dot of zero. */
  function ZeroFraction(fmt: Format, n: nat): int {
    match fmt
    case Free => 0
    case Fixed => n - 1
    case Frac => n
  }

  /** Zero has one digit in free format, n digits in the fixed format, and n
      digits behind the dot in the fraction format; its exponent, if one was
      asked for, is +0; its sign is shown if that was asked for. */
  lemma ZeroWritten(text: string, u: Bits, b: Radix, n: nat, fmt: Format, mode: ExponentMode, minusZero: bool,
                    shown: Shown)
    requires Shows(text, u, b, n, fmt, mode, minusZero, shown) && IsZero(u)
    ensures ZeroFraction(fmt, n) >= 0
    ensures text == (if minusZero && SignOf(u) == 1 then "-" else "")
                  + (if ZeroFraction(fmt, n) == 0 then "0" else "0." + Zeros(ZeroFraction(fmt, n)))
                  + (if mode == ExpEnabled then [MarkOf(b)] + "+0" else "")
  {
    var k := ZeroDigits(fmt, n);
    ZeroDigitString(b, k);
    ZeroExponent(b);
    NoExponentForZero(fmt, b, n);
    hide ExponentText, MarkOf, SignOf, LargestPlain, DigitString;
    if k == 1 {
      assert Zeros(1) == "0" && Zeros(1) + Zeros(0) == "0";
    } else {
      assert Zeros(k)[..1] == "0" && Zeros(k)[1..] == Zeros(k - 1);
      assert WithDot(Zeros(k), 1) == "0." + Zeros(k - 1);
    }
  }

  lemma ZeroExponent(b: Radix)
    ensures ExponentText(b, 1) == [MarkOf(b)] + "+0"
  {
    MarkIsMark(b);
    assert PrintedExponent(b, 1) == 0;
    ZeroDigitString(10, 1);
    assert NumeralText(0, 10) == "0";
    hide ExponentMark, MarkOf, NumeralText, PrintedExponent;
  }

  lemma NoExponentForZero(fmt: Format, b: Radix, n: nat)
    ensures (fmt == Fixed ==> n > 0) ==> LargestPlain(fmt, b, n) >= 1
  {
  }

  /** The fraction format: n digits behind the dot, all of the digits before it,
      and no mark. */
  lemma FractionWritten(text: string, u: Bits, b: Radix, n: nat, mode: ExponentMode, minusZero: bool, shown: Shown)
    requires Shows(text, u, b, n, Frac, mode, minusZero, shown) && IsFinite(u) && !IsZero(u)
    ensures shown.Fraction? && shown.i > 0 && ScaledAndRounded(u, b, n, shown.k)
    ensures |text| == |MinusOf(u)| + shown.i + (if n == 0 then 0 else n + 1)
    ensures text[..|MinusOf(u)|] == MinusOf(u) && (n > 0 ==> text[|MinusOf(u)| + shown.i] == '.')
    ensures var t := text[|MinusOf(u)|..];
            && (forall j :: 0 <= j < |t| && j != shown.i ==> ToDigit(t[j]) < b)
            && (t[0] == '0' ==> shown.i == 1)
            && DigitsValue(Decoded(t[..shown.i] + if n == 0 then "" else t[shown.i + 1..]), b) == shown.k
  {
    FractionShownOf(text, u, b, n, mode, minusZero, shown);
    hide *;
    var t, i, k := text[|MinusOf(u)|..], shown.i, shown.k;
    var ds := DigitString(k, b, i + n);
    FractionDigits(k, b, i, n);
    DotPlaced(ds, i, n, b);
    assert t == WithDot(ds, i) && |text| == |MinusOf(u)| + |t|;
    assert n > 0 ==> text[|MinusOf(u)| + i] == t[i];
  }

  lemma FractionShownOf(text: string, u: Bits, b: Radix, n: nat, mode: ExponentMode, minusZero: bool, shown: Shown)
    requires Shows(text, u, b, n, Frac, mode, minusZero, shown) && IsFinite(u) && !IsZero(u)
    ensures shown.Fraction? && shown.i > 0 && ScaledAndRounded(u, b, n, shown.k)
    ensures shown.k < Pow(b, shown.i + n) && (shown.i == 1 || Pow(b, shown.i + n - 1) <= shown.k)
    ensures |MinusOf(u)| <= |text| && text[..|MinusOf(u)|] == MinusOf(u)
    ensures text[|MinusOf(u)|..] == WithDot(DigitString(shown.k, b, shown.i + n), shown.i)
  {
    hide ScaledAndRounded, DigitString, WithDot, Pow;
  }

  lemma DotPlaced(ds: string, i: nat, n: nat, b: Radix)
    requires |ds| == i + n && i > 0 && IsDigitText(ds, b)
    ensures var t := WithDot(ds, i);
            && |t| == i + (if n == 0 then 0 else n + 1) && (n > 0 ==> t[i] == '.') && t[0] == ds[0]
            && (forall j :: 0 <= j < |t| && j != i ==> ToDigit(t[j]) < b)
            && t[..i] + (if n == 0 then "" else t[i + 1..]) == ds
  {
    var t := WithDot(ds, i);
    if n == 0 {
      assert t[..i] + "" == ds;
    } else {
      assert t[..i] == ds[..i] && t[i + 1..] == ds[i..] && ds[..i] + ds[i..] == ds;
      assert forall j :: i < j < |t| ==> t[j] == ds[j - 1];
    }
  }

  lemma FractionDigits(k: nat, b: Radix, i: nat, n: nat)
    requires i > 0 && k < Pow(b, i + n) && (i == 1 || Pow(b, i + n - 1) <= k)
    ensures var ds := DigitString(k, b, i + n);
            IsDigitText(ds, b) && DigitsValue(Decoded(ds), b) == k && (ds[0] == '0' ==> i == 1)
  {
    hide Pow, DigitString, DigitsValue, Mod, AreDigits;
    var ds := DigitString(k, b, i + n);
    DigitStringValue(k, b, i + n);
    SmallMod(k, Pow(b, i + n));
    assert forall j :: 0 <= j < |ds| ==> Decoded(ds)[j] == ToDigit(ds[j]);
    AllBelow(Decoded(ds), b);
    if ds[0] == '0' {
      assert Decoded(ds)[0] == 0;
      ZeroFirst(Decoded(ds), b);
    }
  }

  /** What is no finite number is a word. */
  lemma WordWritten(text: string, u: Bits, b: Radix, n: nat, fmt: Format, mode: ExponentMode, minusZero: bool,
                    shown: Shown)
    requires Shows(text, u, b, n, fmt, mode, minusZero, shown) && !IsFinite(u)
    ensures text == if FractionOf(u) != 0 then "NaN" else MinusOf(u) + "Infinity"
  {
    hide ShowsNumber, LayoutOf;
  }

  // ----- letters -----

  predicate IsUpper(c: char) {
    'A' <= c <= 'Z'
  }

  predicate NoUpper(t: string) {
    forall i :: 0 <= i < |t| ==> !IsUpper(t[i])
  }

  lemma {:induction false} LowerDigits(v: nat, b: Radix, n: nat)
    ensures NoUpper(DigitString(v, b, n))
    decreases n
  {
    hide DigitString, Div, Mod;
    if n == 0 {
      DigitStringStart(v, b);
    } else {
      DigitStringStep(v, b, n - 1);
      LowerDigits(Div(v, b), b, n - 1);
    }
  }

  lemma LowerJoin(t: string, u: string)
    requires NoUpper(t) && NoUpper(u)
    ensures NoUpper(t + u)
  {
    hide IsUpper;
  }

  lemma LowerDot(ds: string, k: nat)
    requires NoUpper(ds) && k <= |ds|
    ensures NoUpper(WithDot(ds, k))
  {
  }

  lemma LowerExponent(b: Radix, d: int)
    ensures NoUpper(ExponentText(b, d))
  {
    ExponentTextIs(b, d);
    var n := Absolute(PrintedExponent(b, d));
    LowerDigits(n, 10, NumeralLength(n, 10));
    hide DigitString, PrintedExponent, NumeralLength, ExponentText;
  }

  lemma LowerLayout(ds: string, b: Radix, d: int, mode: ExponentMode, eMax: int)
    requires |ds| > 0 && NoUpper(ds)
    ensures NoUpper(Layout(ds, b, d, mode, eMax))
  {
    LowerDot(ds, 1);
    LowerExponent(b, d);
    hide ExponentText, WithDot;
    if UsesExponent(mode, d, eMax) {
      LowerJoin(WithDot(ds, 1), ExponentText(b, d));
    } else if d <= 0 {
      LowerJoin("0." + Zeros(0 - d), ds);
    } else if d < |ds| {
      LowerDot(ds, d);
    } else {
      LowerJoin(ds, Zeros(d - |ds|));
    }
  }

  /** Digits beyond nine are lower-case letters, and so is the mark. */
  lemma LowerCase(text: string, u: Bits, b: Radix, n: nat, fmt: Format, mode: ExponentMode, minusZero: bool,
                  shown: Shown)
    requires Shows(text, u, b, n, fmt, mode, minusZero, shown) && IsFinite(u) && (fmt == Fixed ==> b == 10)
    ensures NoUpper(text)
  {
    hide *;
    if IsZero(u) {
      LowerZero(text, u, b, n, fmt, mode, minusZero, shown);
    } else if fmt == Frac {
      LowerFraction(text, u, b, n, mode, minusZero, shown);
    } else {
      LowerNumber(text, u, b, n, fmt, mode, minusZero, shown);
    }
  }

  lemma LowerZero(text: string, u: Bits, b: Radix, n: nat, fmt: Format, mode: ExponentMode, minusZero: bool,
                  shown: Shown)
    requires Shows(text, u, b, n, fmt, mode, minusZero, shown) && IsZero(u)
    ensures NoUpper(text)
  {
    hide *;
    ZeroLayout(text, u, b, n, fmt, mode, minusZero, shown);
    var k := ZeroDigits(fmt, n);
    LowerDigits(0, b, k);
    LowerLayout(DigitString(0, b, k), b, 1, mode, LargestPlain(fmt, b, n));
    LowerSign(u);
    LowerJoin(SignText(u, minusZero), Layout(DigitString(0, b, k), b, 1, mode, LargestPlain(fmt, b, n)));
  }

  lemma LowerFraction(text: string, u: Bits, b: Radix, n: nat, mode: ExponentMode, minusZero: bool, shown: Shown)
    requires Shows(text, u, b, n, Frac, mode, minusZero, shown) && IsFinite(u) && !IsZero(u)
    ensures NoUpper(text)
  {
    hide *;
    FractionShownOf(text, u, b, n, mode, minusZero, shown);
    var ds := DigitString(shown.k, b, shown.i + n);
    LowerDigits(shown.k, b, shown.i + n);
    LowerDot(ds, shown.i);
    LowerSign(u);
    LowerJoin(MinusOf(u), WithDot(ds, shown.i));
    assert text == MinusOf(u) + WithDot(ds, shown.i);
  }

  lemma LowerNumber(text: string, u: Bits, b: Radix, n: nat, fmt: Format, mode: ExponentMode, minusZero: bool,
                    shown: Shown)
    requires Shows(text, u, b, n, fmt, mode, minusZero, shown) && IsFinite(u) && !IsZero(u)
    requires fmt != Frac && (fmt == Fixed ==> b == 10)
    ensures NoUpper(text)
  {
    hide *;
    ShownParts(text, u, b, n, fmt, mode, minusZero, shown);
    MantissaText(shown.mant, b, shown.p);
    var ds := DigitString(shown.mant, b, shown.p);
    LowerDigits(shown.mant, b, shown.p);
    LowerLayout(ds, b, shown.d, mode, LargestPlain(fmt, b, n));
    LowerSign(u);
    LowerJoin(MinusOf(u), Layout(ds, b, shown.d, mode, LargestPlain(fmt, b, n)));
  }

  lemma ZeroLayout(text: string, u: Bits, b: Radix, n: nat, fmt: Format, mode: ExponentMode, minusZero: bool,
                   shown: Shown)
    requires Shows(text, u, b, n, fmt, mode, minusZero, shown) && IsZero(u)
    ensures ZeroDigits(fmt, n) > 0
    ensures text == SignText(u, minusZero) +
                    Layout(DigitString(0, b, ZeroDigits(fmt, n)), b, 1, mode, LargestPlain(fmt, b, n))
  {
    hide Layout, DigitString, SignText, LargestPlain, ZeroDigits;
  }

  lemma LowerSign(u: Bits)
    ensures NoUpper(MinusOf(u)) && forall z :: NoUpper(SignText(u, z))
  {
  }
}
