/** Number::toString and back: what js_dtoa prints in free format, js_atod reads
    as the same number. */
module RoundTrip {
  import opened PowersOfTwo
  import opened Rounding
  import opened Binary64
  import opened StickyBits
  import opened RoundPack
  import opened RadixPowers
  import opened RadixTables
  import opened RadixScaling
  import opened RadixReals
  import opened RadixLogarithm
  import opened Digits
  import opened DigitSearch
  import opened Atod
  import opened FreeFormatSearch
  import opened DigitOutput
  import opened IntegerText
  import opened NumberLayout
  import opened PrintedLength
  import opened NumberPrinting
  import opened NumberScan
  import opened NumberParsing
  import opened NumberReading

  // ----- digits -----

  /** The p digits of a p-digit mantissa spell it, with no leading zero. */
  lemma MantissaDigits(mant: nat, b: Radix, p: nat)
    requires HasDigits(mant, b, p)
    ensures var digits := Decoded(DigitString(mant, b, p));
            |digits| == p > 0 && AreDigits(digits, b) && digits[0] > 0 && DigitsValue(digits, b) == mant
  {
    hide Pow, DigitString, DigitsValue, Mod, AreDigits;
    DigitStringValue(mant, b, p);
    var digits := Decoded(DigitString(mant, b, p));
    SmallMod(mant, Pow(b, p));
    if digits[0] == 0 {
      ZeroFirst(digits, b);
    }
  }

  /** Digits below b, no upper-case letter. */
  predicate PrintedDigits(t: string, b: Radix) {
    forall i :: 0 <= i < |t| ==> ToDigit(t[i]) < b && t[i] != 'I'
  }

  lemma {:induction false} DigitStringChars(v: nat, b: Radix, n: nat)
    ensures PrintedDigits(DigitString(v, b, n), b)
    decreases n
  {
    hide DigitString, Div, Mod;
    if n == 0 {
      DigitStringStart(v, b);
    } else {
      DigitStringStep(v, b, n - 1);
      DigitStringChars(Div(v, b), b, n - 1);
      PrintedSnoc(DigitString(Div(v, b), b, n - 1), Mod(v, b), b);
    }
  }

  lemma PrintedSnoc(s: string, d: nat, b: Radix)
    requires PrintedDigits(s, b) && d < b
    ensures PrintedDigits(s + [DigitChar(d)], b)
  {
    ToDigitOfChar(d);
    assert DigitChar(d) != 'I';
  }

  /** The text of a mantissa. */
  lemma PrintedMantissa(mant: nat, b: Radix, p: nat)
    requires HasDigits(mant, b, p)
    ensures p > 0 && IsDigitText(DigitString(mant, b, p), b) && DigitString(mant, b, p)[0] != 'I'
    ensures ToDigit(DigitString(mant, b, p)[0]) > 0 && DigitString(mant, b, p)[0] != '0'
  {
    MantissaDigits(mant, b, p);
    DigitStringChars(mant, b, p);
    hide DigitString, DigitsValue, HasDigits;
    var s := DigitString(mant, b, p);
    assert Decoded(s)[0] == ToDigit(s[0]);
  }

  lemma {:induction false} ZerosValue(n: nat, b: Radix)
    ensures DigitsValue(ZeroDigitsOf(n), b) == 0
  {
    if n > 0 {
      ZerosValue(n - 1, b);
      assert ZeroDigitsOf(n)[..n - 1] == ZeroDigitsOf(n - 1);
    }
  }

  /** Of the digits and the zeros after them, the digits are kept. */
  lemma KeptDigits(digits: seq<nat>, n: nat, b: Radix) returns (j: nat)
    requires |digits| <= AtodMaxDigits(b)
    ensures j <= n && Kept(digits + ZeroDigitsOf(n), b) == digits + ZeroDigitsOf(j)
    ensures DigitsValue(Kept(digits + ZeroDigitsOf(n), b), b) == DigitsValue(digits, b) * Pow(b, j)
  {
    var all := digits + ZeroDigitsOf(n);
    hide OddPart, AtodMaxDigits, Pow, DigitsValue;
    var k := |Kept(all, b)|;
    j := k - |digits|;
    assert Kept(all, b) == all[..k] == digits + ZeroDigitsOf(j);
    DigitsConcat(digits, ZeroDigitsOf(j), b);
    ZerosValue(j, b);
  }

  // ----- values -----

  /** The number that the text stands for is the printed one. */
  lemma ReadValue(x: real, digits: seq<nat>, n: nat, b: Radix, mant: nat, p: nat, d: int,
                  point: int, exponent: int, binExp: bool)
    requires |digits| == p <= AtodMaxDigits(b) && DigitsValue(digits, b) == mant
    requires IsNumeral(x, Kept(digits + ZeroDigitsOf(n), b), b, point, exponent, binExp)
    requires binExp ==> OddPart(b) == 1
    requires if binExp then point == 1 && exponent == (d - 1) * Ctz32(b) else point + exponent == d
    ensures x == ScaleBy(RadixValue(mant as real, b, d - p), 1074)
  {
    hide *;
    var j := KeptDigits(digits, n, b);
    var kept, mant0 := Kept(digits + ZeroDigitsOf(n), b), mant * Pow(b, j);
    var f := point - |kept| + (if binExp then 0 else exponent);
    NumeralIs(x, kept, mant0, b, point, exponent, binExp, f);
    StrippedValue(mant0, mant, b, j, f);
    assert |kept| == p + j;
    if binExp {
      BinaryReadValue(x, mant, b, p, d, exponent);
    }
  }

  lemma BinaryReadValue(x: real, mant: nat, b: Radix, p: nat, d: int, exponent: int)
    requires OddPart(b) == 1 && exponent == (d - 1) * Ctz32(b)
    requires x == ScaleBy(RadixValue(mant as real, b, 1 - p), 1074 + exponent)
    ensures x == ScaleBy(RadixValue(mant as real, b, d - p), 1074)
  {
    PowerRadix(b);
    hide *;
    var z, s := RadixValue(mant as real, b, 1 - p), Ctz32(b);
    BinaryPower(b, s, d - 1);
    assert s * (d - 1) == exponent;
    RadixValueScale(mant as real, b, 1 - p, d - 1);
    assert 1 - p + (d - 1) == d - p;
    RadixScaledProduct(RadixValue(z, b, d - 1), z, b, d - 1);
    ScaledProductOf(z, exponent);
    assert exponent + 1074 == 1074 + exponent;
    ScaleByTwice(z, ScaleBy(z, exponent), exponent, 1074);
  }

  // ----- reading a printed number -----

  /** What is read of a layout: its digits, perhaps with zeros after them, and
      the point and exponent that put them in their place. */
  lemma ReadLayout(text: string, sign: string, ds: string, b: Radix, d: int, mode: ExponentMode, eMax: int,
                   radix: RadixArgument, flags: Flags, t: Token)
    returns (zeros: nat)
    requires IsDigitText(ds, b) && |ds| > 0 && ToDigit(ds[0]) > 0 && ds[0] != 'I' && ds[0] != '0'
    requires (sign == "" || sign == "-") && text == sign + Layout(ds, b, d, mode, eMax)
    requires RadixMatches(radix, b) && !flags.intOnly && IsToken(text, radix, flags, t)
    ensures t.Numeral? && t.next == |text| && t.o.b == b && t.digits == Decoded(ds) + ZeroDigitsOf(zeros)
    ensures At(text, 0) == '-' <==> sign == "-"
    ensures t.binExp ==> OddPart(b) == 1
    ensures if t.binExp then t.point == 1 && t.exponent == (d - 1) * Ctz32(b) else t.point + t.exponent == d
  {
    var exponential := UsesExponent(mode, d, eMax);
    LayoutParts(ds, b, d, mode, eMax);
    var m := MantissaOf(ds, d, exponential);
    MantissaStart(ds, d, exponential);
    var dot, z, rest, before;
    dot, z, rest, before, zeros := LayoutHolds(ds, b, d, exponential);
    hide MantissaOf, Layout, ExponentText, DigitsIn, IsToken, UsesExponent, MantissaText;
    NumberTextIs(text, sign, m, b, d, exponential);
    MantissaTaken(sign, m, b, dot, z, rest, before);
    TokenOfNumber(text, sign, m, b, d, exponential, radix, flags, t);
    FirstChars(text, sign, m, b, d, exponential);
    ReadMantissa(t.o, |sign|, t.mid, t.digits, t.point, m, dot, z, rest, before);
  }

  lemma NumberTextIs(text: string, sign: string, m: string, b: Radix, d: int, exponential: bool)
    requires (sign == "" || sign == "-") && |m| > 0
    requires text == sign + (m + if exponential then ExponentText(b, d) else "")
    ensures IsNumberText(text, sign, m, b, d, exponential)
  {
    hide ExponentText;
  }

  /** How the mantissa of a layout starts. */
  lemma MantissaStart(ds: string, d: int, exponential: bool)
    requires |ds| > 0 && ds[0] != '0' && ds[0] != 'I'
    ensures var m := MantissaOf(ds, d, exponential); |m| > 0 && m[0] != 'I' && (m[0] != '0' || PlainZero(m))
  {
  }

  /** However the scan goes, it takes the whole mantissa. */
  lemma MantissaTaken(sign: string, m: string, b: Radix, dot: int, z: nat, rest: seq<nat>, before: nat)
    requires Holds(m, b, dot, z, rest, before)
    ensures |m| > 0 && ToDigit(m[0]) < b
    ensures forall o: Source, mid: nat, digits, point ::
              StandsAt(o, |sign|, m) && o.b == b && MantissaText(o, |sign|, mid, digits, point) ==> mid == |sign| + |m|
  {
    hide DigitsIn, MantissaText, StandsAt;
    forall o: Source, mid: nat, digits, point
      | StandsAt(o, |sign|, m) && o.b == b && MantissaText(o, |sign|, mid, digits, point)
      ensures mid == |sign| + |m|
    {
      ReadMantissa(o, |sign|, mid, digits, point, m, dot, z, rest, before);
    }
  }

  // ----- the round trip -----

  /** Digits that identify u have no other nearest number. */
  lemma IdentifiedValue(u: Bits, b: Radix, mant: nat, p: nat, d: int, x: real, r: Bits)
    requires IsFinite(u) && Identifies(u, b, mant, p, d)
    requires x == ScaleBy(RadixValue(mant as real, b, d - p), 1074) && RoundsTo(x, SignOf(u), RNE, r)
    ensures r == u
  {
    FiniteBelowOverflow(u);
    hide Pow2, Pow, RadixValue, ScaleBy, Rounds, Magnitude, RoundsTo, HasDigits;
    RoundsBackIs(mant, b, d - p, u);
    assert DirectionOf(RNE, SignOf(u)) == NearEven;
    assert Delivers(Magnitude(u), SignOf(u), NearEven, u);
    RoundsToIntro(x, Magnitude(u), SignOf(u), RNE, u);
    RoundsToUnique(x, SignOf(u), RNE, r, u);
  }

  /** js_atod(js_dtoa(u)) for finite nonzero u. */
  lemma NumberReadBack(text: string, u: Bits, b: Radix, n: nat, mode: ExponentMode, minusZero: bool, shown: Shown,
                       radix: RadixArgument, flags: Flags, t: Token, r: Bits)
    requires IsFinite(u) && !IsZero(u) && Shows(text, u, b, n, Free, mode, minusZero, shown)
    requires RadixMatches(radix, b) && !flags.intOnly && IsToken(text, radix, flags, t) && IsValue(text, t, r)
    ensures r == u && t.Numeral? && t.next == |text|
  {
    hide *;
    var zeros := ReadFree(text, u, b, n, mode, minusZero, shown, radix, flags, t);
    var x := ValueOf(text, t, r, SignOf(u));
    DigitsValueBack(x, u, b, shown.mant, shown.p, shown.d, zeros, t, r);
  }

  /** What is read of a number in free format. */
  lemma ReadFree(text: string, u: Bits, b: Radix, n: nat, mode: ExponentMode, minusZero: bool, shown: Shown,
                 radix: RadixArgument, flags: Flags, t: Token) returns (zeros: nat)
    requires IsFinite(u) && !IsZero(u) && Shows(text, u, b, n, Free, mode, minusZero, shown)
    requires RadixMatches(radix, b) && !flags.intOnly && IsToken(text, radix, flags, t)
    ensures shown.Number? && IsFree(u, b, shown.mant, shown.p, shown.d)
    ensures t.Numeral? && t.next == |text| && t.o.b == b && SignOf(u) == if At(text, 0) == '-' then 1 else 0
    ensures t.digits == Decoded(DigitString(shown.mant, b, shown.p)) + ZeroDigitsOf(zeros)
    ensures t.binExp ==> OddPart(b) == 1
    ensures if t.binExp then t.point == 1 && t.exponent == (shown.d - 1) * Ctz32(b) else t.point + t.exponent == shown.d
  {
    hide *;
    var ds := FreeParts(text, u, b, n, mode, minusZero, shown);
    FreeFacts(u, b, shown);
    PrintedMantissa(shown.mant, b, shown.p);
    SignIs(u, minusZero);
    zeros := ReadLayout(text, SignText(u, minusZero), ds, b, shown.d, mode, LargestPlain(Free, b, n), radix, flags, t);
  }

  lemma DigitsValueBack(x: real, u: Bits, b: Radix, mant: nat, p: nat, d: int, zeros: nat, t: Token, r: Bits)
    requires IsFinite(u) && IsFree(u, b, mant, p, d) && t.Numeral? && t.o.b == b
    requires t.digits == Decoded(DigitString(mant, b, p)) + ZeroDigitsOf(zeros) && (t.binExp ==> OddPart(b) == 1)
    requires if t.binExp then t.point == 1 && t.exponent == (d - 1) * Ctz32(b) else t.point + t.exponent == d
    requires IsNumeral(x, Kept(t.digits, b), b, t.point, t.exponent, t.binExp) && RoundsTo(x, SignOf(u), RNE, r)
    ensures r == u
  {
    hide *;
    FreeFacts(u, b, Number(mant, p, d));
    MantissaDigits(mant, b, p);
    ReadValue(x, Decoded(DigitString(mant, b, p)), zeros, b, mant, p, d, t.point, t.exponent, t.binExp);
    IdentifiedValue(u, b, mant, p, d, x, r);
  }

  /** The digits shown in free format. */
  lemma FreeParts(text: string, u: Bits, b: Radix, n: nat, mode: ExponentMode, minusZero: bool, shown: Shown)
    returns (ds: string)
    requires IsFinite(u) && !IsZero(u) && Shows(text, u, b, n, Free, mode, minusZero, shown)
    ensures shown.Number? && shown.p > 0 && ds == DigitString(shown.mant, b, shown.p) &&
            IsFree(u, b, shown.mant, shown.p, shown.d)
    ensures |ds| > 0 && text == SignText(u, minusZero) + Layout(ds, b, shown.d, mode, LargestPlain(Free, b, n))
  {
    hide Layout, DigitString, LargestPlain, SignText, IsFree;
    FreeIsPositive(u, b, shown);
    ds := DigitString(shown.mant, b, shown.p);
    assert text == text[..|SignText(u, minusZero)|] + text[|SignText(u, minusZero)|..];
  }

  lemma FreeIsPositive(u: Bits, b: Radix, shown: Shown)
    requires shown.Number? && IsFree(u, b, shown.mant, shown.p, shown.d)
    ensures shown.p > 0
  {
  }

  lemma FreeFacts(u: Bits, b: Radix, shown: Shown)
    requires shown.Number? && IsFree(u, b, shown.mant, shown.p, shown.d)
    ensures Identifies(u, b, shown.mant, shown.p, shown.d) && HasDigits(shown.mant, b, shown.p)
    ensures shown.p <= AtodMaxDigits(b)
  {
    ParsedDigits(b);
    hide Pow, RoundsBack, AtodMaxDigits, DtoaMaxDigits;
  }

  lemma SignIs(u: Bits, minusZero: bool)
    ensures SignText(u, minusZero) == "" || SignText(u, minusZero) == "-"
    ensures !IsZero(u) || minusZero ==> SignOf(u) == if SignText(u, minusZero) == "-" then 1 else 0
    ensures IsZero(u) && !minusZero ==> SignText(u, minusZero) == ""
  {
  }

  /** The number that a token stands for. */
  lemma ValueOf(text: string, t: Token, r: Bits, sign: nat) returns (x: real)
    requires t.Numeral? && IsValue(text, t, r) && sign == if At(text, 0) == '-' then 1 else 0
    ensures IsNumeral(x, Kept(t.digits, t.o.b), t.o.b, t.point, t.exponent, t.binExp) && RoundsTo(x, sign, RNE, r)
  {
    hide IsNumeral, RoundsTo, Kept, ValueWith;
    x :| ValueWith(x, t.digits, t.o.b, t.point, t.exponent, t.binExp, sign, r);
    ValueElim(x, t.digits, t.o.b, t.point, t.exponent, t.binExp, sign, r);
  }

  // ----- zero, infinity, NaN -----

  /** The text of zero is a lone zero, perhaps with an exponent. */
  lemma ZeroText(b: Radix, n: nat, mode: ExponentMode)
    ensures LayoutOf(Free, b, n, mode, 0, 1, 1) == "0" + (if mode == ExpEnabled then ExponentText(b, 1) else "")
  {
    assert Mod(0, b) == 0;
    DigitStringStep(0, b, 0);
    DigitStringStart(Div(0, b), b);
    assert DigitString(0, b, 1) == "0";
    hide ExponentText, DtoaMaxDigits;
    assert "0" + Zeros(0) == "0";
  }

  lemma ZeroTaken(sign: string, b: Radix)
    ensures forall o: Source, mid: nat, digits, point ::
              StandsAt(o, |sign|, "0") && o.b == b && MantissaText(o, |sign|, mid, digits, point) ==>
                mid == |sign| + |"0"|
  {
    hide MantissaText, StandsAt;
    forall o: Source, mid: nat, digits, point
      | StandsAt(o, |sign|, "0") && o.b == b && MantissaText(o, |sign|, mid, digits, point)
      ensures mid == |sign| + |"0"|
    {
      ReadZero(o, |sign|, mid, digits, point);
    }
  }

  lemma ZeroReadBack(text: string, u: Bits, b: Radix, n: nat, mode: ExponentMode, minusZero: bool, shown: Shown,
                     radix: RadixArgument, flags: Flags, t: Token, r: Bits)
    requires IsZero(u) && Shows(text, u, b, n, Free, mode, minusZero, shown)
    requires RadixMatches(radix, b) && !flags.intOnly && IsToken(text, radix, flags, t) && IsValue(text, t, r)
    ensures t.Numeral? && t.next == |text|
    ensures r == if SignText(u, minusZero) == "-" then Pack(1, 0, 0) else Pack(0, 0, 0)
  {
    ZeroText(b, n, mode);
    SignIs(u, minusZero);
    var sign := SignText(u, minusZero);
    hide LayoutOf, SignText, IsToken, ExponentText, MantissaText, StandsAt, IsValue, RoundsTo, IsNumeral, Kept;
    ZeroTaken(sign, b);
    TokenOfNumber(text, sign, "0", b, 1, mode == ExpEnabled, radix, flags, t);
    FirstChars(text, sign, "0", b, 1, mode == ExpEnabled);
    ReadZero(t.o, |sign|, t.mid, t.digits, t.point);
    var x := ValueOf(text, t, r, if sign == "-" then 1 else 0);
    ZeroValue(x, t, if sign == "-" then 1 else 0, r);
  }

  lemma ZeroValue(x: real, t: Token, sign: nat, r: Bits)
    requires t.Numeral? && t.digits == [] && sign <= 1
    requires IsNumeral(x, Kept(t.digits, t.o.b), t.o.b, t.point, t.exponent, t.binExp) && RoundsTo(x, sign, RNE, r)
    ensures r == Pack(sign, 0, 0)
  {
    hide *;
    KeptOfNone(t.digits, t.o.b);
    EmptyIsZero(x, t.o.b, t.point, t.exponent, t.binExp);
    ZeroRoundsToZero(sign, RNE);
    RoundsToUnique(x, sign, RNE, r, Pack(sign, 0, 0));
  }

  lemma InfinityReadBack(text: string, u: Bits, minusZero: bool, radix: RadixArgument, flags: Flags, t: Token, r: Bits)
    requires IsInfinite(u) && text == SignText(u, minusZero) + "Infinity" && !flags.intOnly
    requires IsToken(text, radix, flags, t) && IsValue(text, t, r)
    ensures r == u && t.Infinite? && t.next == |text|
  {
    InfiniteSign(u, minusZero);
    PackFields(u);
    hide SignText, StartOf, MantissaText, ExponentPart, InvalidAt, IsRounded, SignLength;
    InfinityStart(text, SignText(u, minusZero), radix, flags);
  }

  lemma InfinityStart(text: string, sign: string, radix: RadixArgument, flags: Flags)
    requires (sign == "" || sign == "-") && text == sign + "Infinity" && !flags.intOnly
    ensures SignLength(text) == |sign| && StartOf(text, |sign|, radix, flags) == InfinityWord
    ensures At(text, 0) == '-' <==> sign == "-"
  {
    hide OctalRun;
    assert text[|sign|..|sign| + 8] == "Infinity";
    assert text[|sign|] == 'I';
  }

  lemma InfiniteSign(u: Bits, minusZero: bool)
    requires IsInfinite(u)
    ensures SignText(u, minusZero) == if SignOf(u) == 1 then "-" else ""
  {
  }

  /** Digits of the word NaN exist from radix 24 on. */
  lemma NaNDigits(o: Source, mid: nat, digits: seq<nat>, point: int)
    requires o.s == "NaN" && o.start == 0 && MantissaText(o, 0, mid, digits, point)
    ensures mid == if o.b < 24 then 0 else 3
  {
    hide DigitsIn, Scanned, Significant, Ends;
    var pos: nat, dotPos: int, sig: nat :| MantissaWith(o, 0, mid, digits, point, pos, dotPos, sig);
    NaNScanned(o, mid, pos, dotPos);
  }

  lemma NaNScanned(o: Source, mid: nat, pos: nat, dotPos: int)
    requires o.s == "NaN" && o.start == 0 && Scanned(o, 0, mid, pos, dotPos) && Ends(o, mid, dotPos)
    ensures mid == if o.b < 24 then 0 else 3
  {
    EndsWhenStuck(o, 0, mid, pos, dotPos);
    ScannedPasses(o, mid, pos, dotPos);
    hide Scanned, Ends, PassesAll;
    NaNPasses(o);
    hide Passes;
    assert mid <= 3;
  }

  lemma ScannedPasses(o: Source, mid: nat, pos: nat, dotPos: int)
    requires Scanned(o, 0, mid, pos, dotPos)
    ensures mid <= |o.s| && (mid > 0 ==> Passes(o, 0, 0))
  {
    hide Passes, DigitsIn, DotAfter;
  }

  lemma NaNPasses(o: Source)
    requires o.s == "NaN" && o.start == 0
    ensures Passes(o, 0, 0) <==> o.b >= 24
    ensures o.b >= 24 ==> Passes(o, 0, 1) && Passes(o, 0, 2)
    ensures !Passes(o, 0, 3)
  {
    assert ToDigit('N') == 23 && ToDigit('a') == 10;
  }

  lemma NaNHasNoMark(o: Source, mid: nat)
    requires o.s == "NaN" && o.start == 0 && mid <= 3
    ensures !HasExponent(o, mid)
  {
    assert mid == 0 || mid == 1 || mid == 2 || mid == 3;
  }

  /** The one text that is read as another number: NaN, in radices that have
      its letters for digits. */
  lemma NaNReadBack(b: Radix, radix: RadixArgument, flags: Flags, t: Token, r: Bits)
    requires RadixMatches(radix, b) && IsToken("NaN", radix, flags, t) && IsValue("NaN", t, r)
    ensures (IsNaN(r) <==> b < 24) && t.next == if b < 24 then 0 else 3
  {
    NoInfinity("NaN", 0);
    var st := StartOf("NaN", 0, radix, flags);
    assert st == From(0, b, flags.underscores);
    var o := SourceOf("NaN", st, flags);
    hide MantissaText, ExponentPart, HasExponent, RoundsTo, StartOf, IsRounded;
    if t.Invalid? {
      var mid: nat, digits, point :| InvalidAt(o, 0, mid, digits, point, t.next);
      NaNDigits(o, mid, digits, point);
      NaNHasNoMark(o, mid);
      assert IsNaN(QNAN);
    } else {
      NaNDigits(o, t.mid, t.digits, t.point);
      NaNHasNoMark(o, t.mid);
      NoExponentEnds(o, t.mid, t.next, t.exponent, t.binExp);
      RoundedIsNumber(t.digits, o.b, t.point, t.exponent, t.binExp, r);
    }
  }

  lemma NoExponentEnds(o: Source, mid: nat, next: nat, exponent: int, binExp: bool)
    requires !HasExponent(o, mid) && ExponentPart(o, mid, next, exponent, binExp)
    ensures next == mid
  {
  }

  /** Rounding never gives NaN. */
  lemma RoundedIsNumber(digits: seq<nat>, b: Radix, point: int, exponent: int, binExp: bool, r: Bits)
    requires IsRounded(digits, b, point, exponent, binExp, 0, r)
    ensures !IsNaN(r)
  {
    hide Pow2, Rounds, IsNumeral, Kept;
    var x: real :| ValueWith(x, digits, b, point, exponent, binExp, 0, r);
    var y: nat :| Rounds(x, y, DirectionOf(RNE, 0)) && Delivers(y, 0, DirectionOf(RNE, 0), r);
  }

  // ----- js_atod after js_dtoa -----

  /** What is read back: the number itself, except that the sign of zero is lost
      unless it was asked for. */
  function ReadBack(u: Bits, minusZero: bool): Bits {
    if IsZero(u) && !minusZero then 0 else u
  }

  /** Whatever js_dtoa prints in free format, in any radix and with any choice
      of exponent, js_atod reads to the end and returns the same number; NaN
      comes back as NaN exactly in the radices below 24. */
  lemma TextRoundTrip(text: string, u: Bits, b: Radix, n: nat, mode: ExponentMode, minusZero: bool, shown: Shown,
                      radix: RadixArgument, flags: Flags, next: nat, r: Bits)
    requires Shows(text, u, b, n, Free, mode, minusZero, shown) && RadixMatches(radix, b) && !flags.intOnly
    requires Reads(text, radix, flags, next, r)
    ensures !IsNaN(u) ==> r == ReadBack(u, minusZero) && next == |text|
    ensures IsNaN(u) ==> (IsNaN(r) <==> b < 24) && next == if b < 24 then 0 else |text|
  {
    hide LayoutOf, IsToken, IsValue, ShowsNumber;
    var t: Token :| ReadsAs(text, radix, flags, t, r) && next == t.next;
    if IsNaN(u) {
      NaNReadBack(b, radix, flags, t, r);
    } else if IsInfinite(u) {
      InfinityReadBack(text, u, minusZero, radix, flags, t, r);
    } else if IsZero(u) {
      ZeroReadBack(text, u, b, n, mode, minusZero, shown, radix, flags, t, r);
      PackFields(u);
    } else {
      NumberReadBack(text, u, b, n, mode, minusZero, shown, radix, flags, t, r);
    }
  }

  /** Printing into a buffer that js_dtoa_max_len allows, and reading back. */
  method PrintThenParse(buf: array<char>, u: Bits, b: Radix, mode: ExponentMode, minusZero: bool,
                        radix: RadixArgument, flags: Flags)
    returns (len: nat, next: nat, r: Bits)
    requires JsDtoaMaxLen(u, b, 0, Free, mode) < buf.Length <= TEXT_LIMIT && RadixMatches(radix, b) && !flags.intOnly
    modifies buf
    ensures len <= JsDtoaMaxLen(u, b, 0, Free, mode)
    ensures !IsNaN(u) ==> r == ReadBack(u, minusZero) && next == len
    ensures IsNaN(u) ==> (IsNaN(r) <==> b < 24) && next == if b < 24 then 0 else len
  {
    hide Shows, Reads, JsDtoaMaxLen;
    FreeRoom(u, b, mode, |SignText(u, minusZero)|);
    ghost var shown;
    len, shown := JsDtoa(buf, u, b, 0, Free, mode, minusZero);
    var text := buf[..len];
    next, r := JsAtod(text, radix, flags);
    TextRoundTrip(text, u, b, 0, mode, minusZero, shown, radix, flags, next, r);
  }

  lemma FreeRoom(u: Bits, b: Radix, mode: ExponentMode, s: nat)
    requires s <= 1
    ensures !MaxLenTooSmall(u, 0, Free, mode, s)
    ensures TextLimit(u, b, 0, Free, mode, s) == JsDtoaMaxLen(u, b, 0, Free, mode)
  {
  }
}
