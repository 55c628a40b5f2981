/** What js_atod reads from the layouts that js_dtoa prints. */
module NumberReading {
  import opened PowersOfTwo
  import opened RadixTables
  import opened RadixLogarithm
  import opened Digits
  import opened DigitOutput
  import opened IntegerText
  import opened NumberLayout
  import opened NumberScan
  import opened NumberParsing

  // ----- digits of plain texts -----

  /** Digit characters of radix b only. */
  predicate IsDigitText(t: string, b: Radix) {
    forall i :: 0 <= i < |t| ==> ToDigit(t[i]) < b
  }

  lemma {:induction false} DigitsOfText(t: string, b: Radix)
    requires IsDigitText(t, b)
    ensures DigitsIn(t, b) == Decoded(t)
  {
    if |t| > 0 {
      DigitsOfText(t[..|t| - 1], b);
    }
  }

  function ZeroDigitsOf(n: nat): (d: seq<nat>)
    ensures |d| == n
  {
    seq(n, _ => 0)
  }

  lemma DigitsOfZeros(n: nat, b: Radix)
    ensures IsDigitText(Zeros(n), b) && DigitsIn(Zeros(n), b) == ZeroDigitsOf(n)
  {
    DigitsOfText(Zeros(n), b);
  }

  lemma DigitsOfDot(b: Radix)
    ensures DigitsIn(['.'], b) == []
  {
    assert ['.'][..0] == "";
  }

  /** A dot after the first k digits, or at the end, where it is left out. */
  lemma DigitsWithDot(t: string, b: Radix, k: nat)
    requires IsDigitText(t, b) && k <= |t|
    ensures DigitsIn(WithDot(t, k), b) == Decoded(t)
    ensures k < |t| ==> DigitsIn(WithDot(t, k)[..k], b) == Decoded(t[..k])
  {
    DigitsOfText(t, b);
    if k < |t| {
      assert t == t[..k] + t[k..];
      DigitsInConcat(t[..k], t[k..], b);
      DigitsInConcat(t[..k] + ['.'], t[k..], b);
      DigitsInConcat(t[..k], ['.'], b);
      DigitsOfDot(b);
      DigitsOfText(t[..k], b);
      hide DigitsIn;
      assert WithDot(t, k) == (t[..k] + ['.']) + t[k..];
      assert WithDot(t, k)[..k] == t[..k];
    }
  }

  // ----- mantissa texts -----

  /** m is written with digits of radix b and at most one dot, starts with a
      digit, and dot is the position of the dot, or -1. */
  ghost predicate IsMantissaText(m: string, b: Radix, dot: int) {
    && |m| > 0 && ToDigit(m[0]) < b && DotAt(m, dot)
    && forall i :: 0 <= i < |m| ==> ToDigit(m[i]) < b || m[i] == '.'
  }

  /** m stands at the start of the number, and what follows cannot continue it. */
  predicate StandsAt(o: Source, from: nat, m: string) {
    && from == o.start && from + |m| <= |o.s| && o.s[from..from + |m|] == m
    && !IsPart(At(o.s, from + |m|), o.b, true) && !o.intOnly
  }

  lemma CharOf(o: Source, from: nat, m: string, i: nat)
    requires StandsAt(o, from, m) && i < |m|
    ensures At(o.s, from + i) == m[i] == o.s[from + i]
  {
    assert o.s[from..from + |m|][i] == o.s[from + i];
  }

  lemma PassesIsPart(o: Source, from: nat, p: nat, i: nat)
    requires PassesAll(o, from, p) && from <= i < p
    ensures IsPart(At(o.s, i), o.b, true)
  {
    assert Passes(o, from, i);
  }

  /** The scan takes all of m. */
  lemma ScanTakesAll(o: Source, from: nat, mid: nat, pos: nat, dotPos: int, m: string, dot: int)
    requires StandsAt(o, from, m) && IsMantissaText(m, o.b, dot)
    requires Scanned(o, from, mid, pos, dotPos) && Ends(o, mid, dotPos)
    ensures mid == from + |m|
  {
    hide DigitsIn;
    if mid < from + |m| {
      var i := mid - from;
      CharOf(o, from, m, i);
      if ToDigit(m[i]) >= o.b {
        assert m[i] == '.' && i > 0;
        NoDotBefore(o, from, mid, pos, dotPos, m, dot);
      }
    } else if mid > from + |m| {
      PassesIsPart(o, from, mid, from + |m|);
    }
  }

  lemma NoDotBefore(o: Source, from: nat, mid: nat, pos: nat, dotPos: int, m: string, dot: int)
    requires StandsAt(o, from, m) && DotAt(m, dot) && Scanned(o, from, mid, pos, dotPos)
    requires mid < from + |m| && m[mid - from] == '.'
    ensures dotPos == -1
  {
    var t := o.s[from..mid];
    NoDotYet(t, o.b, dotPos);
    ScannedDotPos(o, from, mid, pos, dotPos);
    hide DigitsIn, DotAfter;
    assert dot == mid - from == |t|;
    forall i | 0 <= i < |t|
      ensures t[i] != '.'
    {
      CharOf(o, from, m, i);
    }
  }

  /** Exactly the leading zeros are insignificant. */
  lemma SignificantRest(all: seq<nat>, z: nat, rest: seq<nat>, sig: nat, digits: seq<nat>)
    requires all == ZeroDigitsOf(z) + rest && sig <= |all| && AllZero(all[..sig]) && digits == all[sig..]
    requires |rest| > 0 && rest[0] > 0 && (|digits| > 0 ==> digits[0] > 0)
    ensures sig == z && digits == rest
  {
    assert all[z] == rest[0];
  }

  lemma TextStands(o: Source, from: nat, m: string, dot: int)
    requires StandsAt(o, from, m) && IsMantissaText(m, o.b, dot)
    ensures from + |m| <= |o.s| && o.s[from..from + |m|] == m && DotAt(m, dot)
  {
  }

  /** What is read of a mantissa with z leading zeros and the dot after `before`
      digits: its other digits, and the point among them. */
  lemma ReadMantissa(o: Source, from: nat, mid: nat, digits: seq<nat>, point: int,
                     m: string, dot: int, z: nat, rest: seq<nat>, before: nat)
    requires MantissaText(o, from, mid, digits, point) && StandsAt(o, from, m) && IsMantissaText(m, o.b, dot)
    requires DigitsIn(m, o.b) == ZeroDigitsOf(z) + rest && |rest| > 0 && rest[0] > 0
    requires before == if dot < 0 then z + |rest| else |DigitsIn(m[..dot], o.b)|
    ensures mid == from + |m| && digits == rest && point == before - z
  {
    hide DigitsIn, StandsAt, IsMantissaText, Ends, PassesAll, DotAfter;
    var pos: nat, dotPos: int, sig: nat :| MantissaWith(o, from, mid, digits, point, pos, dotPos, sig);
    ScanTakesAll(o, from, mid, pos, dotPos, m, dot);
    TextStands(o, from, m, dot);
    DotIsUnique(m, o.b, dot, dotPos);
    SignificantRest(DigitsIn(m, o.b), z, rest, sig, digits);
  }

  lemma DotIsUnique(m: string, b: Radix, dot: int, dotPos: int)
    requires DotAt(m, dot) && DotAfter(m, b, dotPos)
    ensures dotPos == if dot < 0 then -1 else |DigitsIn(m[..dot], b)|
  {
    hide DigitsIn;
    var k: int :| DotAt(m, k) && dotPos == if k < 0 then -1 else |DigitsIn(m[..k], b)|;
    if k >= 0 {
      assert m[k] == '.';
    }
    if dot >= 0 {
      assert m[dot] == '.';
    }
    assert k == dot;
  }

  /** A lone zero has no significant digit. */
  lemma ReadZero(o: Source, from: nat, mid: nat, digits: seq<nat>, point: int)
    requires MantissaText(o, from, mid, digits, point) && StandsAt(o, from, "0")
    ensures mid == from + 1 && digits == []
  {
    var pos: nat, dotPos: int, sig: nat :| MantissaWith(o, from, mid, digits, point, pos, dotPos, sig);
    assert IsMantissaText("0", o.b, -1);
    ScanTakesAll(o, from, mid, pos, dotPos, "0", -1);
    assert o.s[from..mid] == "0";
    DigitsOfText("0", o.b);
    assert DigitsIn("0", o.b) == [0];
    assert |digits| > 0 ==> sig == 0;
  }

  // ----- the layouts -----

  /** A layout without its exponent. */
  function MantissaOf(ds: string, d: int, exponential: bool): string
    requires |ds| > 0
  {
    if exponential then WithDot(ds, 1)
    else if d <= 0 then "0." + Zeros(0 - d) + ds
    else if d < |ds| then WithDot(ds, d)
    else ds + Zeros(d - |ds|)
  }

  lemma LayoutParts(ds: string, b: Radix, d: int, mode: ExponentMode, eMax: int)
    requires |ds| > 0
    ensures Layout(ds, b, d, mode, eMax)
         == MantissaOf(ds, d, UsesExponent(mode, d, eMax))
          + (if UsesExponent(mode, d, eMax) then ExponentText(b, d) else "")
  {
    hide ExponentText;
  }

  /** What a mantissa text holds: z leading zeros, then rest, with the dot after
      the first `before` digits. */
  ghost predicate Holds(m: string, b: Radix, dot: int, z: nat, rest: seq<nat>, before: nat) {
    && IsMantissaText(m, b, dot) && DigitsIn(m, b) == ZeroDigitsOf(z) + rest && |rest| > 0 && rest[0] > 0
    && before == if dot < 0 then z + |rest| else |DigitsIn(m[..dot], b)|
  }

  /** Significant digits with a dot after k of them. */
  lemma DottedHolds(ds: string, b: Radix, k: nat)
    requires IsDigitText(ds, b) && 0 < k <= |ds| && ToDigit(ds[0]) > 0
    ensures Holds(WithDot(ds, k), b, if k < |ds| then k else -1, 0, Decoded(ds), k)
  {
    DigitsWithDot(ds, b, k);
    var m := WithDot(ds, k);
    hide DigitsIn;
    assert ZeroDigitsOf(0) + Decoded(ds) == Decoded(ds);
    assert forall i :: 0 <= i < |ds| ==> ds[i] != '.';
    if k < |ds| {
      assert forall i :: 0 <= i < k ==> m[i] == ds[i];
      assert forall i :: k < i < |m| ==> m[i] == ds[i - 1];
    }
  }

  /** Significant digits followed by zeros. */
  lemma PaddedHolds(ds: string, b: Radix, n: nat)
    requires IsDigitText(ds, b) && |ds| > 0 && ToDigit(ds[0]) > 0
    ensures Holds(ds + Zeros(n), b, -1, 0, Decoded(ds) + ZeroDigitsOf(n), |ds| + n)
  {
    DigitsInConcat(ds, Zeros(n), b);
    DigitsOfText(ds, b);
    DigitsOfZeros(n, b);
    hide DigitsIn;
    assert ZeroDigitsOf(0) + (Decoded(ds) + ZeroDigitsOf(n)) == Decoded(ds) + ZeroDigitsOf(n);
    assert forall i :: 0 <= i < |ds| ==> ds[i] != '.';
  }

  /** A fraction: zero, dot, n zeros, and the significant digits. */
  lemma FractionHolds(ds: string, b: Radix, n: nat)
    requires IsDigitText(ds, b) && |ds| > 0 && ToDigit(ds[0]) > 0
    ensures Holds("0." + Zeros(n) + ds, b, 1, n + 1, Decoded(ds), 1)
  {
    var m := "0." + Zeros(n) + ds;
    assert "0" + ['.'] == "0." && m[..1] == "0";
    DigitsInConcat("0." + Zeros(n), ds, b);
    DigitsInConcat("0.", Zeros(n), b);
    DigitsInConcat("0", ['.'], b);
    DigitsOfDot(b);
    DigitsOfText("0", b);
    assert Decoded("0") == [0];
    DigitsOfZeros(n, b);
    DigitsOfText(ds, b);
    hide DigitsIn;
    assert [0] + [] + ZeroDigitsOf(n) == ZeroDigitsOf(n + 1);
    assert forall i :: 0 <= i < |ds| ==> ds[i] != '.';
  }

  /** Every layout holds its digits, perhaps with zeros appended, and the point
      where its exponent says. */
  lemma LayoutHolds(ds: string, b: Radix, d: int, exponential: bool)
    returns (dot: int, z: nat, rest: seq<nat>, before: nat, zeros: nat)
    requires IsDigitText(ds, b) && |ds| > 0 && ToDigit(ds[0]) > 0
    ensures Holds(MantissaOf(ds, d, exponential), b, dot, z, rest, before)
    ensures rest == Decoded(ds) + ZeroDigitsOf(zeros) && before - z == if exponential then 1 else d
  {
    zeros := 0;
    hide Holds;
    assert Decoded(ds) + ZeroDigitsOf(0) == Decoded(ds);
    if exponential {
      DottedHolds(ds, b, 1);
      dot, z, rest, before := if 1 < |ds| then 1 else -1, 0, Decoded(ds), 1;
    } else if d <= 0 {
      FractionHolds(ds, b, 0 - d);
      dot, z, rest, before := 1, 1 - d, Decoded(ds), 1;
    } else if d < |ds| {
      DottedHolds(ds, b, d);
      dot, z, rest, before := d, 0, Decoded(ds), d;
    } else {
      PaddedHolds(ds, b, d - |ds|);
      dot, z, rest, before, zeros := -1, 0, Decoded(ds) + ZeroDigitsOf(d - |ds|), d, d - |ds|;
    }
  }

  // ----- the exponent -----

  lemma MarkIsExponent(b: Radix)
    ensures IsExponentMark(ExponentMark(b), b) && !IsPart(ExponentMark(b), b, true)
    ensures IsBinaryMark(ExponentMark(b)) <==> BinaryExponent(b)
  {
    if OddPart(b) == 1 && Ctz32(b) <= 4 {
      PowerRadix(b);
      BinaryMarkDigit(b);
    }
    hide OddPart, Ctz32;
  }

  lemma BinaryMarkDigit(b: Radix)
    requires OddPart(b) == 1 && Ctz32(b) <= 4 && b == Pow2(Ctz32(b))
    ensures b <= 16
  {
    Pow2Monotone(Ctz32(b), 4);
    assert Pow2(4) == 16;
  }

  /** Decimal digits to the end of the text. */
  lemma ExponentTakesAll(o: Source, q: nat, next: nat)
    requires q <= |o.s| && IsDigitText(o.s[q..], 10) && q < next <= |o.s| && !ExponentPasses(o, next)
    ensures next == |o.s|
  {
    var t := o.s[q..];
    assert forall i :: q <= i < |o.s| ==> t[i - q] == o.s[i];
  }

  lemma NumeralIsDigits(n: nat)
    ensures IsDigitText(NumeralText(n, 10), 10) && DigitsValue(DigitsIn(NumeralText(n, 10), 10), 10) == n
  {
    NumeralValue(n, 10);
    var t := NumeralText(n, 10);
    hide NumeralText;
    assert forall i :: 0 <= i < |t| ==> Decoded(t)[i] == ToDigit(t[i]);
    DigitsOfText(t, 10);
  }

  /** A printed exponent is read back. */
  lemma ReadExponent(o: Source, mid: nat, next: nat, exponent: int, binExp: bool, d: int)
    requires mid > o.start && !o.intOnly && mid <= |o.s| && o.s[mid..] == ExponentText(o.b, d)
    requires ExponentPart(o, mid, next, exponent, binExp)
    ensures next == |o.s| && exponent == PrintedExponent(o.b, d) && (binExp <==> BinaryExponent(o.b))
  {
    MarkIsExponent(o.b);
    var n := PrintedExponent(o.b, d);
    hide ExponentMark, IsExponentMark, BinaryExponent, PrintedExponent, SignedText;
    ExponentChars(o, mid, n);
    hide ExponentWith;
    var q: nat, negative: bool :| ExponentWith(o, mid, q, next, negative, exponent);
    ReadSigned(o, mid, q, next, negative, exponent, n);
  }

  lemma ReadSigned(o: Source, mid: nat, q: nat, next: nat, negative: bool, exponent: int, n: int)
    requires ExponentWith(o, mid, q, next, negative, exponent)
    requires At(o.s, mid + 1) == (if n < 0 then '-' else '+')
    requires mid + 2 <= |o.s| && o.s[mid + 2..] == NumeralText(Absolute(n), 10)
    ensures next == |o.s| && exponent == n
  {
    NumeralIsDigits(Absolute(n));
    hide NumeralText, DigitsIn, DigitsValue;
    ExponentTakesAll(o, q, next);
    assert o.s[q..next] == o.s[q..];
  }

  /** The characters of a printed exponent. */
  lemma ExponentChars(o: Source, mid: nat, n: int)
    requires mid <= |o.s| && o.s[mid..] == [ExponentMark(o.b)] + SignedText(n)
    ensures At(o.s, mid) == ExponentMark(o.b) && At(o.s, mid + 1) == (if n < 0 then '-' else '+')
    ensures mid + 2 <= |o.s| && o.s[mid + 2..] == NumeralText(Absolute(n), 10)
  {
    hide NumeralText, ExponentMark;
    var u := o.s[mid..];
    assert u[0] == o.s[mid] && u[1] == o.s[mid + 1];
    assert o.s[mid + 2..] == u[2..];
  }

  /** At the end of the text there is no exponent. */
  lemma ReadNoExponent(o: Source, mid: nat, next: nat, exponent: int, binExp: bool)
    requires mid == |o.s| && ExponentPart(o, mid, next, exponent, binExp)
    ensures next == |o.s| && exponent == 0 && !binExp
  {
    assert !IsExponentMark(0 as char, o.b);
  }

  // ----- whole texts -----

  /** text is a sign, a mantissa text, and an exponent or nothing. */
  ghost predicate IsNumberText(text: string, sign: string, m: string, b: Radix, d: int, exponential: bool) {
    && (sign == "" || sign == "-") && |m| > 0
    && text == sign + m + (if exponential then ExponentText(b, d) else "")
  }

  /** The radix argument is the radix of the text; 0 stands for ten. */
  predicate RadixMatches(radix: RadixArgument, b: Radix) {
    radix == b || (radix == 0 && b == 10)
  }

  predicate PlainZero(m: string) {
    |m| > 0 && m[0] == '0' && (|m| == 1 || m[1] == '.')
  }

  /** The sign and the first characters. */
  lemma FirstChars(text: string, sign: string, m: string, b: Radix, d: int, exponential: bool)
    requires IsNumberText(text, sign, m, b, d, exponential) && ToDigit(m[0]) < b
    ensures SignLength(text) == |sign| && At(text, |sign|) == m[0] && (At(text, 0) == '-' <==> sign == "-")
    ensures PlainZero(m) && |m| > 1 ==> At(text, |sign| + 1) == '.'
    ensures PlainZero(m) && |m| == 1 ==> At(text, |sign| + 1) == if exponential then ExponentMark(b) else 0 as char
  {
    hide SignedText, ExponentMark;
  }

  /** No prefix is seen in a printed number. */
  lemma StartOfNumber(text: string, sign: string, m: string, b: Radix, d: int, exponential: bool,
                      radix: RadixArgument, flags: Flags)
    requires IsNumberText(text, sign, m, b, d, exponential) && ToDigit(m[0]) < b && m[0] != 'I'
    requires m[0] != '0' || PlainZero(m)
    requires RadixMatches(radix, b)
    ensures var st := StartOf(text, SignLength(text), radix, flags); st.From? && st.from == |sign| && st.b == b
    ensures SignLength(text) == |sign|
  {
    FirstChars(text, sign, m, b, d, exponential);
    hide OctalRun, IsNumberText;
    if m[0] != '0' {
      NoInfinity(text, |sign|);
    }
  }

  lemma NoInfinity(text: string, p: nat)
    requires At(text, p) != 'I'
    ensures !StartsWith(text, p, "Infinity")
  {
    if p + 8 <= |text| {
      assert text[p..p + 8][0] == text[p];
    }
  }

  /** The mantissa text stands where the scan starts. */
  lemma MantissaStands(text: string, sign: string, m: string, b: Radix, d: int, exponential: bool, o: Source)
    requires IsNumberText(text, sign, m, b, d, exponential)
    requires o.s == text && o.start == |sign| && o.b == b && !o.intOnly
    ensures StandsAt(o, |sign|, m)
    ensures exponential ==> |sign| + |m| <= |text| && text[|sign| + |m|..] == ExponentText(b, d)
    ensures !exponential ==> |sign| + |m| == |text|
  {
    MarkIsExponent(b);
    hide SignedText, ExponentMark;
    var e := if exponential then ExponentText(b, d) else "";
    assert text[|sign|..|sign| + |m|] == m && text[|sign| + |m|..] == e;
    assert !IsPart(0 as char, b, true);
    if exponential {
      assert e[0] == text[|sign| + |m|];
    }
  }

  /** Once the end of the mantissa is known, so is the rest of the token. */
  lemma TokenOfNumber(text: string, sign: string, m: string, b: Radix, d: int, exponential: bool,
                      radix: RadixArgument, flags: Flags, t: Token)
    requires IsNumberText(text, sign, m, b, d, exponential) && ToDigit(m[0]) < b && m[0] != 'I' && !flags.intOnly
    requires (m[0] != '0' || PlainZero(m)) && RadixMatches(radix, b)
    requires forall o: Source, mid: nat, digits, point ::
               StandsAt(o, |sign|, m) && o.b == b && MantissaText(o, |sign|, mid, digits, point) ==> mid == |sign| + |m|
    requires IsToken(text, radix, flags, t)
    ensures t.Numeral? && t.o.b == b && t.next == |text| && StandsAt(t.o, |sign|, m)
    ensures MantissaText(t.o, |sign|, t.mid, t.digits, t.point)
    ensures t.exponent == (if exponential then PrintedExponent(b, d) else 0)
    ensures t.binExp <==> exponential && BinaryExponent(b)
  {
    StartOfNumber(text, sign, m, b, d, exponential, radix, flags);
    var st := StartOf(text, SignLength(text), radix, flags);
    var o := SourceOf(text, st, flags);
    MantissaStands(text, sign, m, b, d, exponential, o);
    hide StartOf, IsNumberText, StandsAt, MantissaText, ExponentPart, PrintedExponent, BinaryExponent, ExponentText;
    if t.Invalid? {
      var mid: nat, digits, point :| InvalidAt(o, st.from, mid, digits, point, t.next);
      NotInvalid(o, |sign| + |m|, d, exponential, t.next);
      assert false;
    } else {
      assert t.mid == |sign| + |m|;
      if exponential {
        ReadExponent(o, t.mid, t.next, t.exponent, t.binExp, d);
      } else {
        ReadNoExponent(o, t.mid, t.next, t.exponent, t.binExp);
      }
    }
  }

  lemma NotInvalid(o: Source, mid: nat, d: int, exponential: bool, next: nat)
    requires mid > o.start && mid <= |o.s| && !o.intOnly
    requires exponential ==> o.s[mid..] == ExponentText(o.b, d)
    requires !exponential ==> mid == |o.s|
    ensures !NoNumber(o, mid, next)
  {
    hide PrintedExponent, ExponentMark, SignedText, NumeralText, OddPart, Ctz32;
    if exponential {
      ExponentDigitFollows(o, mid, PrintedExponent(o.b, d));
    } else {
      assert !IsExponentMark(0 as char, o.b);
    }
  }

  lemma ExponentDigitFollows(o: Source, mid: nat, n: int)
    requires mid <= |o.s| && o.s[mid..] == [ExponentMark(o.b)] + SignedText(n)
    ensures IsDigitAt(o.s, AfterMark(o, mid), 10)
  {
    ExponentChars(o, mid, n);
    NumeralIsDigits(Absolute(n));
    hide NumeralText, ExponentMark, SignedText, DigitsIn, DigitsValue;
    assert o.s[mid + 2..][0] == o.s[mid + 2];
  }
}
