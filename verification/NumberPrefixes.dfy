/** What js_atod makes of prefixes, of leading zeros, and of texts that are no
    number: in the words of the language, without the steps of the code. */
module NumberPrefixes {
  import opened PowersOfTwo
  import opened Binary64
  import opened RadixPowers
  import opened RadixTables
  import opened RadixReals
  import opened Digits
  import opened DigitOutput
  import opened Atod
  import opened NumberScan
  import opened NumberParsing
  import opened NumberReading
  import opened NumberGrammar

  // ----- whole numbers -----

  /** r is nearest to the number that the digit characters of w spell. */
  ghost predicate IsWhole(w: string, b: Radix, sign: string, r: Bits) {
    RoundsTo(ScaleBy(DigitsValue(Decoded(w), b) as real, 1074), if sign == "-" then 1 else 0, RNE, r)
  }

  /** All digits count: always in a power of two, otherwise up to a limit. */
  predicate AllCount(w: string, b: Radix) {
    b == 2 || b == 4 || b == 8 || b == 16 || b == 32 || |w| <= AtodMaxDigits(b)
  }

  /** Nothing that could belong to a number comes next. */
  predicate Closed(tail: string) {
    var c := At(tail, 0);
    ToDigit(c) == 36 && c != '.' && c != '_' && c != '@'
  }

  function Integer(sign: string, prefix: string, w: string, tail: string): Spelling {
    Spelling(sign, prefix, w, "", "", "", "", tail)
  }

  lemma IntegerText(sign: string, prefix: string, w: string, tail: string)
    ensures Text(Integer(sign, prefix, w, tail)) == sign + prefix + w + tail
    ensures Mantissa(Integer(sign, prefix, w, tail)) == w && AfterMantissa(Integer(sign, prefix, w, tail)) == tail
  {
    var p := Integer(sign, prefix, w, tail);
    assert Mantissa(p) == w && AfterMantissa(p) == tail;
  }

  lemma IntegerParts(sign: string, prefix: string, w: string, tail: string, b: Radix, sep: bool, intOnly: bool)
    requires IsDigitText(w, b) && |w| > 0 && Closed(tail)
    ensures var p := Integer(sign, prefix, w, tail);
            && NumberGrammar.IsMantissa(p, b, sep, intOnly) && MantissaEnds(p, b, sep, intOnly)
            && IsExponent(p, b, sep, intOnly)
  {
    IntegerText(sign, prefix, w, tail);
    forall i | 0 <= i < |w|
      ensures MantissaChar(w, i, b, sep, intOnly) && w[i] != '.'
    {
      assert ToDigit(w[i]) < b;
    }
  }

  lemma {:induction false} ZerosWorthNothing(d: seq<nat>, b: Radix)
    ensures DigitsValue(WithoutZeros(d), b) == DigitsValue(d, b)
  {
    if |d| > 0 && d[0] == 0 {
      ZerosWorthNothing(d[1..], b);
      DigitsConcat([0], d[1..], b);
      LoneZero(b);
      hide DigitsValue, Pow;
      assert d == [0] + d[1..];
    }
  }

  lemma LoneZero(b: Radix)
    ensures DigitsValue([0], b) == 0
  {
  }

  lemma PowersKeepAll(w: string, b: Radix, d: seq<nat>)
    requires AllCount(w, b) && |d| <= |w|
    ensures Kept(d, b) == d
  {
    if b == 2 || b == 4 || b == 8 || b == 16 {
      PowerMarks(b);
    } else if b == 32 {
      RadixParts(b);
      OddOf32(OddPart(b), Ctz32(b));
    }
    hide OddPart, AtodMaxDigits;
    assert d[..|d|] == d;
  }

  lemma OddOf32(o: nat, k: nat)
    requires 32 == o * Pow2(k) && o % 2 == 1 && k <= 5
    ensures o == 1
  {
    assert Pow2(0) == 1 && Pow2(1) == 2 && Pow2(2) == 4 && Pow2(3) == 8 && Pow2(4) == 16 && Pow2(5) == 32;
    hide Pow2;
    assert k == 0 || k == 1 || k == 2 || k == 3 || k == 4 || k == 5;
  }

  lemma UnitPower(v: real, b: Radix)
    ensures RadixValue(v, b, 0) == v
  {
    PowZero(b);
    hide Pow;
    RadixValueUnique(v, v, b, 0);
  }

  /** Whole digits are worth what they spell. */
  lemma RoundedWhole(w: string, b: Radix, sign: nat, r: Bits)
    requires IsDigitText(w, b) && AllCount(w, b) && sign <= 1
    requires var d := WithoutZeros(Decoded(w)); IsRounded(d, b, |d|, 0, false, sign, r)
    ensures RoundsTo(ScaleBy(DigitsValue(Decoded(w), b) as real, 1074), sign, RNE, r)
  {
    var d := WithoutZeros(Decoded(w));
    PowersKeepAll(w, b, d);
    hide Kept, IsNumeral, RoundsTo, DigitsValue, ScaleBy, RadixValue, AllCount, WithoutZeros;
    var x: real :| ValueWith(x, d, b, |d|, 0, false, sign, r);
    var v := DigitsValue(d, b);
    NumeralIs(x, d, v, b, |d|, 0, false, 0);
    UnitPower(v as real, b);
    ZerosWorthNothing(Decoded(w), b);
  }

  /** A whole number with its prefix. */
  lemma WholeRead(sign: string, prefix: string, w: string, tail: string, radix: RadixArgument, flags: Flags, b: Radix,
                  sep: bool, next: nat, r: Bits)
    requires IsDigitText(w, b) && |w| > 0 && Closed(tail) && AllCount(w, b)
    requires sign == "" || sign == "+" || sign == "-"
    requires IsPrefix(Integer(sign, prefix, w, tail), radix, flags, b, sep)
          || NoPrefix(Integer(sign, prefix, w, tail), radix, flags, b, sep)
    requires Reads(sign + prefix + w + tail, radix, flags, next, r)
    ensures next == |sign| + |prefix| + |w| && IsWhole(w, b, sign, r)
  {
    var p := Integer(sign, prefix, w, tail);
    IntegerText(sign, prefix, w, tail);
    IntegerParts(sign, prefix, w, tail, b, sep, flags.intOnly);
    DigitsOfText(w, b);
    EmptyParts();
    assert IsSpelling(p, radix, flags, b, sep);
    assert !IsBinary(p) && SignBit(p) == if sign == "-" then 1 else 0;
    assert SpelledDigits(p, b) == WithoutZeros(Decoded(w));
    assert SpelledExponent(p) == 0 && PointOf(p, b) == |SpelledDigits(p, b)|;
    hide *;
    SpellingRead(p, radix, flags, b, sep, next, r);
    RoundedWhole(w, b, if sign == "-" then 1 else 0, r);
    WholeIntro(w, b, sign, r);
  }

  lemma WholeIntro(w: string, b: Radix, sign: string, r: Bits)
    requires RoundsTo(ScaleBy(DigitsValue(Decoded(w), b) as real, 1074), if sign == "-" then 1 else 0, RNE, r)
    ensures IsWhole(w, b, sign, r)
  {
  }

  lemma EmptyParts()
    ensures forall b: Radix :: DigitsIn("", b) == []
    ensures DigitsValue([], 10) == 0
  {
  }

  // ----- prefixes -----

  /** The letters of the prefixes, with their radices, and when they count. */
  predicate IsPrefixLetter(c: char, b: Radix) {
    || ((c == 'x' || c == 'X') && b == 16)
    || ((c == 'o' || c == 'O') && b == 8)
    || ((c == 'b' || c == 'B') && b == 2)
  }

  predicate PrefixCounts(b: Radix, radix: RadixArgument, flags: Flags) {
    if b == 16 then radix == 0 || radix == 16 else radix == 0 && flags.binOct
  }

  /** 0x, 0o and 0b: the digits after the letter are hexadecimal, octal, binary,
      and all of them are read. */
  lemma PrefixRead(sign: string, c: char, b: Radix, w: string, tail: string, radix: RadixArgument, flags: Flags,
                   next: nat, r: Bits)
    requires sign == "" || sign == "+" || sign == "-"
    requires IsPrefixLetter(c, b) && PrefixCounts(b, radix, flags)
    requires IsDigitText(w, b) && |w| > 0 && Closed(tail)
    requires Reads(sign + ("0" + [c]) + w + tail, radix, flags, next, r)
    ensures next == |sign| + 2 + |w| && IsWhole(w, b, sign, r)
  {
    var prefix := "0" + [c];
    IntegerText(sign, prefix, w, tail);
    assert ToDigit(w[0]) < b;
    hide Reads, IsWhole, IsDigitText, Closed;
    WholeRead(sign, prefix, w, tail, radix, flags, b, flags.underscores, next, r);
  }

  /** Without the flag, or in another radix, the letter is not read: the number
      is the zero before it. */
  lemma PrefixNotTaken(sign: string, c: char, b: Radix, rest: string, radix: RadixArgument, flags: Flags,
                       next: nat, r: Bits)
    requires sign == "" || sign == "+" || sign == "-"
    requires IsPrefixLetter(c, b) && !PrefixCounts(b, radix, flags)
    requires ToDigit(c) >= if radix == 0 then 10 else radix
    requires Reads(sign + "0" + ([c] + rest), radix, flags, next, r)
    ensures next == |sign| + 1 && r == Pack(if sign == "-" then 1 else 0, 0, 0)
  {
    hide Reads, IsPrefixLetter, PrefixCounts;
    var ten: Radix := if radix == 0 then 10 else radix;
    var p := Integer(sign, "", "0", [c] + rest);
    assert sign + "" + "0" + ([c] + rest) == sign + "0" + ([c] + rest);
    hide *;
    IntegerText(sign, "", "0", [c] + rest);
    ZeroSpelling(sign, c, b, rest, radix, flags, ten);
    SpellingRead(p, radix, flags, ten, flags.underscores, next, r);
    AloneZero(sign, [c] + rest);
    RoundedZero(ten, PointOf(p, ten), SpelledExponent(p), IsBinary(p), SignBit(p), r);
  }

  lemma ZeroSpelling(sign: string, c: char, b: Radix, rest: string, radix: RadixArgument, flags: Flags, ten: Radix)
    requires sign == "" || sign == "+" || sign == "-"
    requires IsPrefixLetter(c, b) && !PrefixCounts(b, radix, flags)
    requires ten == (if radix == 0 then 10 else radix) && ToDigit(c) >= ten
    ensures var p := Integer(sign, "", "0", [c] + rest);
            IsSpelling(p, radix, flags, ten, flags.underscores) && SpelledDigits(p, ten) == []
            && SignBit(p) == if sign == "-" then 1 else 0
  {
    var p := Integer(sign, "", "0", [c] + rest);
    IntegerText(sign, "", "0", [c] + rest);
    DigitsOfText("0", ten);
    ZeroHasNoPrefix(sign, c, b, rest, radix, flags, ten);
    ZeroParts(sign, c, b, rest, ten, flags.underscores, flags.intOnly);
    hide Mantissa, AfterMantissa, Text, DigitsIn, NoPrefix, IsPrefix, IsPrefixLetter, PrefixCounts;
    hide NumberGrammar.IsMantissa, MantissaEnds, IsExponent;
    assert Decoded("0") == [0] && WithoutZeros([0]) == [];
  }

  lemma ZeroHasNoPrefix(sign: string, c: char, b: Radix, rest: string, radix: RadixArgument, flags: Flags, ten: Radix)
    requires IsPrefixLetter(c, b) && !PrefixCounts(b, radix, flags)
    requires ten == (if radix == 0 then 10 else radix)
    ensures NoPrefix(Integer(sign, "", "0", [c] + rest), radix, flags, ten, flags.underscores)
  {
    IntegerText(sign, "", "0", [c] + rest);
    hide Mantissa, AfterMantissa, HasDecimalDigit;
  }

  lemma ZeroParts(sign: string, c: char, b: Radix, rest: string, ten: Radix, sep: bool, intOnly: bool)
    requires IsPrefixLetter(c, b) && ToDigit(c) >= ten
    ensures var p := Integer(sign, "", "0", [c] + rest);
            && NumberGrammar.IsMantissa(p, ten, sep, intOnly) && MantissaEnds(p, ten, sep, intOnly)
            && IsExponent(p, ten, sep, intOnly)
  {
    IntegerText(sign, "", "0", [c] + rest);
    hide Mantissa, AfterMantissa;
    assert MantissaChar("0", 0, ten, sep, intOnly);
  }

  lemma AloneZero(sign: string, tail: string)
    ensures |Text(Integer(sign, "", "0", tail))| == |sign| + 1 + |tail|
    ensures Integer(sign, "", "0", tail).tail == tail
  {
    IntegerText(sign, "", "0", tail);
  }

  /** No significant digit means zero. */
  lemma RoundedZero(b: Radix, point: int, exponent: int, binExp: bool, sign: nat, r: Bits)
    requires sign <= 1 && IsRounded([], b, point, exponent, binExp, sign, r)
    ensures r == Pack(sign, 0, 0)
  {
    hide IsNumeral, RoundsTo;
    var x: real :| ValueWith(x, [], b, point, exponent, binExp, sign, r);
    KeptOfNone([], b);
    EmptyIsZero(x, b, point, exponent, binExp);
    ZeroRoundsToZero(sign, RNE);
    RoundsToUnique(x, sign, RNE, r, Pack(sign, 0, 0));
  }

  /** After a prefix there must be a digit. */
  lemma PrefixWithoutDigit(sign: string, c: char, b: Radix, rest: string, radix: RadixArgument, flags: Flags,
                           next: nat, r: Bits)
    requires sign == "" || sign == "+" || sign == "-"
    requires IsPrefixLetter(c, b) && PrefixCounts(b, radix, flags) && ToDigit(At(rest, 0)) >= b
    requires Reads(sign + ("0" + [c] + rest), radix, flags, next, r)
    ensures next == |sign| + 2 && r == QNAN
  {
    var s := sign + ("0" + [c] + rest);
    NoDigitStart(sign, c, b, rest, radix, flags);
    hide *;
    NoDigitRead(s, radix, flags, |sign| + 2, next, r);
  }

  lemma NoDigitStart(sign: string, c: char, b: Radix, rest: string, radix: RadixArgument, flags: Flags)
    requires sign == "" || sign == "+" || sign == "-"
    requires IsPrefixLetter(c, b) && PrefixCounts(b, radix, flags) && ToDigit(At(rest, 0)) >= b
    ensures var s := sign + ("0" + [c] + rest);
            SignLength(s) == |sign| && StartOf(s, |sign|, radix, flags) == NoDigit(|sign| + 2)
  {
    hide OctalRun;
    var t := "0" + [c] + rest;
    CharAfter(sign, t, 0);
    CharAfter(sign, t, 1);
    CharAfter(sign, t, 2);
    CharAfter("0" + [c], rest, 0);
  }

  lemma NoDigitRead(s: string, radix: RadixArgument, flags: Flags, at: nat, next: nat, r: Bits)
    requires StartOf(s, SignLength(s), radix, flags) == NoDigit(at) && Reads(s, radix, flags, next, r)
    ensures next == at && r == QNAN
  {
    hide StartOf, IsRounded, MantissaText, ExponentPart, InvalidAt;
    var k: Token :| ReadsAs(s, radix, flags, k, r) && next == k.next;
  }

  // ----- leading zeros -----

  predicate IsOctalText(w: string) {
    |w| > 0 && forall i :: 0 <= i < |w| ==> '0' <= w[i] <= '7'
  }

  lemma OctalIsDigits(w: string)
    requires IsOctalText(w)
    ensures IsDigitText(w, 8)
  {
  }

  /** Legacy octal numbers: a leading zero and octal digits. */
  lemma LegacyOctalRead(sign: string, w: string, tail: string, flags: Flags, next: nat, r: Bits)
    requires sign == "" || sign == "+" || sign == "-"
    requires flags.legacyOctal && IsOctalText(w) && Closed(tail)
    requires Reads(sign + "0" + w + tail, 0, flags, next, r)
    ensures next == |sign| + 1 + |w| && IsWhole(w, 8, sign, r)
  {
    IntegerText(sign, "0", w, tail);
    OctalIsDigits(w);
    hide Reads, IsWhole, IsDigitText;
    WholeRead(sign, "0", w, tail, 0, flags, 8, false, next, r);
  }

  /** With an 8 or a 9 they are decimal, and so are all of them without the
      flag. */
  lemma LeadingZeroRead(sign: string, w: string, tail: string, flags: Flags, next: nat, r: Bits)
    requires sign == "" || sign == "+" || sign == "-"
    requires IsDigitText(w, 10) && |w| > 0 && Closed(tail) && |w| < AtodMaxDigits(10)
    requires flags.legacyOctal ==> exists k :: 0 <= k < |w| && (w[k] == '8' || w[k] == '9')
    requires Reads(sign + "0" + w + tail, 0, flags, next, r)
    ensures next == |sign| + 1 + |w| && IsWhole("0" + w, 10, sign, r)
  {
    hide *;
    var v := "0" + w;
    assert sign + "" + v + tail == sign + "0" + w + tail;
    WithLeadingZero(w);
    LeadingZeroStart(sign, w, tail, flags);
    WholeRead(sign, "", v, tail, 0, flags, 10, flags.underscores && !flags.legacyOctal, next, r);
  }

  lemma WithLeadingZero(w: string)
    requires IsDigitText(w, 10) && |w| < AtodMaxDigits(10)
    ensures IsDigitText("0" + w, 10) && AllCount("0" + w, 10)
  {
    hide AtodMaxDigits;
  }

  lemma LeadingZeroStart(sign: string, w: string, tail: string, flags: Flags)
    requires IsDigitText(w, 10) && |w| > 0
    requires flags.legacyOctal ==> exists k :: 0 <= k < |w| && (w[k] == '8' || w[k] == '9')
    ensures NoPrefix(Integer(sign, "", "0" + w, tail), 0, flags, 10, flags.underscores && !flags.legacyOctal)
  {
    var v := "0" + w;
    IntegerText(sign, "", v, tail);
    DecimalChar(w[0]);
    if flags.legacyOctal {
      var k: nat :| k < |w| && (w[k] == '8' || w[k] == '9');
      DecimalAmong(w, k, tail);
    }
    hide Mantissa, AfterMantissa, HasDecimalDigit, IsDigitText;
  }

  lemma DecimalChar(c: char)
    requires ToDigit(c) < 10
    ensures '0' <= c <= '9'
  {
  }

  lemma {:induction false} DecimalAmong(w: string, k: nat, tail: string)
    requires IsDigitText(w, 10) && k < |w| && (w[k] == '8' || w[k] == '9')
    ensures HasDecimalDigit("0" + w + tail)
    decreases k
  {
    var t := "0" + w + tail;
    if j: nat :| j < k && (w[j] == '8' || w[j] == '9') {
      DecimalAmong(w, j, tail);
    } else {
      forall i | 1 <= i < k + 1
        ensures '0' <= t[i] <= '7'
      {
        assert t[i] == w[i - 1];
        DecimalChar(w[i - 1]);
      }
      assert t[k + 1] == w[k];
      assert DecimalDigitAt(t, k + 1);
    }
  }

  /** Plain digits in the radix that was asked for, or in ten. */
  lemma PlainRead(sign: string, w: string, tail: string, radix: RadixArgument, flags: Flags, b: Radix,
                  next: nat, r: Bits)
    requires sign == "" || sign == "+" || sign == "-"
    requires radix == b || (radix == 0 && b == 10)
    requires IsDigitText(w, b) && |w| > 0 && Closed(tail) && AllCount(w, b)
    requires w[0] != '0' && (w[0] != 'I' || flags.intOnly)
    requires Reads(sign + w + tail, radix, flags, next, r)
    ensures next == |sign| + |w| && IsWhole(w, b, sign, r)
  {
    hide *;
    assert sign + "" + w + tail == sign + w + tail;
    PlainHasNoPrefix(sign, w, tail, radix, flags, b);
    WholeRead(sign, "", w, tail, radix, flags, b, flags.underscores, next, r);
  }

  lemma PlainHasNoPrefix(sign: string, w: string, tail: string, radix: RadixArgument, flags: Flags, b: Radix)
    requires radix == b || (radix == 0 && b == 10)
    requires |w| > 0 && w[0] != '0' && (w[0] != 'I' || flags.intOnly)
    ensures NoPrefix(Integer(sign, "", w, tail), radix, flags, b, flags.underscores)
  {
    IntegerText(sign, "", w, tail);
    hide Mantissa, AfterMantissa, HasDecimalDigit;
  }

  // ----- words and no numbers -----

  /** The word Infinity, with its sign. */
  lemma InfinityRead(sign: string, rest: string, radix: RadixArgument, flags: Flags, next: nat, r: Bits)
    requires sign == "" || sign == "+" || sign == "-"
    requires !flags.intOnly && Reads(sign + ("Infinity" + rest), radix, flags, next, r)
    ensures next == |sign| + 8 && r == Pack(if sign == "-" then 1 else 0, EXP_MASK, 0)
  {
    InfinityStarts(sign, rest, radix, flags);
    hide *;
    InfinityValue(sign + ("Infinity" + rest), radix, flags, next, r);
  }

  lemma InfinityStarts(sign: string, rest: string, radix: RadixArgument, flags: Flags)
    requires (sign == "" || sign == "+" || sign == "-") && !flags.intOnly
    ensures var s := sign + ("Infinity" + rest);
            && SignLength(s) == |sign| && (At(s, 0) == '-' <==> sign == "-")
            && StartOf(s, |sign|, radix, flags) == InfinityWord
  {
    hide OctalRun;
    var t := "Infinity" + rest;
    var s := sign + t;
    CharAfter(sign, t, 0);
    assert At(t, 0) == 'I';
    assert s[|sign|..|sign| + 8] == "Infinity";
  }

  lemma InfinityValue(s: string, radix: RadixArgument, flags: Flags, next: nat, r: Bits)
    requires StartOf(s, SignLength(s), radix, flags) == InfinityWord && Reads(s, radix, flags, next, r)
    ensures next == SignLength(s) + 8 && r == Pack(if At(s, 0) == '-' then 1 else 0, EXP_MASK, 0)
  {
    hide StartOf, SignLength, IsRounded, MantissaText, ExponentPart, InvalidAt;
    var k: Token :| ReadsAs(s, radix, flags, k, r) && next == k.next;
  }

  /** Neither a digit, nor a dot before a digit, nor the word: no number. */
  lemma NoNumberRead(sign: string, rest: string, radix: RadixArgument, flags: Flags, next: nat, r: Bits)
    requires sign == "" || sign == "+" || sign == "-"
    requires sign == "" ==> At(rest, 0) != '+' && At(rest, 0) != '-'
    requires var b := if radix == 0 then 10 else radix;
             ToDigit(At(rest, 0)) >= b && (At(rest, 0) == '.' ==> flags.intOnly || ToDigit(At(rest, 1)) >= b)
    requires flags.intOnly || !StartsWith(rest, 0, "Infinity")
    requires Reads(sign + rest, radix, flags, next, r)
    ensures next == |sign| && r == QNAN
  {
    hide Reads, IsToken;
    var b: Radix := if radix == 0 then 10 else radix;
    var s := sign + rest;
    var t := TokenRead(s, radix, flags, next, r);
    NoNumberStart(sign, rest, radix, flags, b);
    var o := Source(s, |sign|, b, flags.underscores, flags.intOnly);
    CharAfter(sign, rest, 0);
    CharAfter(sign, rest, 1);
    assert Ends(o, |sign|, -1);
    NothingScannedText(o);
    hide *;
    InvalidIntroAt(o, |sign|);
    InvalidToken(s, radix, flags, o, |sign|, |sign|);
    TokenUnique(s, radix, flags, t, Invalid(|sign|));
  }

  lemma InvalidIntroAt(o: Source, at: nat)
    requires at == o.start && MantissaText(o, at, at, [], 0) && !HasExponent(o, at)
    ensures exists mid: nat, digits, point :: InvalidAt(o, at, mid, digits, point, at)
  {
    hide MantissaText, HasExponent;
    assert InvalidAt(o, at, at, [], 0, at);
  }

  lemma NoNumberStart(sign: string, rest: string, radix: RadixArgument, flags: Flags, b: Radix)
    requires sign == "" || sign == "+" || sign == "-"
    requires sign == "" ==> At(rest, 0) != '+' && At(rest, 0) != '-'
    requires b == (if radix == 0 then 10 else radix) && ToDigit(At(rest, 0)) >= b
    requires flags.intOnly || !StartsWith(rest, 0, "Infinity")
    ensures SignLength(sign + rest) == |sign|
    ensures StartOf(sign + rest, |sign|, radix, flags) == From(|sign|, b, flags.underscores)
    ensures SourceOf(sign + rest, From(|sign|, b, flags.underscores), flags)
         == Source(sign + rest, |sign|, b, flags.underscores, flags.intOnly)
  {
    hide OctalRun;
    var s := sign + rest;
    CharAfter(sign, rest, 0);
    if |sign| + 8 <= |s| {
      assert s[|sign|..|sign| + 8] == rest[0..8];
    }
  }

  // ----- examples -----

  lemma SmallNumerals()
    ensures DigitsValue(Decoded("11"), 2) == 3 && DigitsValue(Decoded("17"), 8) == 15
    ensures DigitsValue(Decoded("018"), 10) == 18 && DigitsValue(Decoded("fF"), 16) == 255
  {
    assert Decoded("11") == [1, 1] && Decoded("17") == [1, 7] && Decoded("018") == [0, 1, 8] &&
           Decoded("fF") == [15, 15];
    assert [1, 1][..1] == [1] && [1][..0] == [] && [1, 7][..1] == [1];
    assert [0, 1, 8][..2] == [0, 1] && [0, 1][..1] == [0] && [0][..0] == [];
    assert [15, 15][..1] == [15] && [15][..0] == [];
  }

  /** 0b11 is 3, 0o17 is 15, 0xfF is 255, 017 is 15 and 018 is 18. */
  lemma PrefixExamples(next: nat, r: Bits)
    ensures Reads("0b11", 0, Flags(false, true, false, false), next, r) ==>
              next == 4 && RoundsTo(ScaleBy(3.0, 1074), 0, RNE, r)
    ensures Reads("0o17", 0, Flags(false, true, false, false), next, r) ==>
              next == 4 && RoundsTo(ScaleBy(15.0, 1074), 0, RNE, r)
    ensures Reads("0xfF", 0, Flags(false, false, false, false), next, r) ==>
              next == 4 && RoundsTo(ScaleBy(255.0, 1074), 0, RNE, r)
    ensures Reads("017", 0, Flags(false, false, true, false), next, r) ==>
              next == 3 && RoundsTo(ScaleBy(15.0, 1074), 0, RNE, r)
    ensures Reads("018", 0, Flags(false, false, true, false), next, r) ==>
              next == 3 && RoundsTo(ScaleBy(18.0, 1074), 0, RNE, r)
    ensures Reads("0b1", 0, Flags(false, false, false, false), next, r) ==> next == 1 && r == 0
  {
    hide *;
    SmallNumerals();
    ExampleTexts();
    ExampleDigits();
    var binOct, legacy, none := Flags(false, true, false, false), Flags(false, false, true, false),
      Flags(false, false, false, false);
    if Reads("0b11", 0, binOct, next, r) {
      PrefixRead("", 'b', 2, "11", "", 0, binOct, next, r);
      WholeValue("11", 2, 3, r);
    }
    if Reads("0o17", 0, binOct, next, r) {
      PrefixRead("", 'o', 8, "17", "", 0, binOct, next, r);
      WholeValue("17", 8, 15, r);
    }
    if Reads("0xfF", 0, none, next, r) {
      PrefixRead("", 'x', 16, "fF", "", 0, none, next, r);
      WholeValue("fF", 16, 255, r);
    }
    if Reads("017", 0, legacy, next, r) {
      LegacyOctalRead("", "17", "", legacy, next, r);
      WholeValue("17", 8, 15, r);
    }
    if Reads("018", 0, legacy, next, r) {
      LeadingZeroRead("", "18", "", legacy, next, r);
      WholeValue("018", 10, 18, r);
    }
    if Reads("0b1", 0, none, next, r) {
      PrefixNotTaken("", 'b', 2, "1", 0, none, next, r);
    }
  }

  lemma WholeValue(w: string, b: Radix, v: nat, r: Bits)
    requires IsWhole(w, b, "", r) && DigitsValue(Decoded(w), b) == v
    ensures RoundsTo(ScaleBy(v as real, 1074), 0, RNE, r)
  {
    hide DigitsValue, ScaleBy, RoundsTo;
  }

  lemma ExampleDigits()
    ensures IsDigitText("11", 2) && IsDigitText("17", 8) && IsDigitText("fF", 16) && IsDigitText("18", 10)
    ensures IsOctalText("17") && "18"[1] == '8' && |"18"| < AtodMaxDigits(10) && Closed("")
    ensures IsPrefixLetter('b', 2) && IsPrefixLetter('o', 8) && IsPrefixLetter('x', 16)
    ensures forall f: Flags :: PrefixCounts(16, 0, f) && (PrefixCounts(2, 0, f) <==> f.binOct)
    ensures forall f: Flags :: PrefixCounts(8, 0, f) <==> f.binOct
    ensures ToDigit('b') == 11
  {
  }

  lemma ExampleTexts()
    ensures "" + ("0" + ['b']) + "11" + "" == "0b11" && "" + ("0" + ['o']) + "17" + "" == "0o17"
    ensures "" + ("0" + ['x']) + "fF" + "" == "0xfF" && "" + "0" + "17" + "" == "017" && "" + "0" + "18" + "" == "018"
    ensures "" + "0" + (['b'] + "1") == "0b1" && "0" + "18" == "018" && Pack(0, 0, 0) == 0
    ensures |""| == 0 && |"0"| == 1 && |"1"| == 1 && |"11"| == 2 && |"17"| == 2 && |"fF"| == 2 && |"18"| == 2
  {
  }
}
