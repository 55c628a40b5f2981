/** The texts that js_atod accepts, spelled out part by part, and what each of
    them is read as: sign, prefix, digits with a dot and separators, exponent. */
module NumberGrammar {
  import opened PowersOfTwo
  import opened Binary64
  import opened RadixTables
  import opened Digits
  import opened DigitOutput
  import opened NumberScan
  import opened NumberParsing
  import opened NumberReading

  /** A number in its parts, and what follows it. */
  datatype Spelling = Spelling(
    sign: string,
    prefix: string,
    whole: string,
    fraction: string,
    mark: string,
    exponentSign: string,
    exponent: string,
    tail: string)

  function Mantissa(p: Spelling): string {
    p.whole + p.fraction
  }

  function AfterMantissa(p: Spelling): string {
    p.mark + p.exponentSign + p.exponent + p.tail
  }

  function Text(p: Spelling): string {
    p.sign + p.prefix + (Mantissa(p) + AfterMantissa(p))
  }

  // ----- the parts -----

  /** Digits, separators before a digit, and one dot, which may come first when
      a digit follows. */
  predicate MantissaChar(m: string, i: nat, b: Radix, sep: bool, intOnly: bool)
    requires i < |m|
  {
    || ToDigit(m[i]) < b
    || (m[i] == '.' && !intOnly && (i > 0 || ToDigit(At(m, 1)) < b))
    || (m[i] == '_' && sep && i > 0 && ToDigit(At(m, i + 1)) < b)
  }

  predicate IsMantissa(p: Spelling, b: Radix, sep: bool, intOnly: bool) {
    && |Mantissa(p)| > 0
    && (forall i :: 0 <= i < |Mantissa(p)| ==> MantissaChar(Mantissa(p), i, b, sep, intOnly))
    && '.' !in p.whole
    && (p.fraction == "" || (p.fraction[0] == '.' && '.' !in p.fraction[1..]))
  }

  /** What comes next is no further part of the mantissa. */
  predicate MantissaEnds(p: Spelling, b: Radix, sep: bool, intOnly: bool) {
    var r := AfterMantissa(p);
    && ToDigit(At(r, 0)) >= b
    && (At(r, 0) == '.' ==> intOnly || p.fraction != "")
    && (At(r, 0) == '_' ==> !sep || ToDigit(At(r, 1)) >= b)
  }

  /** The letters that introduce an exponent. */
  predicate IsMark(c: char, b: Radix) {
    if b == 10 then c == 'e' || c == 'E'
    else c == '@' || ((b == 2 || b == 4 || b == 8 || b == 16) && (c == 'p' || c == 'P'))
  }

  predicate ExponentChar(e: string, i: nat, sep: bool)
    requires i < |e|
  {
    ToDigit(e[i]) < 10 || (e[i] == '_' && sep && ToDigit(At(e, i + 1)) < 10)
  }

  /** A mark, an optional sign and decimal digits; or nothing, and no mark. */
  predicate IsExponent(p: Spelling, b: Radix, sep: bool, intOnly: bool) {
    if p.mark == "" then
      p.exponentSign == "" && p.exponent == "" && (intOnly || !IsMark(At(p.tail, 0), b))
    else
      && !intOnly && |p.mark| == 1 && IsMark(p.mark[0], b)
      && (p.exponentSign == "" || p.exponentSign == "+" || p.exponentSign == "-")
      && |p.exponent| > 0 && ToDigit(p.exponent[0]) < 10
      && (forall i :: 0 <= i < |p.exponent| ==> ExponentChar(p.exponent, i, sep))
      && ToDigit(At(p.tail, 0)) >= 10 && (At(p.tail, 0) == '_' ==> !sep || ToDigit(At(p.tail, 1)) >= 10)
  }

  /** The prefixes and the radix they stand for: 0x, 0o and 0b, and the leading
      zero of a legacy octal number. */
  predicate IsPrefix(p: Spelling, radix: RadixArgument, flags: Flags, b: Radix, sep: bool) {
    || (|p.prefix| == 2 && p.prefix[0] == '0' && ToDigit(At(Mantissa(p), 0)) < b && sep == flags.underscores
        && (|| ((p.prefix[1] == 'x' || p.prefix[1] == 'X') && b == 16 && (radix == 0 || radix == 16))
            || ((p.prefix[1] == 'o' || p.prefix[1] == 'O') && b == 8 && radix == 0 && flags.binOct)
            || ((p.prefix[1] == 'b' || p.prefix[1] == 'B') && b == 2 && radix == 0 && flags.binOct)))
    || (p.prefix == "0" && b == 8 && radix == 0 && flags.legacyOctal && !sep
        && |p.whole| > 0 && (forall i :: 0 <= i < |p.whole| ==> '0' <= p.whole[i] <= '7')
        && (p.fraction != "" || !('0' <= At(AfterMantissa(p), 0) <= '9')))
  }

  /** The number is written without a prefix. */
  ghost predicate NoPrefix(p: Spelling, radix: RadixArgument, flags: Flags, b: Radix, sep: bool) {
    var t := Mantissa(p) + AfterMantissa(p);
    var c := At(t, 1);
    && p.prefix == "" && (radix == b || (radix == 0 && b == 10))
    && if At(t, 0) != '0' then sep == flags.underscores && (flags.intOnly || At(t, 0) != 'I')
       else if radix == 0 && flags.legacyOctal && '0' <= c <= '9' then !sep && HasDecimalDigit(t)
       else
         && sep == flags.underscores
         && ((c == 'x' || c == 'X') ==> radix != 0 && radix != 16)
         && ((c == 'o' || c == 'O' || c == 'b' || c == 'B') ==> radix != 0 || !flags.binOct)
  }

  /** An 8 or 9 among the digits after a leading zero. */
  predicate DecimalDigitAt(t: string, k: nat) {
    1 <= k < |t| && (t[k] == '8' || t[k] == '9') && forall i :: 1 <= i < k ==> '0' <= t[i] <= '7'
  }

  ghost predicate HasDecimalDigit(t: string) {
    exists k: nat :: DecimalDigitAt(t, k)
  }

  /** A number up to its exponent. */
  ghost predicate Begins(p: Spelling, radix: RadixArgument, flags: Flags, b: Radix, sep: bool) {
    && (p.sign == "" || p.sign == "+" || p.sign == "-")
    && (IsPrefix(p, radix, flags, b, sep) || NoPrefix(p, radix, flags, b, sep))
    && IsMantissa(p, b, sep, flags.intOnly) && MantissaEnds(p, b, sep, flags.intOnly)
  }

  ghost predicate IsSpelling(p: Spelling, radix: RadixArgument, flags: Flags, b: Radix, sep: bool) {
    Begins(p, radix, flags, b, sep) && IsExponent(p, b, sep, flags.intOnly)
  }

  /** A mark that no digit follows. */
  predicate IsBareMark(p: Spelling, b: Radix) {
    && |p.mark| == 1 && IsMark(p.mark[0], b) && p.exponent == "" && ToDigit(At(p.tail, 0)) >= 10
    && (p.exponentSign == "" || p.exponentSign == "+" || p.exponentSign == "-")
    && (p.exponentSign == "" ==> At(p.tail, 0) != '+' && At(p.tail, 0) != '-')
  }

  // ----- the value -----

  /** Digits without the zeros in front. */
  function WithoutZeros(d: seq<nat>): (r: seq<nat>)
    ensures |r| <= |d| && (|r| > 0 ==> r[0] > 0)
  {
    if |d| > 0 && d[0] == 0 then WithoutZeros(d[1..]) else d
  }

  function SpelledDigits(p: Spelling, b: Radix): seq<nat> {
    WithoutZeros(DigitsIn(Mantissa(p), b))
  }

  /** The significant digits before the dot; negative when zeros follow it. */
  function PointOf(p: Spelling, b: Radix): int {
    |SpelledDigits(p, b)| - |DigitsIn(p.fraction, b)|
  }

  function SpelledExponent(p: Spelling): int {
    var n := DigitsValue(DigitsIn(p.exponent, 10), 10);
    if p.exponentSign == "-" then 0 - n else n
  }

  predicate IsBinary(p: Spelling) {
    p.mark == "p" || p.mark == "P"
  }

  function SignBit(p: Spelling): nat {
    if p.sign == "-" then 1 else 0
  }

  // ----- where reading starts -----

  lemma CharAfter(head: string, t: string, i: nat)
    ensures At(head + t, |head| + i) == At(t, i)
  {
  }

  lemma HeadChars(head: string, t: string, i: nat)
    requires i < |head|
    ensures At(head + t, i) == head[i]
  {
  }

  /** The sign, and what follows it. */
  lemma SignOfText(p: Spelling, radix: RadixArgument, flags: Flags, b: Radix, sep: bool)
    requires Begins(p, radix, flags, b, sep)
    ensures SignLength(Text(p)) == |p.sign| && (At(Text(p), 0) == '-' <==> p.sign == "-")
  {
    var t := p.prefix + (Mantissa(p) + AfterMantissa(p));
    assert Text(p) == p.sign + t;
    if p.sign == "" {
      assert MantissaChar(Mantissa(p), 0, b, sep, flags.intOnly);
      FirstOfMantissa(p, b, sep, flags.intOnly);
    }
  }

  lemma FirstOfMantissa(p: Spelling, b: Radix, sep: bool, intOnly: bool)
    requires IsMantissa(p, b, sep, intOnly)
    ensures Mantissa(p)[0] != '+' && Mantissa(p)[0] != '-'
  {
    assert MantissaChar(Mantissa(p), 0, b, sep, intOnly);
  }

  /** Octal digits up to k. */
  lemma {:induction false} OctalUpTo(s: string, i: nat, k: nat)
    requires i <= k <= |s| && forall j :: i <= j < k ==> '0' <= s[j] <= '7'
    requires !('0' <= At(s, k) <= '7')
    ensures OctalRun(s, i) <==> At(s, k) != '8' && At(s, k) != '9'
    decreases k - i
  {
    if i < k {
      OctalUpTo(s, i + 1, k);
    }
  }

  lemma LegacyStart(p: Spelling, radix: RadixArgument, flags: Flags, b: Radix, sep: bool)
    requires p.prefix == "0" && b == 8 && radix == 0 && flags.legacyOctal && !sep && |p.whole| > 0
    requires forall i :: 0 <= i < |p.whole| ==> '0' <= p.whole[i] <= '7'
    requires p.fraction == "" || p.fraction[0] == '.'
    requires p.fraction != "" || !('0' <= At(AfterMantissa(p), 0) <= '9')
    ensures StartOf(Text(p), |p.sign|, radix, flags) == From(|p.sign| + 1, b, sep)
  {
    hide AfterMantissa, OctalRun;
    var s := Text(p);
    var head, rest := p.sign + "0", p.fraction + AfterMantissa(p);
    assert s == head + (p.whole + rest);
    forall i | 0 <= i < |p.whole|
      ensures At(s, |head| + i) == p.whole[i] == s[|head| + i]
    {
      CharAfter(head, p.whole + rest, i);
    }
    CharAfter(head, p.whole + rest, |p.whole|);
    CharAfter(p.whole, rest, 0);
    assert At(s, |p.sign|) == '0' by { HeadChars(head, p.whole + rest, |p.sign|); }
    OctalUpTo(s, |head|, |head| + |p.whole|);
    assert At(s, |head|) == p.whole[0];
  }

  lemma PlainStart(p: Spelling, radix: RadixArgument, flags: Flags, b: Radix, sep: bool)
    requires NoPrefix(p, radix, flags, b, sep)
    ensures StartOf(Text(p), |p.sign|, radix, flags) == From(|p.sign|, b, sep)
  {
    hide AfterMantissa, Mantissa, OctalRun;
    var t := Mantissa(p) + AfterMantissa(p);
    var s := Text(p);
    assert s == p.sign + t;
    CharAfter(p.sign, t, 0);
    CharAfter(p.sign, t, 1);
    if At(t, 0) != '0' {
      if At(t, 0) != 'I' {
        NoInfinity(s, |p.sign|);
      }
    } else if radix == 0 && flags.legacyOctal && '0' <= At(t, 1) <= '9' {
      var k: nat :| DecimalDigitAt(t, k);
      forall j | |p.sign| + 1 <= j < |p.sign| + k
        ensures '0' <= s[j] <= '7'
      {
        assert s[j] == t[j - |p.sign|];
      }
      CharAfter(p.sign, t, k);
      OctalUpTo(s, |p.sign| + 1, |p.sign| + k);
    }
  }

  /** A spelling is read from its first digit on, in its radix. */
  lemma StartOfSpelling(p: Spelling, radix: RadixArgument, flags: Flags, b: Radix, sep: bool)
    requires Begins(p, radix, flags, b, sep)
    ensures StartOf(Text(p), |p.sign|, radix, flags) == From(|p.sign| + |p.prefix|, b, sep)
  {
    hide OctalRun, MantissaEnds, AfterMantissa, HasDecimalDigit;
    var t := Mantissa(p) + AfterMantissa(p);
    assert At(t, 0) == Mantissa(p)[0];
    if IsPrefix(p, radix, flags, b, sep) {
      if |p.prefix| == 2 {
        var u := p.prefix + t;
        assert Text(p) == p.sign + u;
        CharAfter(p.sign, u, 0);
        CharAfter(p.sign, u, 1);
        CharAfter(p.sign, u, 2);
        assert At(u, 0) == '0' && At(u, 1) == p.prefix[1];
        CharAfter(p.prefix, t, 0);
      } else {
        LegacyStart(p, radix, flags, b, sep);
      }
    } else {
      PlainStart(p, radix, flags, b, sep);
    }
  }

  // ----- the mantissa -----

  /** Where a spelling stands in its text. */
  ghost predicate StandsIn(o: Source, from: nat, p: Spelling, sep: bool, intOnly: bool) {
    && o.s == Text(p) && from == |p.sign| + |p.prefix| && o.start == |p.sign|
    && o.sep == sep && o.intOnly == intOnly && (p.prefix != "" ==> from > o.start)
  }

  lemma MantissaAt(o: Source, from: nat, p: Spelling, sep: bool, intOnly: bool, i: nat)
    requires StandsIn(o, from, p, sep, intOnly)
    ensures i < |Mantissa(p)| ==> At(o.s, from + i) == Mantissa(p)[i]
    ensures At(o.s, from + |Mantissa(p)| + i) == At(AfterMantissa(p), i)
    ensures from + |Mantissa(p)| <= |o.s| && o.s[from..from + |Mantissa(p)|] == Mantissa(p)
    ensures i <= |Mantissa(p)| ==> o.s[from..from + i] == Mantissa(p)[..i]
  {
    hide Mantissa, AfterMantissa;
    var head, t := p.sign + p.prefix, Mantissa(p) + AfterMantissa(p);
    assert o.s == head + t;
    CharAfter(head, t, i);
    CharAfter(head, t, |Mantissa(p)| + i);
    CharAfter(Mantissa(p), AfterMantissa(p), i);
    assert from + |Mantissa(p)| + i == |head| + (|Mantissa(p)| + i);
  }

  lemma NoEarlierDot(p: Spelling, b: Radix, sep: bool, intOnly: bool, i: nat)
    requires IsMantissa(p, b, sep, intOnly) && i < |Mantissa(p)| && Mantissa(p)[i] == '.'
    ensures i == |p.whole| && '.' !in Mantissa(p)[..i]
  {
    if i < |p.whole| {
      CharIn(p.whole, i);
    } else if i > |p.whole| {
      LaterChar(p, i);
    }
    assert Mantissa(p)[..i] == p.whole;
  }

  lemma LaterChar(p: Spelling, i: nat)
    requires |p.whole| < i < |Mantissa(p)|
    ensures Mantissa(p)[i] in p.fraction[1..]
  {
    assert Mantissa(p)[i] == p.fraction[1..][i - |p.whole| - 1];
  }

  lemma CharIn(s: string, i: nat)
    requires i < |s|
    ensures s[i] in s
  {
  }

  /** The scan passes every character of the mantissa, and stops behind it. */
  lemma MantissaPasses(o: Source, from: nat, p: Spelling, sep: bool, intOnly: bool)
    requires StandsIn(o, from, p, sep, intOnly) && IsMantissa(p, o.b, sep, intOnly)
    requires p.prefix != "" ==> ToDigit(Mantissa(p)[0]) < o.b
    requires MantissaEnds(p, o.b, sep, intOnly)
    ensures PassesAll(o, from, from + |Mantissa(p)|) && !Passes(o, from, from + |Mantissa(p)|)
  {
    var m := Mantissa(p);
    assert p.fraction == "" || p.fraction[0] == '.';
    hide Text, Mantissa, AfterMantissa, IsMantissa, MantissaEnds;
    MantissaAt(o, from, p, sep, intOnly, 0);
    forall i | from <= i < from + |m|
      ensures Passes(o, from, i)
    {
      PassesOneOf(o, from, p, sep, intOnly, i - from);
    }
    PassesNoMore(o, from, p, sep, intOnly);
  }

  lemma PassesOneOf(o: Source, from: nat, p: Spelling, sep: bool, intOnly: bool, i: nat)
    requires StandsIn(o, from, p, sep, intOnly) && IsMantissa(p, o.b, sep, intOnly) && i < |Mantissa(p)|
    requires from + |Mantissa(p)| <= |o.s|
    ensures Passes(o, from, from + i)
  {
    MantissaAt(o, from, p, sep, intOnly, i);
    MantissaAt(o, from, p, sep, intOnly, i + 1);
    var m := Mantissa(p);
    assert MantissaChar(m, i, o.b, sep, intOnly);
    if m[i] == '.' {
      NoEarlierDot(p, o.b, sep, intOnly, i);
    }
    hide Text, Mantissa, AfterMantissa, IsMantissa;
    if i + 1 >= |m| {
      assert !(ToDigit(At(m, i + 1)) < o.b);
    }
  }

  lemma PassesNoMore(o: Source, from: nat, p: Spelling, sep: bool, intOnly: bool)
    requires StandsIn(o, from, p, sep, intOnly) && MantissaEnds(p, o.b, sep, intOnly)
    requires from + |Mantissa(p)| <= |o.s| && (p.fraction == "" || p.fraction[0] == '.')
    ensures !Passes(o, from, from + |Mantissa(p)|)
  {
    MantissaAt(o, from, p, sep, intOnly, 0);
    MantissaAt(o, from, p, sep, intOnly, 1);
    if p.fraction != "" {
      assert Mantissa(p)[|p.whole|] == '.';
    }
    hide Text, Mantissa, AfterMantissa;
  }

  /** However the scan is described, it takes the whole mantissa. */
  lemma ScanTakesMantissa(o: Source, from: nat, p: Spelling, sep: bool, intOnly: bool, mid: nat, pos: nat, dotPos: int)
    requires StandsIn(o, from, p, sep, intOnly) && IsMantissa(p, o.b, sep, intOnly)
    requires p.prefix != "" ==> ToDigit(Mantissa(p)[0]) < o.b
    requires MantissaEnds(p, o.b, sep, intOnly) && Scanned(o, from, mid, pos, dotPos) && Ends(o, mid, dotPos)
    ensures mid == from + |Mantissa(p)| && o.s[from..mid] == Mantissa(p)
  {
    hide StandsIn, IsMantissa, MantissaEnds, Mantissa, Passes, PassesAll, Ends, DigitsIn, DotAfter;
    MantissaPasses(o, from, p, sep, intOnly);
    MantissaAt(o, from, p, sep, intOnly, 0);
    EndsWhenStuck(o, from, mid, pos, dotPos);
    OneEnd(o, from, mid, from + |Mantissa(p)|);
  }

  lemma OneEnd(o: Source, from: nat, i: nat, j: nat)
    requires PassesAll(o, from, i) && PassesAll(o, from, j)
    requires !Passes(o, from, i) && !Passes(o, from, j)
    ensures i == j
  {
    hide Passes;
    assert !(i < j) && !(j < i);
  }

  /** Exactly the zeros in front are insignificant. */
  lemma {:induction false} ZerosDropped(d: seq<nat>, sig: nat, digits: seq<nat>)
    requires sig <= |d| && AllZero(d[..sig]) && digits == d[sig..] && (|digits| > 0 ==> digits[0] > 0)
    ensures digits == WithoutZeros(d)
  {
    if sig > 0 {
      assert d[0] == d[..sig][0];
      var t := d[1..][..sig - 1];
      forall i | 0 <= i < |t|
        ensures t[i] == 0
      {
        assert d[..sig][i + 1] == 0;
      }
      ZerosDropped(d[1..], sig - 1, digits);
    }
  }

  /** The dot stands after the digits of the whole part. */
  lemma DotOfMantissa(p: Spelling, b: Radix, sep: bool, intOnly: bool, dotPos: int)
    requires IsMantissa(p, b, sep, intOnly) && DotAfter(Mantissa(p), b, dotPos)
    ensures dotPos == if p.fraction == "" then -1 else |DigitsIn(p.whole, b)|
    ensures |DigitsIn(Mantissa(p), b)| == |DigitsIn(p.whole, b)| + |DigitsIn(p.fraction, b)|
  {
    DigitsInConcat(p.whole, p.fraction, b);
    hide DigitsIn;
    var m := Mantissa(p);
    var dot: int :| DotAt(m, dot) && dotPos == if dot < 0 then -1 else |DigitsIn(m[..dot], b)|;
    if dot >= 0 {
      NoEarlierDot(p, b, sep, intOnly, dot);
      assert m[..dot] == p.whole;
    }
    if p.fraction != "" {
      assert m[|p.whole|] == '.';
    }
  }

  /** What is read of the mantissa: its significant digits and the point. */
  lemma ReadsMantissa(o: Source, from: nat, p: Spelling, sep: bool, intOnly: bool, mid: nat, digits: seq<nat>,
                      point: int)
    requires StandsIn(o, from, p, sep, intOnly) && IsMantissa(p, o.b, sep, intOnly)
    requires p.prefix != "" ==> ToDigit(Mantissa(p)[0]) < o.b
    requires MantissaEnds(p, o.b, sep, intOnly) && MantissaText(o, from, mid, digits, point)
    ensures mid == from + |Mantissa(p)| && digits == SpelledDigits(p, o.b) && point == PointOf(p, o.b)
  {
    hide StandsIn, IsMantissa, MantissaEnds, Mantissa, Ends, DigitsIn, DotAfter, PassesAll, WithoutZeros;
    var pos: nat, dotPos: int, sig: nat :| MantissaWith(o, from, mid, digits, point, pos, dotPos, sig);
    ScanTakesMantissa(o, from, p, sep, intOnly, mid, pos, dotPos);
    DotOfMantissa(p, o.b, sep, intOnly, dotPos);
    ZerosDropped(DigitsIn(Mantissa(p), o.b), sig, digits);
    NoFraction(p, o.b);
  }

  lemma NoFraction(p: Spelling, b: Radix)
    ensures p.fraction == "" ==> DigitsIn(p.fraction, b) == []
  {
  }

  // ----- the exponent -----

  lemma MarkIs(c: char, b: Radix)
    ensures IsExponentMark(c, b) <==> IsMark(c, b)
  {
    if b != 10 {
      PowerMarks(b);
    }
    hide RadixBits;
  }

  lemma PowerMarks(b: Radix)
    ensures 1 <= RadixBits(b) <= 4 <==> b == 2 || b == 4 || b == 8 || b == 16
    ensures RadixBits(b) > 0 <==> OddPart(b) == 1
  {
    RadixParts(b);
    OddOfPower(b, OddPart(b), Ctz32(b));
    hide OddPart, Ctz32;
  }

  lemma OddOfPower(b: Radix, o: nat, k: nat)
    requires b == o * Pow2(k) && o % 2 == 1 && k <= 5
    ensures o == 1 && 1 <= k <= 4 <==> b == 2 || b == 4 || b == 8 || b == 16
    ensures o == 1 ==> k > 0
  {
    assert Pow2(0) == 1 && Pow2(1) == 2 && Pow2(2) == 4 && Pow2(3) == 8 && Pow2(4) == 16 && Pow2(5) == 32;
    hide Pow2;
    assert k == 0 || k == 1 || k == 2 || k == 3 || k == 4 || k == 5;
  }

  /** Where the exponent stands. */
  lemma ExponentChars(o: Source, mid: nat, p: Spelling, i: nat)
    requires mid <= |o.s| && o.s[mid..] == AfterMantissa(p) && |p.mark| == 1
    ensures At(o.s, mid) == p.mark[0]
    ensures p.exponentSign != "" ==> At(o.s, mid + 1) == p.exponentSign[0]
    ensures At(o.s, mid + 1 + |p.exponentSign| + i) == At(p.exponent + p.tail, i)
  {
    var head := p.mark + p.exponentSign;
    assert AfterMantissa(p) == head + (p.exponent + p.tail);
    assert o.s == o.s[..mid] + AfterMantissa(p);
    CharAfter(o.s[..mid], AfterMantissa(p), 0);
    CharAfter(o.s[..mid], AfterMantissa(p), 1);
    CharAfter(o.s[..mid], AfterMantissa(p), |head| + i);
    CharAfter(head, p.exponent + p.tail, i);
  }

  /** The exponent goes on to its end, and no further. */
  lemma ExponentPassed(o: Source, mid: nat, p: Spelling)
    requires mid <= |o.s| && o.s[mid..] == AfterMantissa(p) && p.mark != "" && IsExponent(p, o.b, o.sep, o.intOnly)
    ensures var q := mid + 1 + |p.exponentSign|;
            && q + |p.exponent| <= |o.s| && o.s[q..q + |p.exponent|] == p.exponent
            && ExponentPassesAll(o, q, q + |p.exponent|) && !ExponentPasses(o, q + |p.exponent|)
            && IsDigitAt(o.s, q, 10)
  {
    var q, n := mid + 1 + |p.exponentSign|, |p.exponent|;
    ExponentChars(o, mid, p, 0);
    var head := o.s[..mid] + p.mark + p.exponentSign;
    assert o.s == head + (p.exponent + p.tail) by {
      assert o.s == o.s[..mid] + o.s[mid..];
    }
    assert |head| == q;
    forall i | q <= i < q + n
      ensures ExponentPasses(o, i)
    {
      assert ExponentChar(p.exponent, i - q, o.sep);
      CharAfter(head, p.exponent + p.tail, i - q);
      CharAfter(head, p.exponent + p.tail, i - q + 1);
    }
    CharAfter(head, p.exponent + p.tail, n);
    CharAfter(head, p.exponent + p.tail, n + 1);
    CharAfter(p.exponent, p.tail, 0);
    CharAfter(p.exponent, p.tail, 1);
  }

  lemma ReadsNoExponent(o: Source, mid: nat, p: Spelling, next: nat, exponent: int, binExp: bool)
    requires o.start < mid <= |o.s| && o.s[mid..] == AfterMantissa(p) && p.mark == ""
    requires IsExponent(p, o.b, o.sep, o.intOnly) && ExponentPart(o, mid, next, exponent, binExp)
    ensures next == mid && exponent == SpelledExponent(p) == 0 && !binExp && p.exponentSign == p.exponent == ""
  {
    NoMarkFollows(o, mid, p);
    NoExponentDigits(p);
    hide HasExponent, SpelledExponent;
  }

  lemma NoMarkFollows(o: Source, mid: nat, p: Spelling)
    requires mid <= |o.s| && o.s[mid..] == AfterMantissa(p) && p.mark == ""
    requires IsExponent(p, o.b, o.sep, o.intOnly)
    ensures !HasExponent(o, mid)
  {
    MarkIs(At(p.tail, 0), o.b);
    CharAfter(o.s[..mid], AfterMantissa(p), 0);
    assert o.s == o.s[..mid] + AfterMantissa(p) && AfterMantissa(p) == p.tail;
    hide IsExponentMark, IsMark;
  }

  lemma MarkFollows(o: Source, mid: nat, p: Spelling)
    requires o.start < mid <= |o.s| && o.s[mid..] == AfterMantissa(p) && p.mark != ""
    requires IsExponent(p, o.b, o.sep, o.intOnly)
    ensures HasExponent(o, mid) && At(o.s, mid) == p.mark[0] && |p.mark| == 1
    ensures AfterMark(o, mid) == mid + 1 + |p.exponentSign| && (At(o.s, mid + 1) == '-' <==> p.exponentSign == "-")
  {
    MarkIs(p.mark[0], o.b);
    ExponentChars(o, mid, p, 0);
    SignCharIs(o, mid, p);
    hide IsExponentMark, IsMark, AfterMantissa, AfterMark;
  }

  /** What is read of the exponent. */
  lemma ReadsExponent(o: Source, mid: nat, p: Spelling, next: nat, exponent: int, binExp: bool)
    requires o.start < mid <= |o.s| && o.s[mid..] == AfterMantissa(p)
    requires IsExponent(p, o.b, o.sep, o.intOnly) && ExponentPart(o, mid, next, exponent, binExp)
    ensures next == mid + |p.mark| + |p.exponentSign| + |p.exponent|
    ensures exponent == SpelledExponent(p) && (binExp <==> IsBinary(p))
  {
    hide IsExponent, AfterMantissa, HasExponent, ExponentPassesAll, ExponentPasses, ExponentWith, SpelledExponent;
    if p.mark == "" {
      ReadsNoExponent(o, mid, p, next, exponent, binExp);
    } else {
      MarkFollows(o, mid, p);
      ExponentPassed(o, mid, p);
      var q: nat, negative: bool :| ExponentWith(o, mid, q, next, negative, exponent);
      ExponentEndsAt(o, mid, p, q, next, negative, exponent);
    }
  }

  lemma NoExponentDigits(p: Spelling)
    ensures p.exponentSign == "" && p.exponent == "" ==> SpelledExponent(p) == 0
  {
  }

  lemma SignCharIs(o: Source, mid: nat, p: Spelling)
    requires At(o.s, mid + 1 + |p.exponentSign|) == At(p.exponent + p.tail, 0)
    requires p.exponentSign == "" || p.exponentSign == "+" || p.exponentSign == "-"
    requires p.exponentSign != "" ==> At(o.s, mid + 1) == p.exponentSign[0]
    requires |p.exponent| > 0 && ToDigit(p.exponent[0]) < 10
    ensures AfterMark(o, mid) == mid + 1 + |p.exponentSign| && (At(o.s, mid + 1) == '-' <==> p.exponentSign == "-")
  {
  }

  lemma ExponentEndsAt(o: Source, mid: nat, p: Spelling, q: nat, next: nat, negative: bool, exponent: int)
    requires ExponentWith(o, mid, q, next, negative, exponent)
    requires AfterMark(o, mid) == mid + 1 + |p.exponentSign| && (At(o.s, mid + 1) == '-' <==> p.exponentSign == "-")
    requires var q := mid + 1 + |p.exponentSign|;
             && q + |p.exponent| <= |o.s| && o.s[q..q + |p.exponent|] == p.exponent
             && ExponentPassesAll(o, q, q + |p.exponent|) && !ExponentPasses(o, q + |p.exponent|)
    ensures next == q + |p.exponent| && q == mid + 1 + |p.exponentSign| && exponent == SpelledExponent(p)
  {
    hide ExponentPasses, DigitsIn, DigitsValue;
    assert !(next < q + |p.exponent|) && !(q + |p.exponent| < next);
  }

  // ----- whole texts -----

  lemma RestOfText(o: Source, from: nat, p: Spelling, sep: bool, intOnly: bool)
    requires StandsIn(o, from, p, sep, intOnly)
    ensures from + |Mantissa(p)| <= |o.s| && o.s[from + |Mantissa(p)|..] == AfterMantissa(p)
    ensures |o.s| == from + |Mantissa(p)| + |p.mark| + |p.exponentSign| + |p.exponent| + |p.tail|
  {
    var head := p.sign + p.prefix;
    assert o.s == head + (Mantissa(p) + AfterMantissa(p));
  }

  /** A spelling is a number. */
  lemma NotNoNumber(o: Source, mid: nat, p: Spelling, next: nat)
    requires o.start < mid <= |o.s| && o.s[mid..] == AfterMantissa(p) && IsExponent(p, o.b, o.sep, o.intOnly)
    ensures !NoNumber(o, mid, next)
  {
    hide IsExponent, AfterMantissa, HasExponent, ExponentPassesAll, ExponentPasses;
    if p.mark == "" {
      NoMarkFollows(o, mid, p);
    } else {
      MarkFollows(o, mid, p);
      ExponentPassed(o, mid, p);
    }
  }

  lemma SpellingStands(p: Spelling, radix: RadixArgument, flags: Flags, b: Radix, sep: bool)
    requires Begins(p, radix, flags, b, sep)
    ensures StandsIn(Source(Text(p), |p.sign|, b, sep, flags.intOnly), |p.sign| + |p.prefix|, p, sep, flags.intOnly)
    ensures p.prefix != "" ==> ToDigit(Mantissa(p)[0]) < b
  {
    hide AfterMantissa;
  }

  /** What the token of a text is, once it is known where its digits start. */
  lemma TokenFrom(s: string, radix: RadixArgument, flags: Flags, t: Token, from: nat, b: Radix, sep: bool, o: Source)
    requires IsToken(s, radix, flags, t) && StartOf(s, SignLength(s), radix, flags) == From(from, b, sep)
    requires o == Source(s, SignLength(s), b, sep, flags.intOnly)
    ensures t.Invalid? || t.Numeral?
    ensures t.Invalid? ==> exists mid: nat, digits, point :: InvalidAt(o, from, mid, digits, point, t.next)
    ensures t.Numeral? ==> t.o == o && t.from == from && MantissaText(o, from, t.mid, t.digits, t.point)
    ensures t.Numeral? ==> ExponentPart(o, t.mid, t.next, t.exponent, t.binExp)
  {
    hide StartOf, SignLength, MantissaText, ExponentPart, InvalidAt;
  }

  /** The token of a spelling. */
  lemma TokenOfSpelling(p: Spelling, radix: RadixArgument, flags: Flags, b: Radix, sep: bool, t: Token)
    requires IsSpelling(p, radix, flags, b, sep) && IsToken(Text(p), radix, flags, t)
    ensures t.Numeral? && t.o.b == b && t.next + |p.tail| == |Text(p)|
    ensures t.digits == SpelledDigits(p, b) && t.point == PointOf(p, b)
    ensures t.exponent == SpelledExponent(p) && (t.binExp <==> IsBinary(p))
  {
    hide *;
    SpellingElim(p, radix, flags, b, sep);
    BeginsElim(p, radix, flags, b, sep);
    SignOfText(p, radix, flags, b, sep);
    StartOfSpelling(p, radix, flags, b, sep);
    SpellingStands(p, radix, flags, b, sep);
    var from, intOnly := |p.sign| + |p.prefix|, flags.intOnly;
    var o := Source(Text(p), |p.sign|, b, sep, intOnly);
    RestOfText(o, from, p, sep, intOnly);
    TokenFrom(Text(p), radix, flags, t, from, b, sep, o);
    if t.Invalid? {
      var mid: nat, digits, point :| InvalidAt(o, from, mid, digits, point, t.next);
      InvalidParts(o, from, mid, digits, point, t.next);
      ReadsMantissa(o, from, p, sep, intOnly, mid, digits, point);
      NotNoNumber(o, mid, p, t.next);
      assert false;
    } else {
      ReadsMantissa(o, from, p, sep, intOnly, t.mid, t.digits, t.point);
      ReadsExponent(o, t.mid, p, t.next, t.exponent, t.binExp);
    }
  }

  lemma SpellingElim(p: Spelling, radix: RadixArgument, flags: Flags, b: Radix, sep: bool)
    requires IsSpelling(p, radix, flags, b, sep)
    ensures Begins(p, radix, flags, b, sep) && IsExponent(p, b, sep, flags.intOnly)
  {
  }

  lemma BeginsElim(p: Spelling, radix: RadixArgument, flags: Flags, b: Radix, sep: bool)
    requires Begins(p, radix, flags, b, sep)
    ensures IsMantissa(p, b, sep, flags.intOnly) && MantissaEnds(p, b, sep, flags.intOnly) && |Mantissa(p)| > 0
    ensures p.sign == "" || p.sign == "+" || p.sign == "-"
  {
  }

  lemma InvalidParts(o: Source, from: nat, mid: nat, digits: seq<nat>, point: int, next: nat)
    requires InvalidAt(o, from, mid, digits, point, next)
    ensures MantissaText(o, from, mid, digits, point) && NoNumber(o, mid, next)
  {
  }

  /** Every spelling is read up to its tail, and the result is nearest, ties to
      even, to the number that its parts stand for. */
  lemma SpellingRead(p: Spelling, radix: RadixArgument, flags: Flags, b: Radix, sep: bool, next: nat, r: Bits)
    requires IsSpelling(p, radix, flags, b, sep) && Reads(Text(p), radix, flags, next, r)
    ensures next + |p.tail| == |Text(p)|
    ensures IsRounded(SpelledDigits(p, b), b, PointOf(p, b), SpelledExponent(p), IsBinary(p), SignBit(p), r)
  {
    SpellingElim(p, radix, flags, b, sep);
    BeginsElim(p, radix, flags, b, sep);
    SignOfText(p, radix, flags, b, sep);
    hide IsSpelling, Begins, Text, IsToken, IsRounded, SpelledDigits, PointOf, SpelledExponent, IsBinary;
    var t: Token :| ReadsAs(Text(p), radix, flags, t, r) && next == t.next;
    TokenOfSpelling(p, radix, flags, b, sep, t);
  }

  lemma BareMarkChars(o: Source, mid: nat, p: Spelling)
    requires o.start < mid <= |o.s| && o.s[mid..] == AfterMantissa(p) && IsBareMark(p, o.b) && !o.intOnly
    ensures HasExponent(o, mid) && AfterMark(o, mid) == mid + 1 + |p.exponentSign|
    ensures !IsDigitAt(o.s, mid + 1 + |p.exponentSign|, 10)
  {
    MarkIs(p.mark[0], o.b);
    ExponentChars(o, mid, p, 0);
    CharAfter(p.exponent, p.tail, 0);
    hide IsExponentMark, IsMark, AfterMantissa;
  }

  /** A number with a mark that no digit follows is no number at all. */
  lemma BareMarkRead(p: Spelling, radix: RadixArgument, flags: Flags, b: Radix, sep: bool, next: nat, r: Bits)
    requires Begins(p, radix, flags, b, sep) && IsBareMark(p, b) && !flags.intOnly
    requires Reads(Text(p), radix, flags, next, r)
    ensures next + |p.tail| == |Text(p)| && r == QNAN
  {
    hide *;
    BeginsElim(p, radix, flags, b, sep);
    SignOfText(p, radix, flags, b, sep);
    StartOfSpelling(p, radix, flags, b, sep);
    SpellingStands(p, radix, flags, b, sep);
    var from, intOnly := |p.sign| + |p.prefix|, flags.intOnly;
    var o := Source(Text(p), |p.sign|, b, sep, intOnly);
    RestOfText(o, from, p, sep, intOnly);
    var t := TokenRead(Text(p), radix, flags, next, r);
    TokenFrom(Text(p), radix, flags, t, from, b, sep, o);
    BareMarkChars(o, from + |Mantissa(p)|, p);
    BareMarkParts(p, b);
    if t.Invalid? {
      var mid: nat, digits, point :| InvalidAt(o, from, mid, digits, point, t.next);
      InvalidParts(o, from, mid, digits, point, t.next);
      ReadsMantissa(o, from, p, sep, intOnly, mid, digits, point);
      BareMarkEnds(o, mid, t.next);
    } else {
      ReadsMantissa(o, from, p, sep, intOnly, t.mid, t.digits, t.point);
      NoDigitAfterMark(o, t.mid, t.next, t.exponent, t.binExp);
      assert false;
    }
  }

  lemma BareMarkParts(p: Spelling, b: Radix)
    requires IsBareMark(p, b)
    ensures |p.mark| == 1 && |p.exponent| == 0
  {
  }

  lemma BareMarkEnds(o: Source, mid: nat, next: nat)
    requires NoNumber(o, mid, next) && HasExponent(o, mid)
    ensures next == AfterMark(o, mid)
  {
  }

  lemma NoDigitAfterMark(o: Source, mid: nat, next: nat, exponent: int, binExp: bool)
    requires HasExponent(o, mid) && ExponentPart(o, mid, next, exponent, binExp)
    ensures IsDigitAt(o.s, AfterMark(o, mid), 10)
  {
    hide HasExponent, ExponentPassesAll, ExponentPasses, ExponentValue, AfterMark;
  }

  /** The token behind a result. */
  lemma TokenRead(s: string, radix: RadixArgument, flags: Flags, next: nat, r: Bits) returns (t: Token)
    requires Reads(s, radix, flags, next, r)
    ensures IsToken(s, radix, flags, t) && next == t.next && (t.Invalid? ==> r == QNAN)
  {
    hide IsToken, IsRounded;
    t :| ReadsAs(s, radix, flags, t, r) && next == t.next;
  }
}
