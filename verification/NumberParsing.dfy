/** js_atod as a whole: sign, prefix, digits, exponent, and the number that the
    text stands for. */
module NumberParsing {
  import opened MachineWords
  import opened PowersOfTwo
  import opened Rounding
  import opened Binary64
  import opened RadixPowers
  import opened RadixTables
  import opened RadixScaling
  import opened RadixReals
  import opened RadixLogarithm
  import opened Digits
  import opened DigitOutput
  import opened Atod
  import opened PrintedLength
  import opened NumberScan

  datatype Flags = Flags(intOnly: bool, binOct: bool, legacyOctal: bool, underscores: bool)

  /** The radix argument: 0 lets a prefix decide. */
  type RadixArgument = r: nat | r == 0 || 2 <= r <= 36

  // ----- the sign and what precedes the digits -----

  function SignLength(s: string): nat {
    if At(s, 0) == '+' || At(s, 0) == '-' then 1 else 0
  }

  /** What stands after the sign: a prefix without a digit, Infinity, or digits
      in some radix from some position on, with or without separators. */
  datatype Start = NoDigit(at: nat) | InfinityWord | From(from: nat, b: Radix, sep: bool)

  /** The digits from i on are octal up to the first character that is none. */
  predicate OctalRun(s: string, i: nat)
    decreases |s| - i
  {
    if '0' <= At(s, i) <= '7' && i < |s| then OctalRun(s, i + 1) else At(s, i) != '8' && At(s, i) != '9'
  }

  predicate StartsWith(s: string, p: nat, word: string) {
    p + |word| <= |s| && s[p..p + |word|] == word
  }

  /** The prefixes, by their letter and the flags. */
  function StartOf(s: string, p: nat, radix: RadixArgument, flags: Flags): Start {
    var b := if radix == 0 then 10 else radix;
    var c := At(s, p + 1);
    var legacy := '0' <= c <= '9' && radix == 0 && flags.legacyOctal;
    if At(s, p) != '0' then
      if !flags.intOnly && StartsWith(s, p, "Infinity") then InfinityWord else From(p, b, flags.underscores)
    else if (c == 'x' || c == 'X') && (radix == 0 || radix == 16) then AfterPrefix(s, p + 2, 16, flags.underscores)
    else if (c == 'o' || c == 'O') && radix == 0 && flags.binOct then AfterPrefix(s, p + 2, 8, flags.underscores)
    else if (c == 'b' || c == 'B') && radix == 0 && flags.binOct then AfterPrefix(s, p + 2, 2, flags.underscores)
    else if legacy && OctalRun(s, p + 1) then AfterPrefix(s, p + 1, 8, false)
    else From(p, b, flags.underscores && !legacy)
  }

  /** There must be a digit after a prefix. */
  function AfterPrefix(s: string, p: nat, b: Radix, sep: bool): Start {
    if IsDigitAt(s, p, b) then From(p, b, sep) else NoDigit(p)
  }

  /** The look-ahead of legacy octal numbers. */
  method LooksOctal(s: string, p: nat) returns (octal: bool)
    ensures octal <==> OctalRun(s, p)
  {
    var i := p;
    while '0' <= At(s, i) <= '7'
      invariant OctalRun(s, p) <==> OctalRun(s, i)
      decreases |s| - i
    {
      i := i + 1;
    }
    octal := At(s, i) != '8' && At(s, i) != '9';
  }

  /** strstart */
  method Strstart(s: string, p: nat, word: string) returns (found: bool)
    requires forall i :: 0 <= i < |word| ==> word[i] != 0 as char
    ensures found <==> StartsWith(s, p, word)
  {
    var i := 0;
    while i < |word|
      invariant 0 <= i <= |word| && (i > 0 ==> p + i <= |s|) && forall j :: 0 <= j < i ==> s[p + j] == word[j]
    {
      if At(s, p + i) != word[i] {
        Mismatch(s, p, word, i);
        return false;
      }
      i := i + 1;
    }
    found := p + |word| <= |s|;
    assert found ==> s[p..p + |word|] == word;
  }

  lemma Mismatch(s: string, p: nat, word: string, i: nat)
    requires i < |word| && At(s, p + i) != word[i]
    ensures !StartsWith(s, p, word)
  {
  }

  method FindStart(s: string, p: nat, radix: RadixArgument, flags: Flags) returns (st: Start)
    ensures st == StartOf(s, p, radix, flags)
  {
    hide OctalRun;
    var b := if radix == 0 then 10 else radix;
    var c := At(s, p + 1);
    if At(s, p) == '0' {
      var q, sep := p + 2, flags.underscores;
      if (c == 'x' || c == 'X') && (radix == 0 || radix == 16) {
        b := 16;
      } else if (c == 'o' || c == 'O') && radix == 0 && flags.binOct {
        b := 8;
      } else if (c == 'b' || c == 'B') && radix == 0 && flags.binOct {
        b := 2;
      } else if '0' <= c <= '9' && radix == 0 && flags.legacyOctal {
        sep := false;
        var octal := LooksOctal(s, p + 1);
        if !octal {
          return From(p, b, sep);
        }
        q := p + 1;
        b := 8;
      } else {
        return From(p, b, sep);
      }
      if ToDigit(At(s, q)) >= b {
        return NoDigit(q);
      }
      st := From(q, b, sep);
    } else {
      if !flags.intOnly {
        var found := Strstart(s, p, "Infinity");
        if found {
          return InfinityWord;
        }
      }
      st := From(p, b, flags.underscores);
    }
  }

  // ----- what was read -----

  /** s[from..mid] holds these significant digits, with the radix point after
      the first `point` of them, and cannot be continued. */
  ghost predicate MantissaText(o: Source, from: nat, mid: nat, digits: seq<nat>, point: int) {
    exists pos: nat, dotPos: int, sig: nat :: MantissaWith(o, from, mid, digits, point, pos, dotPos, sig)
  }

  ghost predicate MantissaWith(o: Source, from: nat, mid: nat, digits: seq<nat>, point: int, pos: nat,
                               dotPos: int, sig: nat)
  {
    && Scanned(o, from, mid, pos, dotPos) && Significant(o, from, mid, sig, digits) && Ends(o, mid, dotPos)
    && point == (if dotPos < 0 then pos else dotPos) - sig
  }

  predicate IsBinaryMark(c: char) { c == 'p' || c == 'P' }

  /** s[mid..next] is the exponent, or empty. */
  ghost predicate ExponentPart(o: Source, mid: nat, next: nat, exponent: int, binExp: bool) {
    if HasExponent(o, mid) then
      && (binExp <==> IsBinaryMark(At(o.s, mid)))
      && exists q: nat, negative: bool :: ExponentWith(o, mid, q, next, negative, exponent)
    else next == mid && exponent == 0 && !binExp
  }

  ghost predicate ExponentWith(o: Source, mid: nat, q: nat, next: nat, negative: bool, exponent: int) {
    && ExponentAt(o, mid, q, next, negative)
    && exponent == if negative then 0 - ExponentValue(o, q, next) else ExponentValue(o, q, next)
  }

  /** An exponent mark without a digit. */
  predicate BareMark(o: Source, mid: nat) {
    HasExponent(o, mid) && !IsDigitAt(o.s, AfterMark(o, mid), 10)
  }

  /** What was read, up to next: no number, or Infinity, or a numeral. */
  datatype Token =
    | Invalid(next: nat)
    | Infinite(next: nat)
    | Numeral(o: Source, from: nat, mid: nat, next: nat, digits: seq<nat>, point: int, exponent: int, binExp: bool)

  function SourceOf(s: string, st: Start, flags: Flags): Source
    requires st.From?
  {
    Source(s, SignLength(s), st.b, st.sep, flags.intOnly)
  }

  /** Exactly what js_atod reads, and how far it goes. */
  ghost predicate IsToken(s: string, radix: RadixArgument, flags: Flags, t: Token) {
    var st := StartOf(s, SignLength(s), radix, flags);
    match t
    case Invalid(next) =>
      if st.NoDigit? then next == st.at
      else
        && st.From?
        && exists mid: nat, digits, point :: InvalidAt(SourceOf(s, st, flags), st.from, mid, digits, point, next)
    case Infinite(next) => st.InfinityWord? && next == SignLength(s) + 8
    case Numeral(o, from, mid, next, digits, point, exponent, binExp) =>
      && st.From? && from == st.from && o == SourceOf(s, st, flags)
      && MantissaText(o, from, mid, digits, point) && ExponentPart(o, mid, next, exponent, binExp) && next > o.start
  }

  /** The digits end at mid, and what follows makes the text no number. */
  ghost predicate InvalidAt(o: Source, from: nat, mid: nat, digits: seq<nat>, point: int, next: nat) {
    MantissaText(o, from, mid, digits, point) && NoNumber(o, mid, next)
  }

  predicate NoNumber(o: Source, mid: nat, next: nat) {
    if HasExponent(o, mid) then BareMark(o, mid) && next == AfterMark(o, mid) else mid == o.start && next == mid
  }

  /** r is the value of what was read. */
  ghost predicate IsValue(s: string, t: Token, r: Bits) {
    var sign := if At(s, 0) == '-' then 1 else 0;
    match t
    case Invalid(_) => r == QNAN
    case Infinite(_) => r == Pack(sign, EXP_MASK, 0)
    case Numeral(o, _, _, _, digits, point, exponent, binExp) =>
      IsRounded(digits, o.b, point, exponent, binExp, sign, r)
  }

  /** r is nearest, ties to even, to the number that the kept digits stand for. */
  ghost predicate IsRounded(digits: seq<nat>, b: Radix, point: int, exponent: int, binExp: bool, sign: nat, r: Bits)
    requires sign <= 1
  {
    exists x: real :: ValueWith(x, digits, b, point, exponent, binExp, sign, r)
  }

  ghost predicate ValueWith(x: real, digits: seq<nat>, b: Radix, point: int, exponent: int, binExp: bool, sign: nat,
                            r: Bits)
    requires sign <= 1
  {
    IsNumeral(x, Kept(digits, b), b, point, exponent, binExp) && RoundsTo(x, sign, RNE, r)
  }

  // ----- the value -----

  lemma NumeralExists(digits: seq<nat>, b: Radix, point: int, exponent: int, binExp: bool) returns (x: real)
    ensures IsNumeral(x, digits, b, point, exponent, binExp)
  {
    var z := RadixValue(DigitsValue(digits, b) as real, b, point - |digits| + (if binExp then 0 else exponent));
    x := ScaleBy(z, 1074 + (if binExp then exponent else 0));
    hide RadixValue, ScaleBy, DigitsValue, RadixScaled, IsScaled;
    assert IsNumeralOf(x, z, digits, b, point, exponent, binExp);
  }

  /** The sign bit. */
  lemma SignedRounds(x: real, r: Bits)
    requires RoundsTo(x, 0, RNE, r)
    ensures r < TWO63 && RoundsTo(x, 1, RNE, r + TWO63)
  {
    hide Pow2, Rounds;
    var y: nat :| Rounds(x, y, DirectionOf(RNE, 0)) && Delivers(y, 0, DirectionOf(RNE, 0), r);
    assert r < TWO63;
    SameLowBits(r, r + TWO63);
    hide Magnitude;
    assert Delivers(y, 1, DirectionOf(RNE, 1), r + TWO63);
  }

  const HUGE: nat := 2147483640

  /** The power of the radix just below a numeral, and just above it. */
  lemma NumeralRange(x: real, digits: seq<nat>, b: Radix, point: int, exponent: int, binExp: bool) returns (z: real)
    requires AreDigits(digits, b) && |digits| > 0 && digits[0] > 0
    requires IsNumeral(x, Kept(digits, b), b, point, exponent, binExp)
    ensures IsScaled(x, z, 1074 + (if binExp then exponent else 0)) && z >= 0.0
    ensures var t := point + (if binExp then 0 else exponent); RPow(b, t - 1) <= z < RPow(b, t)
  {
    var kept := Kept(digits, b);
    KeptNonempty(digits, b);
    var n := |kept|;
    assert kept == digits[..n];
    LeadingDigits(digits, n, b);
    var v := DigitsValue(kept, b) as real;
    var t := point + (if binExp then 0 else exponent);
    hide Kept, DigitsValue, Pow, RPow, Exp2, RadixScaled, IsScaled, AreDigits;
    var w: real :| IsNumeralOf(x, w, kept, b, point, exponent, binExp);
    z := w;
    LowerPower(z, v, b, t - n, n - 1, t - 1);
    UpperPower(z, v, b, t - n, n, t);
    ScaledNonnegative(z, v, b, t - n);
  }

  lemma KeptNonempty(digits: seq<nat>, b: Radix)
    requires |digits| > 0
    ensures 0 < |Kept(digits, b)| <= |digits| && Kept(digits, b) == digits[..|Kept(digits, b)|]
  {
    ParsedDigits(b);
    DigitsPower(b);
    hide OddPart, AtodMaxDigits, DtoaMaxDigits;
  }

  /** An exponent too large to be kept means infinity. */
  lemma HugeExponent(x: real, digits: seq<nat>, b: Radix, point: int, exponent: int, binExp: bool)
    requires AreDigits(digits, b) && |digits| > 0 && digits[0] > 0 && (binExp ==> OddPart(b) == 1)
    requires IsNumeral(x, Kept(digits, b), b, point, exponent, binExp)
    requires exponent >= HUGE && -0x1000_0000 <= point <= 0x1000_0000
    ensures RoundsTo(x, 0, RNE, INFINITY)
  {
    assert HUGE == 2147483640 && OVERFLOW_EXPONENT == 2098;
    hide *;
    var z := NumeralRange(x, digits, b, point, exponent, binExp);
    if binExp {
      HugeBinary(x, z, b, point - 1, exponent);
    } else {
      CutoffRange(b);
      GeneralOverflow(z, x, b, point + exponent - 1);
    }
  }

  lemma HugeBinary(x: real, z: real, b: Radix, t: int, exponent: int)
    requires OddPart(b) == 1 && IsScaled(x, z, 1074 + exponent) && z >= RPow(b, t)
    requires exponent >= 2147483640 && -0x1000_0001 <= t <= 0x1000_0001
    ensures RoundsTo(x, 0, RNE, INFINITY)
  {
    assert OVERFLOW_EXPONENT == 2098;
    PowerRadix(b);
    hide *;
    var s := Ctz32(b);
    PointTimes(t, s);
    BinaryPower(b, s, t);
    ScaledAtLeast(x, z, 1074 + exponent, s * t);
    BinaryOverflow(x, s * t + (1074 + exponent));
  }

  lemma CutoffRange(b: Radix)
    ensures MaxExponent(b) <= 1024 && -1075 <= MinExponent(b)
  {
    hide *;
    if b <= 19 {
      CutoffRange1(b);
    } else {
      CutoffRange2(b);
    }
  }

  lemma PointTimes(point: int, s: nat)
    requires -0x1000_0001 <= point <= 0x1000_0001 && s <= 5
    ensures -0x5000_0005 <= s * point <= 0x5000_0005
  {
  }

  /** b^t is a power of two. */
  lemma BinaryPower(b: Radix, s: nat, t: int)
    requires b == Pow2(s)
    ensures RPow(b, t) == Exp2(s * t)
  {
    hide *;
    RadixScaledProduct(RPow(b, t), 1.0, b, t);
    ProductUnit(RPow(b, t));
    BinaryScale(RPow(b, t), 1.0, b, t, s);
    assert t * s == s * t;
    IsScaledElim(RPow(b, t), 1.0, s * t);
  }

  lemma ScaledAtLeast(x: real, z: real, e: int, k: int)
    requires IsScaled(x, z, e)
    ensures z >= Exp2(k) <==> x >= Exp2(k + e)
    ensures z < Exp2(k) <==> x < Exp2(k + e)
    ensures z >= 0.0 <==> x >= 0.0
  {
    hide *;
    Exp2Add(k, e);
    IsScaledIntro(Exp2(k + e), Exp2(k), e);
    ScaleOrder(x, Exp2(k + e), z, Exp2(k), e);
    ScaleOrder(Exp2(k + e), x, Exp2(k), z, e);
    ScaledZero(e);
    ScaleOrder(x, 0.0, z, 0.0, e);
  }

  /** One too small means zero. */
  lemma TinyExponent(x: real, digits: seq<nat>, b: Radix, point: int, exponent: int, binExp: bool)
    requires AreDigits(digits, b) && |digits| > 0 && digits[0] > 0 && (binExp ==> OddPart(b) == 1)
    requires IsNumeral(x, Kept(digits, b), b, point, exponent, binExp)
    requires exponent <= 0 - HUGE && -0x1000_0000 <= point <= 0x1000_0000
    ensures RoundsTo(x, 0, RNE, 0)
  {
    assert HUGE == 2147483640;
    hide *;
    var z := NumeralRange(x, digits, b, point, exponent, binExp);
    if binExp {
      TinyBinary(x, z, b, point, exponent);
    } else {
      CutoffRange(b);
      GeneralUnderflow(z, x, b, point + exponent);
    }
  }

  lemma TinyBinary(x: real, z: real, b: Radix, t: int, exponent: int)
    requires OddPart(b) == 1 && IsScaled(x, z, 1074 + exponent) && 0.0 <= z < RPow(b, t)
    requires exponent <= -2147483640 && -0x1000_0001 <= t <= 0x1000_0001
    ensures RoundsTo(x, 0, RNE, 0)
  {
    PowerRadix(b);
    hide *;
    var s := Ctz32(b);
    PointTimes(t, s);
    BinaryPower(b, s, t);
    ScaledAtLeast(x, z, 1074 + exponent, s * t);
    BinaryUnderflow(x, s * t + (1074 + exponent));
  }

  // ----- js_atod -----

  const TEXT_LIMIT: nat := 0x1000_0000

  lemma StartInside(s: string, radix: RadixArgument, flags: Flags)
    ensures var st := StartOf(s, SignLength(s), radix, flags); st.From? ==> SignLength(s) <= st.from <= |s|
    ensures StartOf(s, SignLength(s), radix, flags).InfinityWord? ==> SignLength(s) + 8 <= |s|
  {
    hide OctalRun;
  }

  /** The digits, point and exponent become a number; an exponent beyond the
      limit is known by its sign only. */
  method NumeralBits(digits: seq<nat>, b: Radix, point: int, expn: int, negative: bool, overflow: bool, binExp: bool,
                     ghost exponent: int, ghost x: real)
    returns (r: Bits)
    requires AreDigits(digits, b) && (|digits| > 0 ==> digits[0] > 0) && (binExp ==> OddPart(b) == 1)
    requires IsNumeral(x, Kept(digits, b), b, point, exponent, binExp) && -0x1000_0000 <= point <= 0x1000_0000
    requires if overflow then (if negative then exponent <= 0 - HUGE else exponent >= HUGE) else expn == exponent
    ensures RoundsTo(x, 0, RNE, r)
  {
    hide Kept, IsNumeral, RoundsTo, AreDigits, OddPart;
    if |digits| == 0 {
      assert Kept(digits, b) == [] by { KeptOfNone(digits, b); }
      EmptyNumeral(x, b, point, exponent, binExp);
      r := 0;
    } else if overflow {
      if negative {
        TinyExponent(x, digits, b, point, exponent, binExp);
        r := 0;
      } else {
        HugeExponent(x, digits, b, point, exponent, binExp);
        r := INFINITY;
      }
    } else {
      r := AtodNumber(digits, b, point, expn, binExp, x);
    }
  }

  lemma KeptOfNone(digits: seq<nat>, b: Radix)
    requires |digits| == 0
    ensures Kept(digits, b) == []
  {
  }

  lemma MantissaIs(o: Source, from: nat, mid: nat, digits: seq<nat>, point: int, pos: nat, dotPos: int, sig: nat)
    requires Scanned(o, from, mid, pos, dotPos) && Significant(o, from, mid, sig, digits) && Ends(o, mid, dotPos)
    requires point == (if dotPos < 0 then pos else dotPos) - sig
    ensures MantissaText(o, from, mid, digits, point)
    ensures AreDigits(digits, o.b) && (|digits| > 0 ==> digits[0] > 0) && mid <= |o.s|
    ensures 0 - |o.s| <= point <= |o.s|
  {
    assert MantissaWith(o, from, mid, digits, point, pos, dotPos, sig);
    var t := o.s[from..mid];
    var d := DigitsIn(t, o.b);
    var dot: int :| DotAt(t, dot) && dotPos == if dot < 0 then -1 else |DigitsIn(t[..dot], o.b)|;
    hide DigitsIn;
    assert forall i :: 0 <= i < |digits| ==> digits[i] == d[sig + i];
  }

  lemma ExponentIs(o: Source, mid: nat, next: nat, exponent: int, binExp: bool, q: nat, negative: bool)
    requires HasExponent(o, mid) ==> ExponentWith(o, mid, q, next, negative, exponent)
    requires HasExponent(o, mid) ==> (binExp <==> IsBinaryMark(At(o.s, mid)))
    requires !HasExponent(o, mid) ==> next == mid && exponent == 0 && !binExp
    ensures ExponentPart(o, mid, next, exponent, binExp)
    ensures binExp ==> OddPart(o.b) == 1
  {
    hide ExponentAt, ExponentValue;
  }

  /** Digits, exponent and value after the start. */
  method ReadNumeral(o: Source, from: nat) returns (next: nat, ok: bool, r: Bits, ghost t: Token, ghost x: real)
    requires o.start <= from <= |o.s| < TEXT_LIMIT
    ensures !ok ==> exists mid: nat, digits, point :: InvalidAt(o, from, mid, digits, point, next)
    ensures ok ==> t.Numeral? && t.o == o && t.from == from && t.next == next > o.start
    ensures ok ==> MantissaText(o, from, t.mid, t.digits, t.point) && ExponentPart(o, t.mid, next, t.exponent, t.binExp)
    ensures ok ==> ValueWith(x, t.digits, o.b, t.point, t.exponent, t.binExp, 0, r)
  {
    assert TEXT_LIMIT == 0x1000_0000 && HUGE == 10 * EXPONENT_LIMIT + 10;
    hide *;
    var p, sig, dotPos := SkipZeros(o, from);
    var digits, pos;
    digits, p, pos, dotPos := ScanDigits(o, from, p, sig, dotPos);
    var point := (if dotPos < 0 then pos else dotPos) - sig;
    MantissaIs(o, from, p, digits, point, pos, dotPos, sig);
    ghost var mid := p;
    var expn, negative, overflow, binExp;
    ghost var q;
    ok, p, expn, negative, overflow, binExp, q := ScanExponent(o, p);
    next, r, t, x := p, QNAN, Invalid(p), 0.0;
    if !ok {
      BareMarkIs(o, mid);
      InvalidIntro(o, from, mid, digits, point, next);
      return;
    }
    if p == o.start {
      StartsBefore(o, mid, p, q, negative);
      InvalidIntro(o, from, mid, digits, point, next);
      ok := false;
      return;
    }
    StartsBefore(o, mid, p, q, negative);
    ghost var exponent := ExponentOfText(o, mid, q, p, negative);
    ExponentFound(o, mid, q, p, negative, exponent);
    ExponentIs(o, mid, p, exponent, binExp, q, negative);
    x := NumeralExists(Kept(digits, o.b), o.b, point, exponent, binExp);
    r := NumeralBits(digits, o.b, point, expn, negative, overflow, binExp, exponent, x);
    t := Numeral(o, from, mid, p, digits, point, exponent, binExp);
    ValueIntro(x, digits, o.b, point, exponent, binExp, 0, r);
  }

  lemma BareMarkIs(o: Source, mid: nat)
    requires HasExponent(o, mid)
    requires !IsDigitAt(o.s, AfterMark(o, mid), 10)
    ensures NoNumber(o, mid, AfterMark(o, mid))
  {
  }

  lemma InvalidIntro(o: Source, from: nat, mid: nat, digits: seq<nat>, point: int, next: nat)
    requires MantissaText(o, from, mid, digits, point) && NoNumber(o, mid, next)
    ensures InvalidAt(o, from, mid, digits, point, next)
  {
  }

  lemma StartsBefore(o: Source, mid: nat, p: nat, q: nat, negative: bool)
    requires HasExponent(o, mid) ==> ExponentAt(o, mid, q, p, negative)
    requires !HasExponent(o, mid) ==> p == mid
    ensures p >= mid && (HasExponent(o, mid) ==> mid < q < p <= |o.s|)
  {
  }

  lemma ExponentFound(o: Source, mid: nat, q: nat, p: nat, negative: bool, exponent: int)
    requires exponent == ExponentOfText(o, mid, q, p, negative)
    requires HasExponent(o, mid) ==> ExponentAt(o, mid, q, p, negative)
    ensures HasExponent(o, mid) ==> q <= p <= |o.s| && ExponentWith(o, mid, q, p, negative, exponent)
    ensures HasExponent(o, mid) ==> exponent == if negative then 0 - ExponentValue(o, q, p) else ExponentValue(o, q, p)
    ensures !HasExponent(o, mid) ==> exponent == 0
  {
    hide ExponentValue;
  }

  lemma ValueIntro(x: real, digits: seq<nat>, b: Radix, point: int, exponent: int, binExp: bool, sign: nat, r: Bits)
    requires sign <= 1 && IsNumeral(x, Kept(digits, b), b, point, exponent, binExp) && RoundsTo(x, sign, RNE, r)
    ensures ValueWith(x, digits, b, point, exponent, binExp, sign, r)
  {
  }

  /** The exponent that the text gives, without a limit. */
  ghost function ExponentOfText(o: Source, mid: nat, q: nat, next: nat, negative: bool): int {
    if HasExponent(o, mid) && q <= next <= |o.s| then
      (if negative then 0 - ExponentValue(o, q, next) else ExponentValue(o, q, next))
    else 0
  }

  /** a |= (uint64_t)is_neg << 63 */
  method WithSign(a: Bits, negative: bool, ghost x: real) returns (r: Bits)
    requires RoundsTo(x, 0, RNE, a)
    ensures RoundsTo(x, if negative then 1 else 0, RNE, r)
  {
    SignedRounds(x, a);
    hide RoundsTo;
    r := a;
    if negative {
      r := r + TWO63;
    }
  }

  /** js_atod stops at next and returns r. */
  ghost predicate Reads(s: string, radix: RadixArgument, flags: Flags, next: nat, r: Bits) {
    exists t: Token :: ReadsAs(s, radix, flags, t, r) && next == t.next
  }

  ghost predicate ReadsAs(s: string, radix: RadixArgument, flags: Flags, t: Token, r: Bits) {
    IsToken(s, radix, flags, t) && IsValue(s, t, r)
  }

  /** js_atod: where reading stops, and the value of what is read. */
  method JsAtod(s: string, radix: RadixArgument, flags: Flags) returns (next: nat, r: Bits)
    requires |s| < TEXT_LIMIT
    ensures Reads(s, radix, flags, next, r)
  {
    hide StartOf, MantissaText, ExponentPart, RoundsTo, ValueWith, InvalidAt, ReadsAs;
    StartInside(s, radix, flags);
    var start := 0;
    var negative := false;
    if At(s, 0) == '+' {
      start := 1;
    } else if At(s, 0) == '-' {
      negative := true;
      start := 1;
    }
    var st := FindStart(s, start, radix, flags);
    match st {
      case NoDigit(at) =>
        next, r := at, QNAN;
        ReadsIntro(s, radix, flags, Invalid(at), r);
      case InfinityWord =>
        next := start + 8;
        r := Pack(if negative then 1 else 0, EXP_MASK, 0);
        ReadsIntro(s, radix, flags, Infinite(next), r);
      case From(from, b, sep) =>
        var o := Source(s, start, b, sep, flags.intOnly);
        var ok, a;
        ghost var t, x;
        next, ok, a, t, x := ReadNumeral(o, from);
        if ok {
          ValueElim(x, t.digits, b, t.point, t.exponent, t.binExp, 0, a);
          r := WithSign(a, negative, x);
          ValueIntro(x, t.digits, b, t.point, t.exponent, t.binExp, if negative then 1 else 0, r);
          NumeralToken(s, radix, flags, o, t, x, r);
          ReadsIntro(s, radix, flags, t, r);
        } else {
          r := QNAN;
          InvalidToken(s, radix, flags, o, from, next);
          ReadsIntro(s, radix, flags, Invalid(next), r);
        }
    }
  }

  lemma ReadsIntro(s: string, radix: RadixArgument, flags: Flags, t: Token, r: Bits)
    requires IsToken(s, radix, flags, t) && IsValue(s, t, r)
    ensures Reads(s, radix, flags, t.next, r)
  {
    hide IsToken, IsValue;
    assert ReadsAs(s, radix, flags, t, r);
  }

  lemma NumeralToken(s: string, radix: RadixArgument, flags: Flags, o: Source, t: Token, x: real, r: Bits)
    requires StartOf(s, SignLength(s), radix, flags).From? && t.Numeral?
    requires t.from == StartOf(s, SignLength(s), radix, flags).from && t.o == o
    requires o == SourceOf(s, StartOf(s, SignLength(s), radix, flags), flags)
    requires MantissaText(o, t.from, t.mid, t.digits, t.point) && ExponentPart(o, t.mid, t.next, t.exponent, t.binExp)
    requires t.next > o.start
    requires ValueWith(x, t.digits, o.b, t.point, t.exponent, t.binExp, if At(s, 0) == '-' then 1 else 0, r)
    ensures IsToken(s, radix, flags, t) && IsValue(s, t, r)
  {
    hide StartOf, MantissaText, ExponentPart, ValueWith, IsRounded;
    RoundedIntro(x, t.digits, o.b, t.point, t.exponent, t.binExp, if At(s, 0) == '-' then 1 else 0, r);
  }

  lemma RoundedIntro(x: real, digits: seq<nat>, b: Radix, point: int, exponent: int, binExp: bool, sign: nat, r: Bits)
    requires sign <= 1 && ValueWith(x, digits, b, point, exponent, binExp, sign, r)
    ensures IsRounded(digits, b, point, exponent, binExp, sign, r)
  {
    hide ValueWith;
  }

  lemma InvalidToken(s: string, radix: RadixArgument, flags: Flags, o: Source, from: nat, next: nat)
    requires StartOf(s, SignLength(s), radix, flags).From? && from == StartOf(s, SignLength(s), radix, flags).from
    requires o == SourceOf(s, StartOf(s, SignLength(s), radix, flags), flags)
    requires exists mid: nat, digits, point :: InvalidAt(o, from, mid, digits, point, next)
    ensures IsToken(s, radix, flags, Invalid(next)) && IsValue(s, Invalid(next), QNAN)
  {
    hide StartOf, InvalidAt;
  }

  lemma ValueElim(x: real, digits: seq<nat>, b: Radix, point: int, exponent: int, binExp: bool, sign: nat, r: Bits)
    requires sign <= 1 && ValueWith(x, digits, b, point, exponent, binExp, sign, r)
    ensures IsNumeral(x, Kept(digits, b), b, point, exponent, binExp) && RoundsTo(x, sign, RNE, r)
  {
  }

  // ----- there is one reading -----

  lemma MantissaUnique(o: Source, from: nat, mid1: nat, digits1: seq<nat>, point1: int, mid2: nat, digits2: seq<nat>,
                       point2: int)
    requires MantissaText(o, from, mid1, digits1, point1) && MantissaText(o, from, mid2, digits2, point2)
    ensures mid1 == mid2 && digits1 == digits2 && point1 == point2
  {
    hide Scanned, Significant, Ends;
    var pos1: nat, dot1: int, sig1: nat :| MantissaWith(o, from, mid1, digits1, point1, pos1, dot1, sig1);
    var pos2: nat, dot2: int, sig2: nat :| MantissaWith(o, from, mid2, digits2, point2, pos2, dot2, sig2);
    ScanUnique(o, from, mid1, pos1, dot1, mid2, pos2, dot2);
    SignificantUnique(o, from, mid1, sig1, digits1, sig2, digits2);
  }

  lemma ExponentPartUnique(o: Source, mid: nat, next1: nat, exponent1: int, binExp1: bool, next2: nat, exponent2: int,
                           binExp2: bool)
    requires ExponentPart(o, mid, next1, exponent1, binExp1) && ExponentPart(o, mid, next2, exponent2, binExp2)
    ensures next1 == next2 && exponent1 == exponent2 && binExp1 == binExp2
  {
    hide ExponentAt, ExponentValue, HasExponent;
    if HasExponent(o, mid) {
      var q1: nat, negative1: bool :| ExponentWith(o, mid, q1, next1, negative1, exponent1);
      var q2: nat, negative2: bool :| ExponentWith(o, mid, q2, next2, negative2, exponent2);
      ExponentUnique(o, mid, q1, next1, negative1, q2, next2, negative2);
    }
  }

  /** Where an exponent may follow, there is one or the text is no number. */
  lemma NumberOrNot(o: Source, mid: nat, next: nat, exponent: int, binExp: bool, at: nat)
    requires ExponentPart(o, mid, next, exponent, binExp) && NoNumber(o, mid, at)
    ensures next == o.start
  {
    hide ExponentValue, HasExponent;
  }

  lemma InvalidUnique(o: Source, from: nat, mid1: nat, digits1: seq<nat>, point1: int, next1: nat, t: Token)
    requires InvalidAt(o, from, mid1, digits1, point1, next1)
    requires t.Invalid? ==> exists mid: nat, digits, point :: InvalidAt(o, from, mid, digits, point, t.next)
    requires t.Numeral? ==> t.o == o && t.from == from && t.next > o.start
    requires t.Numeral? ==>
               && MantissaText(o, from, t.mid, t.digits, t.point)
               && ExponentPart(o, t.mid, t.next, t.exponent, t.binExp)
    ensures !t.Numeral? && (t.Invalid? ==> t.next == next1)
  {
    hide MantissaText, ExponentPart, HasExponent, BareMark;
    if t.Numeral? {
      MantissaUnique(o, from, mid1, digits1, point1, t.mid, t.digits, t.point);
      NumberOrNot(o, t.mid, t.next, t.exponent, t.binExp, next1);
    } else if t.Invalid? {
      var mid: nat, digits, point :| InvalidAt(o, from, mid, digits, point, t.next);
      MantissaUnique(o, from, mid1, digits1, point1, mid, digits, point);
    }
  }

  /** A text is read in one way only. */
  lemma TokenUnique(s: string, radix: RadixArgument, flags: Flags, t1: Token, t2: Token)
    requires IsToken(s, radix, flags, t1) && IsToken(s, radix, flags, t2)
    ensures t1 == t2
  {
    hide StartOf, MantissaText, ExponentPart, InvalidAt, SignLength;
    var st := StartOf(s, SignLength(s), radix, flags);
    if st.From? {
      var o := SourceOf(s, st, flags);
      if t1.Invalid? {
        var mid: nat, digits, point :| InvalidAt(o, st.from, mid, digits, point, t1.next);
        InvalidUnique(o, st.from, mid, digits, point, t1.next, t2);
      } else if t2.Invalid? {
        var mid: nat, digits, point :| InvalidAt(o, st.from, mid, digits, point, t2.next);
        InvalidUnique(o, st.from, mid, digits, point, t2.next, t1);
      } else {
        MantissaUnique(o, st.from, t1.mid, t1.digits, t1.point, t2.mid, t2.digits, t2.point);
        ExponentPartUnique(o, t1.mid, t1.next, t1.exponent, t1.binExp, t2.next, t2.exponent, t2.binExp);
      }
    }
  }

  lemma NumeralIs(x: real, kept: seq<nat>, mant: nat, b: Radix, point: int, exponent: int, binExp: bool, f: int)
    requires IsNumeral(x, kept, b, point, exponent, binExp) && DigitsValue(kept, b) == mant
    requires f == point - |kept| + (if binExp then 0 else exponent)
    ensures x == ScaleBy(RadixValue(mant as real, b, f), 1074 + (if binExp then exponent else 0))
  {
    hide DigitsValue, RadixValue, RadixScaled, Exp2;
    var z: real :| IsNumeralOf(x, z, kept, b, point, exponent, binExp);
    RadixValueUnique(z, mant as real, b, f);
    SameScaled(x, z, 1074 + (if binExp then exponent else 0));
  }

  lemma SameScaled(x: real, z: real, e: int)
    requires IsScaled(x, z, e)
    ensures x == ScaleBy(z, e)
  {
    hide Exp2;
    ScaleOrder(x, ScaleBy(z, e), z, z, e);
  }

  lemma RoundedUnique(digits: seq<nat>, b: Radix, point: int, exponent: int, binExp: bool, sign: nat, r1: Bits,
                      r2: Bits)
    requires sign <= 1 && IsRounded(digits, b, point, exponent, binExp, sign, r1) &&
             IsRounded(digits, b, point, exponent, binExp, sign, r2)
    ensures r1 == r2
  {
    hide IsNumeral, Kept, RoundsTo, DigitsValue, RadixValue, ScaleBy;
    var x1: real :| ValueWith(x1, digits, b, point, exponent, binExp, sign, r1);
    var x2: real :| ValueWith(x2, digits, b, point, exponent, binExp, sign, r2);
    var kept := Kept(digits, b);
    var f := point - |kept| + (if binExp then 0 else exponent);
    NumeralIs(x1, kept, DigitsValue(kept, b), b, point, exponent, binExp, f);
    NumeralIs(x2, kept, DigitsValue(kept, b), b, point, exponent, binExp, f);
    RoundsToUnique(x1, sign, RNE, r1, r2);
  }

  /** The text, the radix and the flags decide where js_atod stops and what it
      returns. */
  lemma ReadsUnique(s: string, radix: RadixArgument, flags: Flags, next1: nat, r1: Bits, next2: nat, r2: Bits)
    requires Reads(s, radix, flags, next1, r1) && Reads(s, radix, flags, next2, r2)
    ensures next1 == next2 && r1 == r2
  {
    hide IsToken, IsRounded;
    var t1: Token :| ReadsAs(s, radix, flags, t1, r1) && next1 == t1.next;
    var t2: Token :| ReadsAs(s, radix, flags, t2, r2) && next2 == t2.next;
    TokenUnique(s, radix, flags, t1, t2);
    if t1.Numeral? {
      RoundedUnique(t1.digits, t1.o.b, t1.point, t1.exponent, t1.binExp, if At(s, 0) == '-' then 1 else 0, r1, r2);
    }
  }

  lemma NothingScannedText(o: Source)
    requires o.start <= |o.s| && Ends(o, o.start, -1)
    ensures MantissaText(o, o.start, o.start, [], 0) && !HasExponent(o, o.start)
  {
    ScannedStart(o, o.start);
    NothingScanned(o, o.start);
    SignificantStart(o, o.start, o.start);
    hide Scanned, Significant, DigitsIn, Ends;
    MantissaIs(o, o.start, o.start, [], 0, 0, -1, 0);
  }

  lemma LoneDotStart(radix: RadixArgument, flags: Flags)
    ensures StartOf(".", 0, radix, flags) == From(0, if radix == 0 then 10 else radix, flags.underscores)
    ensures SignLength(".") == 0 && At(".", 0) == '.' && At(".", 1) == 0 as char
  {
    hide OctalRun;
  }

  /** A dot without a digit is no number, in any radix. */
  lemma LoneDot(radix: RadixArgument, flags: Flags, next: nat, r: Bits)
    requires Reads(".", radix, flags, next, r)
    ensures next == 0 && r == QNAN
  {
    hide StartOf, MantissaText, IsRounded, HasExponent, ExponentPart, OddPart;
    var t: Token :| ReadsAs(".", radix, flags, t, r) && next == t.next;
    LoneDotStart(radix, flags);
    var o := SourceOf(".", StartOf(".", 0, radix, flags), flags);
    NothingScannedText(o);
    InvalidIntro(o, 0, 0, [], 0, 0);
    TokenUnique(".", radix, flags, t, Invalid(0));
  }

  lemma OneScannedText(o: Source)
    requires o.start == 0 && o.s == "1__2" && o.b == 10
    ensures MantissaText(o, 0, 1, [1], 1) && !HasExponent(o, 1)
  {
    ScannedStart(o, 0);
    ScanDigit(o, 0, 0, 0, -1);
    NothingScanned(o, 0);
    SignificantStart(o, 0, 0);
    SignificantDigit(o, 0, 0, 0, [], 1);
    assert Ends(o, 1, -1);
    hide Scanned, Significant, DigitsIn, Ends, DotAfter, PassesAll;
    MantissaIs(o, 0, 1, [1], 1, 1, -1, 0);
  }

  lemma DoubledStart(flags: Flags)
    ensures StartOf("1__2", 0, 10, flags) == From(0, 10, flags.underscores) && SignLength("1__2") == 0
  {
    hide OctalRun;
    NotTheWord("1__2");
  }

  lemma NotTheWord(s: string)
    requires |s| < 8
    ensures !StartsWith(s, 0, "Infinity")
  {
  }

  /** A doubled separator ends the number before it. */
  lemma DoubledSeparator(flags: Flags, next: nat, r: Bits)
    requires Reads("1__2", 10, flags, next, r)
    ensures next == 1
  {
    hide StartOf, MantissaText, IsRounded, HasExponent, OddPart;
    var t: Token :| ReadsAs("1__2", 10, flags, t, r) && next == t.next;
    DoubledStart(flags);
    var o := SourceOf("1__2", StartOf("1__2", 0, 10, flags), flags);
    OneScannedText(o);
    TokenUnique("1__2", 10, flags, t, Numeral(o, 0, 1, 1, [1], 1, 0, false));
  }
}
