/** The fraction format of js_dtoa (toFixed): |d| * b^n rounded half away from
    zero, with n fraction digits and no superfluous leading zero. */
module FractionFormat {
  import opened PowersOfTwo
  import opened Rounding
  import opened Binary64
  import opened StickyBits
  import opened Limbs
  import opened RadixPowers
  import opened RadixTables
  import opened Bignum
  import opened RadixScaling
  import opened RadixReals
  import opened RadixLogarithm
  import opened DoubleRounding
  import opened DigitSearch
  import opened Atod
  import opened FreeFormatSearch
  import opened DigitOutput

  const JS_DTOA_MAX_DIGITS: nat := 101

  /** s is k written with i integer digits and n fraction digits: no digit is
      lost, and a leading zero stands only before the dot or at the end. */
  ghost predicate IsFraction(s: string, k: nat, b: Radix, i: nat, n: nat) {
    && i > 0 && s == WithDot(DigitString(k, b, i + n), i)
    && k < Pow(b, i + n) && (i == 1 || Pow(b, i + n - 1) <= k)
  }

  /** The scaled number has at most one digit more than estimated. */
  lemma FractionUpper(x: real, m: nat, e: int, b: Radix, n: nat, d: int, k: nat)
    requires P52 <= m < P53 && x == PartsValue(m, e) && LogBracket(b, e, d)
    requires RoundsToInteger(Product(x, RPow(b, n)), k, NearAway)
    ensures k < Pow(b, Greatest(d + 1, 1) + n)
  {
    var c := Greatest(d, 0);
    PartsBounds(m, e);
    Exp2Succ(e - 1);
    RPowMonotone(b, d, c);
    assert Exp2(e - 53) > 0.0;
    if b == 2 {
      BinaryBracket(e, d);
      ScaledBounds(x, b, n, 0, c);
    }
    DoubledFraction(x, b, n, c);
    RPowNat(b, c + n);
    PowSucc(b, c + n);
    PowPositive(b, c + n);
    hide Pow, Exp2, RPow, Product, PartsValue, RoundsToInteger;
    BelowNextPower(Product(x, RPow(b, n)), k, b, Pow(b, c + n));
  }

  lemma DoubledFraction(x: real, b: Radix, n: nat, c: nat)
    ensures x < 2.0 * RPow(b, c) ==> Product(x, RPow(b, n)) < 2.0 * RPow(b, c + n)
  {
    hide RPow, Product;
    RPowAdd(b, c, n);
    var r, s := RPow(b, c), RPow(b, n);
    ProductMono(x, 2.0 * r, s);
    ProductSum(r, r, s);
  }

  lemma BelowNextPower(v: real, k: nat, b: Radix, p: nat)
    requires RoundsToInteger(v, k, NearAway) && v < 2.0 * (p as real) && (b == 2 ==> v < p as real) && p > 0
    ensures k < b * p
  {
    if b > 2 {
      MulLower(3, b, p, p);
    }
  }

  /** When the number is at least one, its first estimated digit is there. */
  lemma FractionLower(x: real, m: nat, e: int, b: Radix, n: nat, d: int, k: nat)
    requires P52 <= m < P53 && x == PartsValue(m, e) && LogBracket(b, e, d) && d >= 1
    requires RoundsToInteger(Product(x, RPow(b, n)), k, NearAway)
    ensures Pow(b, d + n - 1) <= k
  {
    PartsBounds(m, e);
    ScaledBounds(x, b, n, 0, d - 1);
    RPowNat(b, d - 1 + n);
    hide Pow, Exp2, RPow, Product, PartsValue;
  }

  /** No bignum of the fraction format exceeds DBIGNUM_LEN_MAX limbs. */
  lemma FractionRoom(b: Radix, radix1: nat, s: nat, n: nat, e: int)
    requires RadixSplit(b, radix1, s) && radix1 <= 36 && n <= JS_DTOA_MAX_DIGITS && e <= 1024
    ensures RoundLimbs(radix1, s, n, e - 53) <= DBIGNUM_LEN_MAX
  {
    RadixSplitElim(b, radix1, s);
    TwosOfRadix(b, radix1, s);
    MulLower(n, 101, s, s);
    if radix1 >= 2 {
      TableWidths(radix1);
      LimbDigitsOfOdd(radix1, s);
      hide DigitsPerLimb, Groups;
      GroupsAtMost(n, if s == 0 then 17 else if s == 1 then 15 else if s == 2 then 11 else 6, DigitsPerLimb(radix1));
    }
  }

  lemma TwosOfRadix(b: Radix, radix1: nat, s: nat)
    requires b == radix1 * Pow2(s) && radix1 >= 1
    ensures s <= 5
    ensures s == 1 ==> radix1 <= 18
    ensures s == 2 ==> radix1 <= 9
    ensures s >= 3 ==> radix1 <= 4
    ensures s >= 4 ==> radix1 <= 2
  {
    SmallPowers();
    assert Pow2(6) == 64;
    hide Pow2;
    if s >= 6 {
      Pow2Monotone(6, s);
    }
    if s >= 4 {
      Pow2Monotone(4, s);
    }
    MulLower(1, radix1, Pow2(s), Pow2(s));
    if s >= 4 {
      MulLower(radix1, radix1, Pow2(s), 16);
    }
  }

  lemma LimbDigitsOfOdd(radix1: Radix, s: nat)
    requires s == 1 ==> radix1 <= 18
    requires s == 2 ==> radix1 <= 9
    requires s >= 3 ==> radix1 <= 4
    ensures DigitsPerLimb(radix1) >= if s == 0 then 6 else if s == 1 then 7 else if s == 2 then 10 else 16
  {
    TableWidths(radix1);
    assert DigitsPerLimb(18) == 7 && DigitsPerLimb(9) == 10 && DigitsPerLimb(4) == 16;
    hide DigitsPerLimb;
    if s == 1 {
      DigitsPerLimbMonotone(radix1, 18);
    } else if s == 2 {
      DigitsPerLimbMonotone(radix1, 9);
    } else if s >= 3 {
      DigitsPerLimbMonotone(radix1, 4);
    }
  }

  /** |u| * b^n, rounded half away from zero. */
  ghost predicate ScaledAndRounded(u: Bits, b: Radix, n: nat, k: nat) {
    exists m: nat, e: int :: Parts(u, m, e) && RoundsToInteger(Product(PartsValue(m, e), RPow(b, n)), k, NearAway)
  }

  method ScaleFraction(tmp: Mpb, m: nat, e: int, b: Radix, n: nat)
    requires tmp.Valid() && tmp.tab.Length == DBIGNUM_LEN_MAX && P52 <= m < P53 && e <= 1024 && n <= JS_DTOA_MAX_DIGITS
    modifies tmp, tmp.tab
    ensures tmp.Valid() && tmp.Normal()
    ensures RoundsToInteger(Product(PartsValue(m, e), RPow(b, n)), tmp.V(), NearAway)
  {
    hide *;
    var radix1, s := OddPart(b), Ctz32(b);
    SplitOf(b);
    RadixSplitElim(b, radix1, s);
    FractionRoom(b, radix1, s, n, e);
    SignificandFits(m);
    ghost var y := RadixValue(m as real, b, n);
    MulPowRound(tmp, m, e - 53, radix1, s, n, RNDNA, b, y, ScaleBy(y, e - 53));
    CandidateValue(m, e, b, n);
    AwayDirection();
  }

  lemma SignificandFits(m: nat)
    requires P52 <= m < P53
    ensures 0 < m < BASE * BASE
  {
  }

  lemma AwayDirection()
    ensures ModeDirection(RNDNA) == NearAway
  {
  }

  // ----- js_dtoa_max_len for the fraction format -----

  function FractionMaxLen(u: Bits, b: Radix, n: nat): int {
    var e: int := ExponentOf(u);
    if e == EXP_MASK then 9
    else
      var intDigits := if e - 1023 < 0 then 1 else 2 + MulLog2Radix(e - 1023 - 1, b);
      Greatest(intDigits + 1 + 1 + 1 + n, 9)
  }

  /** Doubling a number raises the estimate by one at most. */
  lemma EstimateStep(b: Radix, a: int)
    requires -2048 <= a < 2047
    ensures MulLog2Radix(a + 1, b) <= MulLog2Radix(a, b) + 1
  {
    var p, q := MulLog2Radix(a, b), MulLog2Radix(a + 1, b);
    hide MulLog2Radix, RPow, Exp2;
    MulLog2RadixIsFloor(b, a);
    MulLog2RadixIsFloor(b, a + 1);
    Exp2Succ(a);
    RPowSucc(b, p + 1);
    TwiceBelow(b, RPow(b, p + 1), RPow(b, p + 2));
    RPowStrict(b, q, p + 2);
  }

  lemma TwiceBelow(b: Radix, r: real, s: real)
    requires s == Product(b as real, r) && r > 0.0
    ensures 2.0 * r <= s
  {
    MulMono(2.0, b as real, r);
  }

  lemma EstimateSign(b: Radix, a: int)
    requires -2048 <= a <= 2047
    ensures a >= 0 <==> MulLog2Radix(a, b) >= 0
  {
    var p := MulLog2Radix(a, b);
    RPowNat(b, 0);
    PowZero(b);
    hide MulLog2Radix, RPow, Exp2;
    Exp2Zero();
    MulLog2RadixIsFloor(b, a);
    if a >= 0 {
      Exp2Monotone(0, a);
      RPowStrict(b, 0, p + 1);
    } else {
      Exp2Succ(-1);
      Exp2Monotone(a, -1);
      RPowStrict(b, p, 0);
    }
  }

  /** Sign, digits (one leading zero included) and dot fit js_dtoa_max_len. */
  lemma FractionFits(u: Bits, m: nat, e: int, b: Radix, n: nat)
    requires Parts(u, m, e) && e == (if ExponentOf(u) == 0 then e else ExponentOf(u) - 1022)
    requires ExponentOf(u) == 0 ==> e <= -1022
    ensures 1 + Greatest(MulLog2Radix(e - 1, b) + 2, 1) + n + 1 <= FractionMaxLen(u, b, n)
  {
    hide Magnitude, MulLog2Radix;
    EstimateSign(b, e - 1);
    if ExponentOf(u) - 1023 >= 0 {
      EstimateStep(b, e - 2);
    }
  }

  /** Parts of the exponent field. */
  lemma PartsExponent(u: Bits, m: nat, e: int)
    requires Parts(u, m, e)
    ensures ExponentOf(u) == 0 ==> e <= -1022
    ensures ExponentOf(u) != 0 ==> e == ExponentOf(u) - 1022
  {
    var y := Magnitude(u);
    MagnitudeUpper(u);
    if ExponentOf(u) != 0 {
      NormalParts(u);
      DenotesUnique(m, e, P52 + FractionOf(u), ExponentOf(u) - 1022, y);
    } else {
      hide Pow2;
      if e >= -1021 {
        MulLower(P52, m, Pow2(e + 1021), 1);
      }
    }
  }

  lemma NormalParts(u: Bits)
    requires ExponentOf(u) != 0
    ensures Denotes(P52 + FractionOf(u), ExponentOf(u) - 1022, Magnitude(u))
  {
    hide Pow2;
  }

  // ----- the fraction format -----

  /** The digits of k, one more than estimated, and the leading zero dropped. */
  lemma DroppedZero(k: nat, b: Radix, i: nat, n: nat, s: string)
    requires i > 1 && s == WithDot(DigitString(k, b, i + n), i) && k < Pow(b, i + n) && Pow(b, i + n - 2) <= k
    ensures |s| >= 2 && s[1] != '.' && (s[0] == '0' <==> k < Pow(b, i + n - 1))
    ensures if s[0] == '0' then IsFraction(s[1..], k, b, i - 1, n) else IsFraction(s, k, b, i, n)
  {
    var w := i + n - 1;
    DigitStringSplit(k, b, 1, w);
    var t := DigitString(k, b, w);
    var d := Div(k, Pow(b, w));
    LeadingDigit(k, b, w);
    ToDigitOfChar(d);
    OneDigit(d, b);
    DigitStringSplit(k, b, 2, w - 1);
    SecondDigit(Div(k, Pow(b, w - 1)), b);
    hide Pow, Div, DigitString;
    assert DigitString(k, b, i + n) == [DigitChar(d)] + t;
    assert i + n == 1 + w == 2 + (w - 1);
    WithDotTail(DigitChar(d), t, i);
  }

  lemma LeadingDigit(k: nat, b: Radix, w: nat)
    requires k < Pow(b, w + 1)
    ensures Pow(b, w) > 0 && Div(k, Pow(b, w)) < b && (Div(k, Pow(b, w)) == 0 <==> k < Pow(b, w))
  {
    PowPositive(b, w);
    PowSucc(b, w);
    var p := Pow(b, w);
    hide Pow, Div, Mod;
    DivMod(k, p);
    if Div(k, p) >= b {
      MulLower(b, Div(k, p), p, p);
    }
    if Div(k, p) >= 1 {
      MulLower(1, Div(k, p), p, p);
    }
  }

  lemma OneDigit(d: nat, b: Radix)
    requires d < b
    ensures DigitString(d, b, 1) == [DigitChar(d)]
  {
    assert Mod(d, b) == d;
    DigitStringStep(d, b, 0);
    DigitStringStart(Div(d, b), b);
  }

  lemma SecondDigit(q: nat, b: Radix)
    ensures DigitString(q, b, 2)[1] != '.'
  {
    DigitStringStep(q, b, 1);
    ToDigitOfChar(Mod(q, b));
  }

  lemma WithDotTail(c: char, t: string, i: nat)
    requires 1 <= i <= |t| + 1
    ensures WithDot([c] + t, i)[1..] == WithDot(t, i - 1) && WithDot([c] + t, i)[0] == c
  {
    var s := [c] + t;
    assert s[..i][1..] == t[..i - 1] && s[i..] == t[i - 1..];
  }

  /** memmove(q, q + 1, len) */
  method DropFirst(buf: array<char>, off: nat, len: nat)
    requires off + len + 1 <= buf.Length
    modifies buf
    ensures buf[off..off + len] == old(buf[off + 1..off + 1 + len]) && buf[..off] == old(buf[..off])
  {
    ghost var t := buf[..];
    var i := 0;
    while i < len
      invariant 0 <= i <= len
      invariant forall j :: 0 <= j < off ==> buf[j] == t[j]
      invariant forall j :: off <= j < off + i ==> buf[j] == t[j + 1]
      invariant forall j :: off + i <= j < buf.Length ==> buf[j] == t[j]
    {
      buf[off + i] := buf[off + i + 1];
      i := i + 1;
    }
    assert buf[off..off + len] == t[off + 1..off + 1 + len];
  }

  /** k has at most `ints` integer digits and, if that is more than one, at
      least one less. */
  ghost predicate DigitRange(k: nat, b: Radix, ints: nat, n: nat) {
    ints >= 1 && k < Pow(b, ints + n) && (ints > 1 ==> Pow(b, ints + n - 2) <= k)
  }

  /** The digits of k at position off. */
  method WriteFraction(buf: array<char>, off: nat, a: Mpb, b: Radix, n: nat, ints: nat) returns (len: nat, ghost i: nat)
    requires a.Valid() && a.Normal() && off + ints + n + 1 <= buf.Length && DigitRange(a.V(), b, ints, n)
    modifies a, a.tab, buf
    ensures off + len <= buf.Length && len <= ints + n + 1
    ensures IsFraction(buf[off..off + len], old(a.V()), b, i, n) && buf[..off] == old(buf[..off])
  {
    hide *;
    ghost var k := a.V();
    SomeDigits(k, b, ints, n);
    len := OutputDigits(buf, off, a, b, ints + n, ints);
    ghost var s := buf[off..off + len];
    FractionShape(k, b, ints, n, s);
    var dropped;
    len, dropped := DropLeadingZero(buf, off, len);
    i := if dropped then ints - 1 else ints;
  }

  lemma SomeDigits(k: nat, b: Radix, ints: nat, n: nat)
    requires DigitRange(k, b, ints, n)
    ensures ints >= 1
  {
  }

  function SuperfluousZero(s: string): bool {
    |s| >= 2 && s[0] == '0' && s[1] != '.'
  }

  /** Removing the extra digit in front when it is zero and not before the dot. */
  method DropLeadingZero(buf: array<char>, off: nat, len0: nat) returns (len: nat, dropped: bool)
    requires off + len0 <= buf.Length && len0 >= 1
    modifies buf
    ensures dropped <==> SuperfluousZero(old(buf[off..off + len0]))
    ensures len == if dropped then len0 - 1 else len0
    ensures buf[off..off + len] == if dropped then old(buf[off..off + len0])[1..] else old(buf[off..off + len0])
    ensures buf[..off] == old(buf[..off])
  {
    ghost var s := buf[off..off + len0];
    len := len0;
    assert s[0] == buf[off] && (len >= 2 ==> s[1] == buf[off + 1]);
    dropped := buf[off] == '0' && len >= 2 && buf[off + 1] != '.';
    if dropped {
      len := len - 1;
      assert s[1..] == buf[off + 1..off + 1 + len];
      DropFirst(buf, off, len);
    }
  }

  /** Whether output_digits left a superfluous zero. */
  lemma FractionShape(k: nat, b: Radix, i: nat, n: nat, s: string)
    requires DigitRange(k, b, i, n) && s == WithDot(DigitString(k, b, i + n), i)
    ensures |s| >= 1
    ensures if SuperfluousZero(s) then i > 1 && IsFraction(s[1..], k, b, i - 1, n)
            else IsFraction(s, k, b, i, n)
  {
    hide Pow, DigitString;
    if i > 1 {
      DroppedZero(k, b, i, n, s);
    }
  }

  /** The fraction branch of js_dtoa, for a nonzero number with parts m and e:
      k is |u| * b^n rounded half away from zero, written with i integer digits. */
  method PrintFraction(buf: array<char>, off: nat, tmp: Mpb, u: Bits, m: nat, e: int, b: Radix, n: nat, d: int)
    returns (next: nat, ghost k: nat, ghost i: nat)
    requires tmp.Valid() && tmp.tab.Length == DBIGNUM_LEN_MAX && Parts(u, m, e) && LogBracket(b, e, d)
    requires n <= JS_DTOA_MAX_DIGITS && off + Greatest(d + 1, 1) + n + 1 <= buf.Length
    modifies tmp, tmp.tab, buf
    ensures off < next <= off + Greatest(d + 1, 1) + n + 1
    ensures ScaledAndRounded(u, b, n, k) && IsFraction(buf[off..next], k, b, i, n) && buf[..off] == old(buf[..off])
  {
    hide *;
    PartsRange(u, m, e);
    ScaleFraction(tmp, m, e, b, n);
    k := tmp.V();
    FractionBounds(PartsValue(m, e), m, e, b, n, d, k);
    ScaledIntro(u, m, e, b, n, k);
    var len;
    len, i := WriteFraction(buf, off, tmp, b, n, Greatest(d + 1, 1));
    next := off + len;
    FractionLength(buf[off..next], k, b, i, n);
  }

  lemma FractionLength(s: string, k: nat, b: Radix, i: nat, n: nat)
    requires IsFraction(s, k, b, i, n)
    ensures |s| > 0
  {
  }

  /** Zero needs a sign, a digit, a dot and n digits. */
  lemma ShortestMaxLen(u: Bits, b: Radix, n: nat)
    requires IsFinite(u)
    ensures FractionMaxLen(u, b, n) >= n + 4 && FractionMaxLen(u, b, n) >= 9
  {
    hide MulLog2Radix;
    if ExponentOf(u) - 1023 >= 0 {
      EstimateSign(b, ExponentOf(u) - 1023);
      EstimateStep(b, ExponentOf(u) - 1024);
    }
  }

  lemma FractionBounds(x: real, m: nat, e: int, b: Radix, n: nat, d: int, k: nat)
    requires P52 <= m < P53 && x == PartsValue(m, e) && LogBracket(b, e, d)
    requires RoundsToInteger(Product(x, RPow(b, n)), k, NearAway)
    ensures Greatest(d + 1, 1) >= 1 && DigitRange(k, b, Greatest(d + 1, 1), n)
  {
    hide Pow, Candidate, LogBracket, PartsValue, Product, RPow, RoundsToInteger;
    FractionUpper(x, m, e, b, n, d, k);
    if d >= 1 {
      FractionLower(x, m, e, b, n, d, k);
    }
  }

  lemma ScaledIntro(u: Bits, m: nat, e: int, b: Radix, n: nat, k: nat)
    requires Parts(u, m, e) && RoundsToInteger(Product(PartsValue(m, e), RPow(b, n)), k, NearAway)
    ensures ScaledAndRounded(u, b, n, k)
  {
  }
}
