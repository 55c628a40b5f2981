/** The scanning loops of js_atod: digits with a dot and separators, and the
    exponent. */
module NumberScan {
  import opened RadixTables
  import opened Digits
  import opened DigitOutput

  /** str[i] of a C string: past its characters there is the terminator. */
  function At(s: string, i: nat): char {
    if i < |s| then s[i] else 0 as char
  }

  predicate IsDigitAt(s: string, i: nat, b: Radix) {
    ToDigit(At(s, i)) < b
  }

  lemma DigitInside(s: string, i: nat, b: Radix)
    requires IsDigitAt(s, i, b)
    ensures i < |s| && s[i] != '.' && s[i] != '_'
    ensures ToDigit(s[i]) == 0 <==> s[i] == '0'
  {
  }

  /** The digits among the characters of t, in order. */
  function DigitsIn(t: string, b: Radix): (d: seq<nat>)
    ensures |d| <= |t| && AreDigits(d, b)
  {
    if |t| == 0 then []
    else
      var d := DigitsIn(t[..|t| - 1], b);
      var c := ToDigit(t[|t| - 1]);
      if c < b then d + [c] else d
  }

  lemma DigitsInSnoc(t: string, c: char, b: Radix)
    ensures DigitsIn(t + [c], b) == DigitsIn(t, b) + (if ToDigit(c) < b then [ToDigit(c)] else [])
  {
    assert (t + [c])[..|t|] == t;
  }

  lemma {:induction false} DigitsInConcat(t: string, u: string, b: Radix)
    ensures DigitsIn(t + u, b) == DigitsIn(t, b) + DigitsIn(u, b)
  {
    if |u| == 0 {
      assert t + u == t && DigitsIn(u, b) == [];
    } else {
      var v, c := u[..|u| - 1], u[|u| - 1];
      DigitsInConcat(t, v, b);
      DigitsInSnoc(t + v, c, b);
      DigitsInSnoc(v, c, b);
      hide *;
      assert u == v + [c] && t + u == (t + v) + [c];
    }
  }

  /** What a numeral is made of. */
  predicate IsPart(c: char, b: Radix, sep: bool) {
    ToDigit(c) < b || c == '.' || (sep && c == '_')
  }

  /** The position of the only dot of t, or -1. */
  ghost predicate DotAt(t: string, dot: int) {
    && -1 <= dot < |t|
    && forall i :: 0 <= i < |t| ==> (t[i] == '.' <==> i == dot)
  }

  /** dot_pos: the number of digits before the dot of t, or -1. */
  ghost predicate DotAfter(t: string, b: Radix, dotPos: int) {
    exists dot: int :: DotAt(t, dot) && dotPos == if dot < 0 then -1 else |DigitsIn(t[..dot], b)|
  }

  lemma DotAfterDot(t: string, b: Radix)
    requires DotAfter(t, b, -1)
    ensures DotAfter(t + ['.'], b, |DigitsIn(t, b)|)
  {
    assert DotAt(t, -1);
    assert DotAt(t + ['.'], |t|);
    assert (t + ['.'])[..|t|] == t;
  }

  lemma DotAfterOther(t: string, c: char, b: Radix, dotPos: int)
    requires DotAfter(t, b, dotPos) && c != '.'
    ensures DotAfter(t + [c], b, dotPos)
  {
    var dot: int :| DotAt(t, dot) && dotPos == if dot < 0 then -1 else |DigitsIn(t[..dot], b)|;
    assert DotAt(t + [c], dot);
    if dot >= 0 {
      assert (t + [c])[..dot] == t[..dot];
    }
  }

  /** Where and how js_atod looks: the text, where the number starts after its
      sign, the radix, and the flags. */
  datatype Source = Source(s: string, start: nat, b: Radix, sep: bool, intOnly: bool)

  predicate DotAccepted(o: Source, p: nat, dotPos: int) {
    At(o.s, p) == '.' && (p > o.start || IsDigitAt(o.s, p + 1, o.b)) && !o.intOnly && dotPos < 0
  }

  predicate SepAccepted(o: Source, p: nat) {
    o.sep && At(o.s, p) == '_' && p > o.start && IsDigitAt(o.s, p + 1, o.b)
  }

  /** The scan cannot go on at p. */
  predicate Ends(o: Source, p: nat, dotPos: int) {
    !IsDigitAt(o.s, p, o.b) && !DotAccepted(o, p, dotPos) && !SepAccepted(o, p)
  }

  /** The scan that starts at `from` goes on at i: there is a digit, or the
      first dot, where one may stand, or a separator, where one may stand. */
  predicate Passes(o: Source, from: nat, i: nat)
    requires from <= i <= |o.s|
  {
    IsDigitAt(o.s, i, o.b) || (DotAccepted(o, i, -1) && '.' !in o.s[from..i]) || SepAccepted(o, i)
  }

  predicate PassesAll(o: Source, from: nat, p: nat) {
    from <= p <= |o.s| && forall i :: from <= i < p ==> Passes(o, from, i)
  }

  lemma PassesOne(o: Source, from: nat, p: nat)
    requires PassesAll(o, from, p) && p < |o.s| && Passes(o, from, p)
    ensures PassesAll(o, from, p + 1)
  {
    hide Passes;
  }

  lemma NoDotYet(t: string, b: Radix, dotPos: int)
    requires DotAfter(t, b, dotPos)
    ensures dotPos < 0 <==> '.' !in t
  {
    hide DigitsIn;
    var dot: int :| DotAt(t, dot) && dotPos == if dot < 0 then -1 else |DigitsIn(t[..dot], b)|;
    if dot >= 0 {
      assert t[dot] == '.';
    }
  }

  /** dot_pos tells whether a dot was passed, so the loops stop exactly where the
      text does not pass. */
  lemma EndsWhenStuck(o: Source, from: nat, p: nat, pos: nat, dotPos: int)
    requires Scanned(o, from, p, pos, dotPos)
    ensures Ends(o, p, dotPos) <==> !Passes(o, from, p)
  {
    NoDotYet(o.s[from..p], o.b, dotPos);
  }

  /** pos and dot_pos describe what was scanned from `from` to p. */
  ghost predicate Scanned(o: Source, from: nat, p: nat, pos: nat, dotPos: int) {
    && PassesAll(o, from, p)
    && pos == |DigitsIn(o.s[from..p], o.b)| && DotAfter(o.s[from..p], o.b, dotPos)
  }

  lemma DotUnique(t: string, b: Radix, dot1: int, dot2: int)
    requires DotAfter(t, b, dot1) && DotAfter(t, b, dot2)
    ensures dot1 == dot2
  {
    hide DigitsIn;
    var k1: int :| DotAt(t, k1) && dot1 == if k1 < 0 then -1 else |DigitsIn(t[..k1], b)|;
    var k2: int :| DotAt(t, k2) && dot2 == if k2 < 0 then -1 else |DigitsIn(t[..k2], b)|;
    assert k1 >= 0 ==> t[k1] == '.';
    assert k2 >= 0 ==> t[k2] == '.';
    assert k1 == k2;
  }

  /** There is one way to scan from `from` until the text does not pass. */
  lemma ScanUnique(o: Source, from: nat, p1: nat, pos1: nat, dot1: int, p2: nat, pos2: nat, dot2: int)
    requires Scanned(o, from, p1, pos1, dot1) && Ends(o, p1, dot1)
    requires Scanned(o, from, p2, pos2, dot2) && Ends(o, p2, dot2)
    ensures p1 == p2 && pos1 == pos2 && dot1 == dot2
  {
    EndsWhenStuck(o, from, p1, pos1, dot1);
    EndsWhenStuck(o, from, p2, pos2, dot2);
    hide Passes, Ends, DigitsIn, DotAfter;
    assert !(p1 < p2) && !(p2 < p1);
    DotUnique(o.s[from..p1], o.b, dot1, dot2);
  }

  lemma ScannedStart(o: Source, from: nat)
    requires from <= |o.s|
    ensures Scanned(o, from, from, 0, -1)
  {
    assert o.s[from..from] == "";
    assert DotAt("", -1);
  }

  lemma ScanDot(o: Source, from: nat, p: nat, pos: nat)
    requires Scanned(o, from, p, pos, -1) && DotAccepted(o, p, -1)
    ensures p < |o.s| && Scanned(o, from, p + 1, pos, pos)
  {
    NoDotYet(o.s[from..p], o.b, -1);
    PassesOne(o, from, p);
    assert o.s[from..p + 1] == o.s[from..p] + ['.'];
    DotAfterDot(o.s[from..p], o.b);
    DigitsInSnoc(o.s[from..p], '.', o.b);
    hide DotAfter, PassesAll;
  }

  lemma ScanSeparator(o: Source, from: nat, p: nat, pos: nat, dotPos: int)
    requires Scanned(o, from, p, pos, dotPos) && SepAccepted(o, p)
    ensures p < |o.s| && Scanned(o, from, p + 1, pos, dotPos)
    ensures DigitsIn(o.s[from..p + 1], o.b) == DigitsIn(o.s[from..p], o.b)
  {
    PassesOne(o, from, p);
    assert o.s[from..p + 1] == o.s[from..p] + ['_'];
    DotAfterOther(o.s[from..p], '_', o.b, dotPos);
    DigitsInSnoc(o.s[from..p], '_', o.b);
    hide DotAfter, PassesAll;
  }

  lemma ScanDigit(o: Source, from: nat, p: nat, pos: nat, dotPos: int)
    requires Scanned(o, from, p, pos, dotPos) && IsDigitAt(o.s, p, o.b)
    ensures p < |o.s| && Scanned(o, from, p + 1, pos + 1, dotPos)
    ensures DigitsIn(o.s[from..p + 1], o.b) == DigitsIn(o.s[from..p], o.b) + [ToDigit(o.s[p])]
  {
    DigitInside(o.s, p, o.b);
    PassesOne(o, from, p);
    assert o.s[from..p + 1] == o.s[from..p] + [o.s[p]];
    DotAfterOther(o.s[from..p], o.s[p], o.b, dotPos);
    DigitsInSnoc(o.s[from..p], o.s[p], o.b);
    hide DotAfter, PassesAll;
  }

  lemma ScannedDot(o: Source, from: nat, p: nat, pos: nat)
    requires Scanned(o, from, p, pos, -1) && At(o.s, p) == '.'
    ensures DigitsIn(o.s[from..p + 1], o.b) == DigitsIn(o.s[from..p], o.b)
  {
    assert o.s[from..p + 1] == o.s[from..p] + ['.'];
    DigitsInSnoc(o.s[from..p], '.', o.b);
  }

  // ----- the start of one round of either loop -----

  /** A dot at p is passed over, if it may stand there. */
  method PassDot(o: Source, p0: nat, ghost from: nat, pos: nat, dotPos0: int)
    returns (second: bool, p: nat, dotPos: int)
    requires Scanned(o, from, p0, pos, dotPos0)
    ensures Scanned(o, from, p, pos, dotPos) && p0 <= p
    ensures DigitsIn(o.s[from..p], o.b) == DigitsIn(o.s[from..p0], o.b)
    ensures second ==> p == p0 && dotPos == dotPos0 && At(o.s, p) == '.' && Ends(o, p, dotPos)
    ensures !second ==> !DotAccepted(o, p, dotPos)
    ensures !DotAccepted(o, p0, dotPos0) ==> p == p0 && dotPos == dotPos0
  {
    hide PassesAll, DotAfter, DigitsIn;
    second, p, dotPos := false, p0, dotPos0;
    ScannedDotPos(o, from, p, pos, dotPos);
    if At(o.s, p) == '.' && (p > o.start || ToDigit(At(o.s, p + 1)) < o.b) && !o.intOnly {
      if dotPos >= 0 {
        second := true;
        return;
      }
      ScanDot(o, from, p, pos);
      ScannedDot(o, from, p, pos);
      dotPos := pos;
      p := p + 1;
    }
  }

  lemma ScannedDotPos(o: Source, from: nat, p: nat, pos: nat, dotPos: int)
    requires Scanned(o, from, p, pos, dotPos)
    ensures dotPos >= -1
  {
  }

  predicate AllZero(d: seq<nat>) {
    forall i :: 0 <= i < |d| ==> d[i] == 0
  }

  lemma AllZeroSnoc(d: seq<nat>)
    requires AllZero(d)
    ensures AllZero(d + [0])
  {
  }

  /** No further leading zero at p. */
  predicate NoZero(o: Source, p: nat, dotPos: int) {
    !DotAccepted(o, p, dotPos) && At(o.s, p) != '0' && !(SepAccepted(o, p) && At(o.s, p + 1) == '0')
  }

  /** Skipping leading zeros. */
  method SkipZeros(o: Source, from: nat) returns (p: nat, pos: nat, dotPos: int)
    requires from <= |o.s|
    ensures Scanned(o, from, p, pos, dotPos) && AllZero(DigitsIn(o.s[from..p], o.b)) && NoZero(o, p, dotPos)
  {
    hide PassesAll, DotAfter, DigitsIn, Scanned;
    ScannedStart(o, from);
    p, pos, dotPos := from, 0, -1;
    NothingScanned(o, from);
    while true
      invariant from <= p <= |o.s| && Scanned(o, from, p, pos, dotPos) && AllZero(DigitsIn(o.s[from..p], o.b))
      decreases |o.s| - p
    {
      var second;
      second, p, dotPos := PassDot(o, p, from, pos, dotPos);
      if second {
        break;
      }
      ScannedInside(o, from, p, pos, dotPos);
      if o.sep && At(o.s, p) == '_' && p > o.start && At(o.s, p + 1) == '0' {
        ScanSeparator(o, from, p, pos, dotPos);
        p := p + 1;
      }
      if At(o.s, p) != '0' {
        break;
      }
      ScanDigit(o, from, p, pos, dotPos);
      AllZeroSnoc(DigitsIn(o.s[from..p], o.b));
      p := p + 1;
      pos := pos + 1;
    }
    ScannedInside(o, from, p, pos, dotPos);
  }

  lemma NothingScanned(o: Source, from: nat)
    requires from <= |o.s|
    ensures DigitsIn(o.s[from..from], o.b) == []
  {
  }

  lemma ScannedInside(o: Source, from: nat, p: nat, pos: nat, dotPos: int)
    requires Scanned(o, from, p, pos, dotPos)
    ensures from <= p <= |o.s| && |DigitsIn(o.s[from..p], o.b)| == pos
  {
  }

  /** The significant digits: those of s[from..p] without the first sig, which
      are zeros; the first one left is not. */
  ghost predicate Significant(o: Source, from: nat, p: nat, sig: nat, digits: seq<nat>) {
    && from <= p <= |o.s| && sig <= |DigitsIn(o.s[from..p], o.b)|
    && AllZero(DigitsIn(o.s[from..p], o.b)[..sig]) && digits == DigitsIn(o.s[from..p], o.b)[sig..]
    && (|digits| > 0 ==> digits[0] > 0)
  }

  lemma SignificantStart(o: Source, from: nat, p: nat)
    requires from <= p <= |o.s| && AllZero(DigitsIn(o.s[from..p], o.b))
    ensures Significant(o, from, p, |DigitsIn(o.s[from..p], o.b)|, [])
  {
  }

  lemma SignificantSame(o: Source, from: nat, p: nat, q: nat, sig: nat, digits: seq<nat>)
    requires Significant(o, from, p, sig, digits) && from <= q <= |o.s|
    requires DigitsIn(o.s[from..q], o.b) == DigitsIn(o.s[from..p], o.b)
    ensures Significant(o, from, q, sig, digits)
  {
  }

  lemma SignificantDigit(o: Source, from: nat, p: nat, sig: nat, digits: seq<nat>, c: nat)
    requires Significant(o, from, p, sig, digits) && p < |o.s| && (digits == [] ==> c > 0)
    requires DigitsIn(o.s[from..p + 1], o.b) == DigitsIn(o.s[from..p], o.b) + [c]
    ensures Significant(o, from, p + 1, sig, digits + [c])
  {
    var d := DigitsIn(o.s[from..p], o.b);
    assert (d + [c])[..sig] == d[..sig] && (d + [c])[sig..] == d[sig..] + [c];
  }

  lemma SignificantUnique(o: Source, from: nat, p: nat, sig1: nat, digits1: seq<nat>, sig2: nat, digits2: seq<nat>)
    requires Significant(o, from, p, sig1, digits1) && Significant(o, from, p, sig2, digits2)
    ensures sig1 == sig2 && digits1 == digits2
  {
    var d := DigitsIn(o.s[from..p], o.b);
    hide DigitsIn;
    assert forall k :: 0 <= k < sig1 ==> d[k] == d[..sig1][k];
    assert forall k :: 0 <= k < sig2 ==> d[k] == d[..sig2][k];
    assert |digits1| > 0 ==> digits1[0] == d[sig1];
    assert |digits2| > 0 ==> digits2[0] == d[sig2];
  }

  /** A separator at p is passed over, if a digit follows. */
  method PassSeparator(o: Source, p0: nat, ghost from: nat, pos: nat, dotPos: int) returns (p: nat)
    requires Scanned(o, from, p0, pos, dotPos)
    ensures from <= p <= |o.s| && Scanned(o, from, p, pos, dotPos) &&
            DigitsIn(o.s[from..p], o.b) == DigitsIn(o.s[from..p0], o.b)
    ensures if SepAccepted(o, p0) then p == p0 + 1 && IsDigitAt(o.s, p, o.b) else p == p0
  {
    hide PassesAll, DotAfter, DigitsIn, Scanned;
    ScannedInside(o, from, p0, pos, dotPos);
    p := p0;
    if o.sep && At(o.s, p) == '_' && p > o.start && ToDigit(At(o.s, p + 1)) < o.b {
      ScanSeparator(o, from, p, pos, dotPos);
      p := p + 1;
    }
  }

  /** The digit loop.  Accumulating the digits is CollectDigits' work. */
  method ScanDigits(o: Source, ghost from: nat, p0: nat, pos0: nat, dotPos0: int)
    returns (digits: seq<nat>, p: nat, pos: nat, dotPos: int)
    requires Scanned(o, from, p0, pos0, dotPos0) && AllZero(DigitsIn(o.s[from..p0], o.b)) && NoZero(o, p0, dotPos0)
    ensures Scanned(o, from, p, pos, dotPos) && Significant(o, from, p, pos0, digits) && Ends(o, p, dotPos)
    ensures pos == pos0 + |digits|
  {
    hide PassesAll, DotAfter, DigitsIn, Scanned, Significant;
    ScannedInside(o, from, p0, pos0, dotPos0);
    SignificantStart(o, from, p0);
    p, pos, dotPos, digits := p0, pos0, dotPos0, [];
    while true
      invariant from <= p && Scanned(o, from, p, pos, dotPos) && Significant(o, from, p, pos0, digits)
      invariant pos == pos0 + |digits| && (digits == [] ==> p == p0 && dotPos == dotPos0)
      decreases |o.s| - p
    {
      var second;
      ghost var q := p;
      second, p, dotPos := PassDot(o, p, from, pos, dotPos);
      if second {
        break;
      }
      ScannedInside(o, from, p, pos, dotPos);
      SignificantSame(o, from, q, p, pos0, digits);
      assert digits == [] ==> p == p0;
      q := p;
      p := PassSeparator(o, p, from, pos, dotPos);
      SignificantSame(o, from, q, p, pos0, digits);
      var c := ToDigit(At(o.s, p));
      if c >= o.b {
        break;
      }
      DigitInside(o.s, p, o.b);
      ScanDigit(o, from, p, pos, dotPos);
      SignificantDigit(o, from, p, pos0, digits, c);
      p := p + 1;
      pos := pos + 1;
      digits := digits + [c];
    }
  }

  // ----- the exponent -----

  /** radix_bits in js_atod */
  function RadixBits(b: Radix): nat {
    if OddPart(b) == 1 then Ctz32(b) else 0
  }

  predicate IsExponentMark(c: char, b: Radix) {
    if b == 10 then c == 'e' || c == 'E'
    else c == '@' || (1 <= RadixBits(b) <= 4 && (c == 'p' || c == 'P'))
  }

  predicate HasExponent(o: Source, p: nat) {
    !o.intOnly && IsExponentMark(At(o.s, p), o.b) && p > o.start
  }

  /** The largest exponent that takes another digit. */
  const EXPONENT_LIMIT: nat := 214748363

  /** The exponent goes on at i: with a digit, or a separator before a digit. */
  predicate ExponentPasses(o: Source, i: nat) {
    IsDigitAt(o.s, i, 10) || (o.sep && At(o.s, i) == '_' && IsDigitAt(o.s, i + 1, 10))
  }

  predicate ExponentPassesAll(o: Source, q: nat, p: nat) {
    q <= p <= |o.s| && forall i :: q <= i < p ==> ExponentPasses(o, i)
  }

  /** The position after an exponent mark at p and its optional sign. */
  function AfterMark(o: Source, p: nat): nat {
    p + if At(o.s, p + 1) == '+' || At(o.s, p + 1) == '-' then 2 else 1
  }

  /** The exponent after the mark at p: an optional sign, and the digits of
      s[q..next], up to where it cannot go on. */
  ghost predicate ExponentAt(o: Source, p: nat, q: nat, next: nat, negative: bool) {
    && q == AfterMark(o, p) && (negative <==> At(o.s, p + 1) == '-')
    && IsDigitAt(o.s, q, 10) && q < next && ExponentPassesAll(o, q, next) && !ExponentPasses(o, next)
  }

  lemma ExponentUnique(o: Source, p: nat, q1: nat, next1: nat, negative1: bool, q2: nat, next2: nat, negative2: bool)
    requires ExponentAt(o, p, q1, next1, negative1) && ExponentAt(o, p, q2, next2, negative2)
    ensures q1 == q2 && next1 == next2 && negative1 == negative2
  {
    assert !(next1 < next2) && !(next2 < next1);
  }

  function ExponentDigits(o: Source, q: nat, next: nat): seq<nat>
    requires q <= next <= |o.s|
  {
    DigitsIn(o.s[q..next], 10)
  }

  /** The number that the exponent's digits stand for. */
  function ExponentValue(o: Source, q: nat, next: nat): nat
    requires q <= next <= |o.s|
  {
    DigitsValue(ExponentDigits(o, q, next), 10)
  }

  lemma ExponentStep(o: Source, q: nat, p: nat, c: nat)
    requires ExponentPassesAll(o, q, p) && p < |o.s| && ToDigit(o.s[p]) == c < 10
    ensures ExponentPassesAll(o, q, p + 1)
    ensures ExponentValue(o, q, p + 1) == ExponentValue(o, q, p) * 10 + c
  {
    assert o.s[q..p + 1] == o.s[q..p] + [o.s[p]];
    DigitsInSnoc(o.s[q..p], o.s[p], 10);
    var d := ExponentDigits(o, q, p);
    assert (d + [c])[..|d|] == d;
  }

  lemma ExponentSkip(o: Source, q: nat, p: nat)
    requires ExponentPassesAll(o, q, p) && o.sep && At(o.s, p) == '_' && IsDigitAt(o.s, p + 1, 10)
    ensures ExponentPassesAll(o, q, p + 1) && ExponentValue(o, q, p + 1) == ExponentValue(o, q, p)
  {
    assert o.s[q..p + 1] == o.s[q..p] + ['_'];
    DigitsInSnoc(o.s[q..p], '_', 10);
  }

  lemma ExponentStart(o: Source, q: nat)
    requires q <= |o.s|
    ensures ExponentPassesAll(o, q, q) && ExponentValue(o, q, q) == 0
  {
  }

  /** The digits of the exponent; beyond the limit only the fact is kept. */
  method ScanExponentDigits(o: Source, q: nat) returns (p: nat, expn: nat, overflow: bool)
    requires IsDigitAt(o.s, q, 10)
    ensures q < p && ExponentPassesAll(o, q, p) && !ExponentPasses(o, p)
    ensures if overflow then ExponentValue(o, q, p) >= 10 * EXPONENT_LIMIT + 10 else expn == ExponentValue(o, q, p)
  {
    hide ExponentPassesAll, ExponentValue;
    DigitInside(o.s, q, 10);
    ExponentStart(o, q);
    ExponentStep(o, q, q, ToDigit(o.s[q]));
    expn, overflow := ToDigit(At(o.s, q)), false;
    p := q + 1;
    while true
      invariant q < p <= |o.s| && ExponentPassesAll(o, q, p)
      invariant if overflow then ExponentValue(o, q, p) >= 10 * EXPONENT_LIMIT + 10 else expn == ExponentValue(o, q, p)
      decreases |o.s| - p
    {
      if o.sep && At(o.s, p) == '_' && ToDigit(At(o.s, p + 1)) < 10 {
        DigitInside(o.s, p + 1, 10);
        ExponentSkip(o, q, p);
        p := p + 1;
      }
      var c := ToDigit(At(o.s, p));
      if c >= 10 {
        break;
      }
      DigitInside(o.s, p, 10);
      ExponentStep(o, q, p, c);
      if !overflow {
        if expn > EXPONENT_LIMIT {
          overflow := true;
        } else {
          expn := expn * 10 + c;
        }
      }
      p := p + 1;
    }
  }

  /** The exponent, if any; not ok when a mark is not followed by digits. */
  method ScanExponent(o: Source, p0: nat)
    returns (ok: bool, p: nat, expn: int, negative: bool, overflow: bool, binExp: bool, ghost q: nat)
    requires p0 <= |o.s|
    ensures HasExponent(o, p0) && ok ==> ExponentAt(o, p0, q, p, negative)
    ensures HasExponent(o, p0) && ok && !overflow ==>
              expn == if negative then 0 - ExponentValue(o, q, p) else ExponentValue(o, q, p)
    ensures HasExponent(o, p0) && ok && overflow ==> ExponentValue(o, q, p) >= 10 * EXPONENT_LIMIT + 10
    ensures HasExponent(o, p0) ==> (binExp <==> At(o.s, p0) == 'p' || At(o.s, p0) == 'P')
    ensures ok <==> !HasExponent(o, p0) || IsDigitAt(o.s, AfterMark(o, p0), 10)
    ensures !ok ==> p == AfterMark(o, p0)
    ensures !HasExponent(o, p0) ==> p == p0 && expn == 0 && !overflow && !binExp
  {
    hide ExponentValue, ExponentPassesAll;
    ok, p, expn, negative, overflow, binExp, q := true, p0, 0, false, false, false, p0;
    if HasExponent(o, p0) {
      binExp := At(o.s, p) == 'p' || At(o.s, p) == 'P';
      p := p + 1;
      if At(o.s, p) == '+' {
        p := p + 1;
      } else if At(o.s, p) == '-' {
        negative := true;
        p := p + 1;
      }
      if ToDigit(At(o.s, p)) >= 10 {
        ok := false;
        return;
      }
      q := p;
      p, expn, overflow := ScanExponentDigits(o, p);
      if negative {
        expn := 0 - expn;
      }
    }
  }
}
