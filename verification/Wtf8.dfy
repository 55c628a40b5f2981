/** Wtf8.kt: strings of UTF-16 code units, unpaired surrogates included, as
    generalised UTF-8 and back. */
module Wtf8 {

  type Unit = x: int | 0 <= x < 0x1_0000
  type Byte = x: int | 0 <= x < 0x100
  type CodePoint = x: int | 0 <= x < 0x11_0000

  predicate IsHigh(c: int) { 0xD800 <= c < 0xDC00 }
  predicate IsLow(c: int) { 0xDC00 <= c < 0xE000 }
  predicate IsSurrogate(c: int) { 0xD800 <= c < 0xE000 }

  // ----- code points and their two encodings -----

  /** The code point of a surrogate pair. */
  function Pair(high: int, low: int): (cp: CodePoint)
    requires IsHigh(high) && IsLow(low)
    ensures cp >= 0x1_0000
  {
    0x1_0000 + (high - 0xD800) * 0x400 + (low - 0xDC00)
  }

  /** The code points of a string: a high and a low surrogate in sequence are
      one code point, any other surrogate stands for itself. */
  function CodePoints(text: seq<Unit>): seq<CodePoint> {
    if |text| == 0 then []
    else if IsHigh(text[0]) && |text| > 1 && IsLow(text[1]) then
      [Pair(text[0], text[1])] + CodePoints(text[2..])
    else [text[0]] + CodePoints(text[1..])
  }

  /** The code units of one code point. */
  function Utf16(cp: CodePoint): seq<Unit> {
    if cp < 0x1_0000 then [cp]
    else [0xD800 + (cp - 0x1_0000) / 0x400, 0xDC00 + (cp - 0x1_0000) % 0x400]
  }

  function Utf16All(cps: seq<CodePoint>): seq<Unit> {
    if |cps| == 0 then [] else Utf16(cps[0]) + Utf16All(cps[1..])
  }

  /** The bytes of one code point: section 3 of RFC 3629, surrogates included. */
  function Utf8(cp: CodePoint): (s: seq<Byte>)
    ensures 1 <= |s| <= 4
  {
    if cp < 0x80 then [cp]
    else if cp < 0x800 then [0xC0 + cp / 0x40, 0x80 + cp % 0x40]
    else if cp < 0x1_0000 then [0xE0 + cp / 0x1000, 0x80 + cp / 0x40 % 0x40, 0x80 + cp % 0x40]
    else [0xF0 + cp / 0x4_0000, 0x80 + cp / 0x1000 % 0x40, 0x80 + cp / 0x40 % 0x40, 0x80 + cp % 0x40]
  }

  function Utf8All(cps: seq<CodePoint>): seq<Byte> {
    if |cps| == 0 then [] else Utf8(cps[0]) + Utf8All(cps[1..])
  }

  lemma {:induction false} Utf8Snoc(cps: seq<CodePoint>, cp: CodePoint)
    ensures Utf8All(cps + [cp]) == Utf8All(cps) + Utf8(cp)
  {
    if |cps| == 0 {
      assert cps + [cp] == [cp] && [cp][1..] == [];
    } else {
      assert (cps + [cp])[1..] == cps[1..] + [cp];
      Utf8Snoc(cps[1..], cp);
    }
  }

  // ----- encode -----

  /** The next code point of the text, as the loop reads it. */
  function NextCodePoint(text: seq<Unit>, i: nat): (r: (CodePoint, nat))
    requires i < |text|
    ensures i < r.1 <= |text| && (r.0 >= 0x1_0000 ==> r.1 == i + 2)
  {
    if IsHigh(text[i]) && i + 1 < |text| && IsLow(text[i + 1]) then
      (Pair(text[i], text[i + 1]), i + 2)
    else (text[i], i + 1)
  }

  lemma CodePointsStep(text: seq<Unit>, i: nat)
    requires i < |text|
    ensures var (cp, j) := NextCodePoint(text, i); CodePoints(text[i..]) == [cp] + CodePoints(text[j..])
  {
    var s := text[i..];
    assert s[1..] == text[i + 1..];
    if |s| > 1 {
      assert s[2..] == text[i + 2..];
    }
  }

  /** The slow path of encode; the buffer of three bytes a unit never overflows. */
  method EncodeLoop(text: seq<Unit>) returns (bytes: seq<Byte>)
    ensures bytes == Utf8All(CodePoints(text))
  {
    hide Utf8, Utf8All, CodePoints, NextCodePoint;
    var out := new Byte[|text| * 3](_ => 0);
    var n, i := 0, 0;
    ghost var done: seq<CodePoint> := [];
    EmptyText();
    assert text[0..] == text;
    while i < |text|
      invariant 0 <= i <= |text| && 0 <= n <= 3 * i
      invariant done + CodePoints(text[i..]) == CodePoints(text)
      invariant out[..n] == Utf8All(done)
    {
      var (cp, j) := NextCodePoint(text, i);
      CodePointsStep(text, i);
      UnitsOfCodePoint(text, i);
      Utf8Snoc(done, cp);
      ghost var before := out[..n];
      var m := WriteCodePoint(out, n, cp);
      assert out[..m] == before + Utf8(cp);
      n, i := m, j;
      done := done + [cp];
    }
    assert text[i..] == [] && done + [] == done;
    bytes := out[..n];
  }

  lemma EmptyText()
    ensures CodePoints([]) == [] && Utf8All([]) == []
  {
  }

  /** A code point takes at most three bytes for each of its units. */
  lemma UnitsOfCodePoint(text: seq<Unit>, i: nat)
    requires i < |text|
    ensures var (cp, j) := NextCodePoint(text, i); |Utf8(cp)| <= 3 * (j - i)
  {
  }

  /** The bytes of one code point, by shifts and masks. */
  method WriteCodePoint(out: array<Byte>, n: nat, cp: CodePoint) returns (m: nat)
    requires n + |Utf8(cp)| <= out.Length
    modifies out
    ensures m == n + |Utf8(cp)| && out[..m] == old(out[..n]) + Utf8(cp)
  {
    m := n;
    if cp < 0x80 {
      out[m] := cp;
      m := m + 1;
    } else if cp < 0x800 {
      out[m], out[m + 1] := 0xC0 + cp / 0x40, 0x80 + cp % 0x40;
      m := m + 2;
    } else if cp < 0x1_0000 {
      out[m], out[m + 1], out[m + 2] := 0xE0 + cp / 0x1000, 0x80 + cp / 0x40 % 0x40, 0x80 + cp % 0x40;
      m := m + 3;
    } else {
      out[m], out[m + 1] := 0xF0 + cp / 0x4_0000, 0x80 + cp / 0x1000 % 0x40;
      out[m + 2], out[m + 3] := 0x80 + cp / 0x40 % 0x40, 0x80 + cp % 0x40;
      m := m + 4;
    }
  }

  // ----- decode -----

  function Cont(b: Byte): nat { b % 0x40 }

  function ToChar(x: int): Unit { x % 0x1_0000 }

  /** What the loop of decode appends for the bytes at the front, and how many
      bytes it takes. */
  function DecodeStep(s: seq<Byte>): (r: (seq<Unit>, nat))
    requires |s| > 0
    ensures 1 <= r.1 <= |s| && 1 <= |r.0| <= r.1
  {
    var b0 := s[0];
    if b0 < 0x80 then ([b0], 1)
    else if b0 / 0x20 == 6 && |s| > 1 then ([ToChar(b0 % 0x20 * 0x40 + Cont(s[1]))], 2)
    else if b0 / 0x10 == 14 && |s| > 2 then ([ToChar(b0 % 0x10 * 0x1000 + Cont(s[1]) * 0x40 + Cont(s[2]))], 3)
    else if b0 / 8 == 30 && |s| > 3 then
      var v: int := b0 % 8 * 0x4_0000 + Cont(s[1]) * 0x1000 + Cont(s[2]) * 0x40 + Cont(s[3]) - 0x1_0000;
      ([ToChar(0xD800 + v / 0x400), ToChar(0xDC00 + v % 0x400)], 4)
    else ([0xFFFD], 1)
  }

  function DecodeAll(s: seq<Byte>): seq<Unit>
    decreases |s|
  {
    if |s| == 0 then [] else DecodeStep(s).0 + DecodeAll(s[DecodeStep(s).1..])
  }

  /** The slow path of decode. */
  method DecodeLoop(bytes: seq<Byte>) returns (text: seq<Unit>)
    ensures text == DecodeAll(bytes)
  {
    hide DecodeStep;
    text := [];
    var i := 0;
    assert bytes[0..] == bytes;
    while i < |bytes|
      invariant 0 <= i <= |bytes|
      invariant text + DecodeAll(bytes[i..]) == DecodeAll(bytes)
    {
      var (units, k) := DecodeStep(bytes[i..]);
      assert bytes[i..][k..] == bytes[i + k..];
      text := text + units;
      i := i + k;
    }
    assert bytes[i..] == [];
  }

  // ----- decode after encode -----

  /** The bytes of a code point decode to its units, whatever follows. */
  lemma DecodeOne(cp: CodePoint, rest: seq<Byte>)
    ensures DecodeStep(Utf8(cp) + rest) == (Utf16(cp), |Utf8(cp)|)
  {
    if 0x1_0000 <= cp {
      DecodeFour(cp, rest, cp / 0x4_0000, cp / 0x1000 % 0x40, cp / 0x40 % 0x40, cp % 0x40);
    } else if 0x800 <= cp {
      DecodeThree(cp, rest, cp / 0x1000, cp / 0x40 % 0x40, cp % 0x40);
    } else if 0x80 <= cp {
      DecodeTwo(cp, rest, cp / 0x40, cp % 0x40);
    }
  }

  lemma DecodeTwo(cp: CodePoint, rest: seq<Byte>, a: nat, d: nat)
    requires 0x80 <= cp < 0x800 && a == cp / 0x40 && d == cp % 0x40
    ensures DecodeStep([0xC0 + a, 0x80 + d] + rest) == ([cp], 2)
  {
    var s := [0xC0 + a, 0x80 + d] + rest;
    assert s[0] == 0xC0 + a && s[1] == 0x80 + d;
    assert s[0] / 0x20 == 6 && s[0] % 0x20 == a && Cont(s[1]) == d;
  }

  lemma DecodeThree(cp: CodePoint, rest: seq<Byte>, a: nat, c: nat, d: nat)
    requires 0x800 <= cp < 0x1_0000 && a == cp / 0x1000 && c == cp / 0x40 % 0x40 && d == cp % 0x40
    ensures DecodeStep([0xE0 + a, 0x80 + c, 0x80 + d] + rest) == ([cp], 3)
  {
    var s := [0xE0 + a, 0x80 + c, 0x80 + d] + rest;
    assert cp == a * 0x1000 + c * 0x40 + d;
    hide *;
    assert s[0] == 0xE0 + a && s[1] == 0x80 + c && s[2] == 0x80 + d && |s| >= 3;
    StepOfThree(s, a, c, d);
  }

  lemma StepOfThree(s: seq<Byte>, a: nat, c: nat, d: nat)
    requires |s| >= 3 && a < 0x10 && c < 0x40 && d < 0x40
    requires s[0] == 0xE0 + a && s[1] == 0x80 + c && s[2] == 0x80 + d
    ensures DecodeStep(s) == ([a * 0x1000 + c * 0x40 + d], 3)
  {
    assert s[0] / 0x10 == 14 && s[0] / 0x20 == 7 && s[0] % 0x10 == a;
    assert Cont(s[1]) == c && Cont(s[2]) == d;
  }

  lemma DecodeFour(cp: CodePoint, rest: seq<Byte>, a: nat, b: nat, c: nat, d: nat)
    requires 0x1_0000 <= cp && a == cp / 0x4_0000 && b == cp / 0x1000 % 0x40 && c == cp / 0x40 % 0x40 && d == cp % 0x40
    ensures DecodeStep([0xF0 + a, 0x80 + b, 0x80 + c, 0x80 + d] + rest) == (Utf16(cp), 4)
  {
    var s := [0xF0 + a, 0x80 + b, 0x80 + c, 0x80 + d] + rest;
    SixBits(cp, a, b, c, d);
    hide *;
    assert s[0] == 0xF0 + a && s[1] == 0x80 + b && s[2] == 0x80 + c && s[3] == 0x80 + d && |s| >= 4;
    StepOfFour(s, a, b, c, d, cp);
  }

  /** A number from its groups of six bits. */
  lemma SixBits(cp: CodePoint, a: nat, b: nat, c: nat, d: nat)
    requires a == cp / 0x4_0000 && b == cp / 0x1000 % 0x40 && c == cp / 0x40 % 0x40 && d == cp % 0x40
    ensures cp == a * 0x4_0000 + b * 0x1000 + c * 0x40 + d && a < 8
  {
    var x, y := cp / 0x40, cp / 0x1000;
    assert x / 0x40 == y && y / 0x40 == a;
    assert cp == x * 0x40 + d && x == y * 0x40 + c && y == a * 0x40 + b;
  }

  lemma LeadOfFour(lead: Byte, a: nat)
    requires lead == 0xF0 + a && a < 8
    ensures lead / 8 == 30 && lead / 0x10 == 15 && lead / 0x20 == 7 && lead % 8 == a && lead >= 0x80
  {
  }

  lemma PairOf(cp: CodePoint, v: int)
    requires cp >= 0x1_0000 && v == cp - 0x1_0000
    ensures Utf16(cp) == [ToChar(0xD800 + v / 0x400), ToChar(0xDC00 + v % 0x400)]
  {
  }

  lemma StepOfFour(s: seq<Byte>, a: nat, b: nat, c: nat, d: nat, cp: CodePoint)
    requires |s| >= 4 && a < 8 && b < 0x40 && c < 0x40 && d < 0x40
    requires s[0] == 0xF0 + a && s[1] == 0x80 + b && s[2] == 0x80 + c && s[3] == 0x80 + d
    requires cp == a * 0x4_0000 + b * 0x1000 + c * 0x40 + d && cp >= 0x1_0000
    ensures DecodeStep(s) == (Utf16(cp), 4)
  {
    LeadOfFour(s[0], a);
    assert Cont(s[1]) == b && Cont(s[2]) == c && Cont(s[3]) == d;
    hide Cont, ToChar, Utf16;
    PairOf(cp, cp - 0x1_0000);
    assert a * 0x4_0000 + b * 0x1000 + c * 0x40 + d - 0x1_0000 == cp - 0x1_0000;
  }

  /** What is well formed at the front decodes to its units, whatever follows. */
  lemma {:induction false} DecodeFront(cps: seq<CodePoint>, s: seq<Byte>)
    ensures DecodeAll(Utf8All(cps) + s) == Utf16All(cps) + DecodeAll(s)
  {
    EncodedParts(cps);
    hide *;
    if |cps| == 0 {
      assert [] + s == s && [] + DecodeAll(s) == DecodeAll(s);
    } else {
      var rest := Utf8All(cps[1..]) + s;
      DecodeOne(cps[0], rest);
      DecodeFront(cps[1..], s);
      DecodeAllStep(Utf8(cps[0]) + rest);
      assert Utf8All(cps) + s == Utf8(cps[0]) + rest;
      assert (Utf8(cps[0]) + rest)[|Utf8(cps[0])|..] == rest;
    }
  }

  lemma EncodedParts(cps: seq<CodePoint>)
    ensures |cps| == 0 ==> Utf8All(cps) == [] && Utf16All(cps) == []
    ensures |cps| > 0 ==> Utf8All(cps) == Utf8(cps[0]) + Utf8All(cps[1..])
    ensures |cps| > 0 ==> Utf16All(cps) == Utf16(cps[0]) + Utf16All(cps[1..])
  {
    hide Utf8, Utf16;
  }

  lemma DecodeEncoded(cps: seq<CodePoint>)
    ensures DecodeAll(Utf8All(cps)) == Utf16All(cps)
  {
    hide *;
    DecodeFront(cps, []);
    NothingDecoded();
    assert Utf8All(cps) + [] == Utf8All(cps);
  }

  lemma NothingDecoded()
    ensures DecodeAll([]) == []
  {
  }

  // ----- decoding what is malformed -----

  /** A byte that starts nothing becomes U+FFFD, and decoding goes on behind it. */
  lemma StrayByte(cps: seq<CodePoint>, b: Byte, rest: seq<Byte>)
    requires 0x80 <= b < 0xC0 || b >= 0xF8
    ensures DecodeAll(Utf8All(cps) + ([b] + rest)) == Utf16All(cps) + ([0xFFFD] + DecodeAll(rest))
  {
    DecodeFront(cps, [b] + rest);
    assert ([b] + rest)[1..] == rest;
  }

  function Replacements(n: nat): seq<Unit> {
    seq(n, _ => 0xFFFD)
  }

  /** Bytes of which each starts nothing. */
  lemma {:induction false} StrayBytes(s: seq<Byte>)
    requires forall i :: 0 <= i < |s| ==> 0x80 <= s[i] < 0xC0
    ensures DecodeAll(s) == Replacements(|s|)
  {
    if |s| > 0 {
      StrayBytes(s[1..]);
      StrayByte([], s[0], s[1..]);
      assert Utf8All([]) + ([s[0]] + s[1..]) == s && Replacements(|s|) == [0xFFFD] + Replacements(|s| - 1);
      hide DecodeAll;
    }
  }

  /** A code point that is cut short at the end becomes one U+FFFD for each of
      the bytes that are left of it. */
  lemma CutShort(cps: seq<CodePoint>, cp: CodePoint, k: nat)
    requires 0 < k < |Utf8(cp)|
    ensures DecodeAll(Utf8All(cps) + Utf8(cp)[..k]) == Utf16All(cps) + Replacements(k)
  {
    var s := Utf8(cp)[..k];
    DecodeFront(cps, s);
    CutStep(cp, k);
    StrayBytes(s[1..]);
    assert Replacements(k) == [0xFFFD] + Replacements(k - 1);
  }

  lemma CutStep(cp: CodePoint, k: nat)
    requires 0 < k < |Utf8(cp)|
    ensures DecodeStep(Utf8(cp)[..k]) == ([0xFFFD], 1)
    ensures forall i :: 1 <= i < k ==> 0x80 <= Utf8(cp)[i] < 0xC0
  {
    var lead := Utf8(cp)[0];
    if |Utf8(cp)| == 4 {
      assert lead / 8 == 30 && lead / 0x10 == 15 && lead / 0x20 == 7;
    } else if |Utf8(cp)| == 3 {
      assert lead / 0x10 == 14 && lead / 0x20 == 7 && lead / 8 != 30;
    } else {
      assert lead / 0x20 == 6 && lead / 0x10 < 14 && lead / 8 < 28;
    }
  }

  /** Of the bytes after a lead byte only the low six bits are looked at. */
  lemma ContinuationBits(s: seq<Byte>, t: seq<Byte>, n: nat)
    requires |s| == |t| >= n && n > 0 && s[0] == t[0] && s[n..] == t[n..]
    requires forall i :: 1 <= i < n ==> s[i] % 0x40 == t[i] % 0x40
    requires 0xC0 <= s[0] < 0xF8 && n == if s[0] < 0xE0 then 2 else if s[0] < 0xF0 then 3 else 4
    ensures DecodeAll(s) == DecodeAll(t)
  {
    SameStep(s, t, n);
    DecodeAllStep(s);
    DecodeAllStep(t);
    hide *;
    assert s[n..] == t[n..];
  }

  lemma SameStep(s: seq<Byte>, t: seq<Byte>, n: nat)
    requires |s| == |t| >= n && n > 0 && s[0] == t[0]
    requires forall i :: 1 <= i < n ==> s[i] % 0x40 == t[i] % 0x40
    requires 0xC0 <= s[0] < 0xF8 && n == if s[0] < 0xE0 then 2 else if s[0] < 0xF0 then 3 else 4
    ensures DecodeStep(s) == DecodeStep(t) && DecodeStep(s).1 == n
  {
    hide ToChar;
    if n == 2 {
      assert s[0] / 0x20 == 6;
    } else if n == 3 {
      assert s[0] / 0x10 == 14 && s[0] / 0x20 == 7;
    } else {
      assert s[0] / 8 == 30 && s[0] / 0x10 == 15 && s[0] / 0x20 == 7;
    }
  }

  lemma DecodeAllStep(s: seq<Byte>)
    requires |s| > 0
    ensures DecodeAll(s) == DecodeStep(s).0 + DecodeAll(s[DecodeStep(s).1..])
  {
    hide DecodeStep;
  }

  lemma UnitsOfPair(high: Unit, low: Unit)
    requires IsHigh(high) && IsLow(low)
    ensures Utf16(Pair(high, low)) == [high, low]
  {
  }

  /** The units of the code points of a string are the string. */
  lemma {:induction false} UnitsOfCodePoints(text: seq<Unit>)
    ensures Utf16All(CodePoints(text)) == text
    decreases |text|
  {
    if |text| > 0 {
      if IsHigh(text[0]) && |text| > 1 && IsLow(text[1]) {
        UnitsOfCodePoints(text[2..]);
        UnitsOfPair(text[0], text[1]);
        hide Pair, Utf16;
        assert text == [text[0], text[1]] + text[2..];
      } else {
        UnitsOfCodePoints(text[1..]);
        assert text == [text[0]] + text[1..];
      }
    }
  }

  /** decode(encode(s)) == s for every sequence of code units. */
  lemma EncodeThenDecode(text: seq<Unit>)
    ensures DecodeAll(Utf8All(CodePoints(text))) == text
  {
    DecodeEncoded(CodePoints(text));
    UnitsOfCodePoints(text);
  }

  // ----- encode after decode -----

  predicate IsCont(b: Byte) { 0x80 <= b < 0xC0 }

  /** The length of the well-formed sequence at the front, or 0: table 3-7 of
      the Unicode standard with surrogates let in, shortest forms only. */
  function FrontLength(s: seq<Byte>): (k: nat)
    requires |s| > 0
    ensures k <= |s|
  {
    var b0 := s[0];
    if b0 < 0x80 then 1
    else if 0xC2 <= b0 < 0xE0 && |s| > 1 && IsCont(s[1]) then 2
    else if 0xE0 <= b0 < 0xF0 && |s| > 2 && IsCont(s[1]) && IsCont(s[2]) && (b0 == 0xE0 ==> s[1] >= 0xA0) then 3
    else if 0xF0 <= b0 < 0xF5 && |s| > 3 && IsCont(s[1]) && IsCont(s[2]) && IsCont(s[3])
            && (b0 == 0xF0 ==> s[1] >= 0x90) && (b0 == 0xF4 ==> s[1] < 0x90) then 4
    else 0
  }

  /** The code point of the well-formed sequence at the front. */
  function FrontCodePoint(s: seq<Byte>): (cp: CodePoint)
    requires |s| > 0 && FrontLength(s) > 0
  {
    var b0: int := s[0];
    match FrontLength(s)
    case 1 => b0
    case 2 => (b0 - 0xC0) * 0x40 + Cont(s[1])
    case 3 => (b0 - 0xE0) * 0x1000 + Cont(s[1]) * 0x40 + Cont(s[2])
    case _ => (b0 - 0xF0) * 0x4_0000 + Cont(s[1]) * 0x1000 + Cont(s[2]) * 0x40 + Cont(s[3])
  }

  /** A sequence of well-formed pieces. */
  predicate Generalised(s: seq<Byte>)
    decreases |s|
  {
    |s| == 0 || (FrontLength(s) > 0 && Generalised(s[FrontLength(s)..]))
  }

  function Parsed(s: seq<Byte>): seq<CodePoint>
    requires Generalised(s)
    decreases |s|
  {
    if |s| == 0 then [] else [FrontCodePoint(s)] + Parsed(s[FrontLength(s)..])
  }

  /** No surrogate pair is written as two separate pieces. */
  predicate NoSplitPair(cps: seq<CodePoint>) {
    forall i :: 0 <= i < |cps| - 1 ==> !(IsHigh(cps[i]) && IsLow(cps[i + 1]))
  }

  /** Groups of six bits, taken apart again. */
  lemma Groups(a: nat, b: nat, c: nat, d: nat, n: nat)
    requires b < 0x40 && c < 0x40 && d < 0x40 && n == a * 0x4_0000 + b * 0x1000 + c * 0x40 + d
    ensures n % 0x40 == d && n / 0x40 % 0x40 == c && n / 0x1000 % 0x40 == b && n / 0x4_0000 == a
    ensures n / 0x1000 == a * 0x40 + b && n / 0x40 == a * 0x1000 + b * 0x40 + c
  {
    var x, y := n / 0x40, n / 0x1000;
    assert x == a * 0x1000 + b * 0x40 + c;
    assert y == x / 0x40 == a * 0x40 + b;
    assert n / 0x4_0000 == y / 0x40;
  }

  lemma FrontEncodes(s: seq<Byte>)
    requires |s| > 0 && FrontLength(s) > 0
    ensures Utf8(FrontCodePoint(s)) == s[..FrontLength(s)]
  {
    match FrontLength(s) {
      case 1 =>
      case 2 => FrontTwo(s);
      case 3 => FrontThree(s);
      case _ => FrontFour(s);
    }
  }

  lemma FrontTwo(s: seq<Byte>)
    requires |s| > 0 && FrontLength(s) == 2
    ensures Utf8(FrontCodePoint(s)) == s[..2]
  {
    var a: nat := s[0] - 0xC0;
    Groups(0, 0, a, Cont(s[1]), FrontCodePoint(s));
  }

  lemma FrontThree(s: seq<Byte>)
    requires |s| > 0 && FrontLength(s) == 3
    ensures Utf8(FrontCodePoint(s)) == s[..3]
  {
    var a: nat := s[0] - 0xE0;
    var cp := FrontCodePoint(s);
    Groups(0, a, Cont(s[1]), Cont(s[2]), cp);
    assert 0x800 <= cp < 0x1_0000;
    assert 0x80 + Cont(s[1]) == s[1] && 0x80 + Cont(s[2]) == s[2];
    hide FrontCodePoint, FrontLength, Cont;
    assert Utf8(cp) == [s[0], s[1], s[2]];
  }

  lemma FrontFour(s: seq<Byte>)
    requires |s| > 0 && FrontLength(s) == 4
    ensures Utf8(FrontCodePoint(s)) == s[..4]
  {
    var a: nat := s[0] - 0xF0;
    var cp := FrontCodePoint(s);
    Groups(a, Cont(s[1]), Cont(s[2]), Cont(s[3]), cp);
    assert 0x1_0000 <= cp;
    assert 0x80 + Cont(s[1]) == s[1] && 0x80 + Cont(s[2]) == s[2] && 0x80 + Cont(s[3]) == s[3];
    hide FrontCodePoint, FrontLength, Cont;
    assert Utf8(cp) == [s[0], s[1], s[2], s[3]];
  }

  lemma {:induction false} ParsedEncodes(s: seq<Byte>)
    requires Generalised(s)
    ensures Utf8All(Parsed(s)) == s
    decreases |s|
  {
    if |s| > 0 {
      FrontEncodes(s);
      ParsedEncodes(s[FrontLength(s)..]);
      hide Utf8, FrontCodePoint, FrontLength;
      assert s == s[..FrontLength(s)] + s[FrontLength(s)..];
    }
  }

  /** The bytes of a code point are one well-formed piece. */
  lemma EncodedFront(cp: CodePoint, rest: seq<Byte>)
    ensures FrontLength(Utf8(cp) + rest) == |Utf8(cp)| && FrontCodePoint(Utf8(cp) + rest) == cp
  {
    var s := Utf8(cp) + rest;
    if 0x1_0000 <= cp {
      SixBits(cp, cp / 0x4_0000, cp / 0x1000 % 0x40, cp / 0x40 % 0x40, cp % 0x40);
      EncodedFour(cp, s, cp / 0x4_0000, cp / 0x1000 % 0x40, cp / 0x40 % 0x40, cp % 0x40);
    } else if 0x800 <= cp {
      EncodedThree(cp, s, cp / 0x1000, cp / 0x40 % 0x40, cp % 0x40);
    } else if 0x80 <= cp {
      EncodedTwo(cp, s, cp / 0x40, cp % 0x40);
    }
  }

  lemma EncodedTwo(cp: CodePoint, s: seq<Byte>, a: nat, d: nat)
    requires 0x80 <= cp < 0x800 && cp == a * 0x40 + d && d < 0x40 && |s| >= 2 && s[0] == 0xC0 + a && s[1] == 0x80 + d
    ensures FrontLength(s) == 2 && FrontCodePoint(s) == cp
  {
    assert Cont(s[1]) == d;
  }

  lemma EncodedThree(cp: CodePoint, s: seq<Byte>, a: nat, c: nat, d: nat)
    requires 0x800 <= cp < 0x1_0000 && cp == a * 0x1000 + c * 0x40 + d && c < 0x40 && d < 0x40
    requires |s| >= 3 && s[0] == 0xE0 + a && s[1] == 0x80 + c && s[2] == 0x80 + d
    ensures FrontLength(s) == 3 && FrontCodePoint(s) == cp
  {
    assert Cont(s[1]) == c && Cont(s[2]) == d;
  }

  lemma EncodedFour(cp: CodePoint, s: seq<Byte>, a: nat, b: nat, c: nat, d: nat)
    requires 0x1_0000 <= cp && cp == a * 0x4_0000 + b * 0x1000 + c * 0x40 + d && b < 0x40 && c < 0x40 && d < 0x40
    requires |s| >= 4 && s[0] == 0xF0 + a && s[1] == 0x80 + b && s[2] == 0x80 + c && s[3] == 0x80 + d
    ensures FrontLength(s) == 4 && FrontCodePoint(s) == cp
  {
    assert Cont(s[1]) == b && Cont(s[2]) == c && Cont(s[3]) == d;
  }

  lemma {:induction false} EncodedIsGeneralised(cps: seq<CodePoint>)
    ensures Generalised(Utf8All(cps)) && Parsed(Utf8All(cps)) == cps
  {
    if |cps| > 0 {
      var rest := Utf8All(cps[1..]);
      EncodedFront(cps[0], rest);
      EncodedIsGeneralised(cps[1..]);
      hide Utf8, FrontCodePoint, FrontLength;
      assert (Utf8(cps[0]) + rest)[|Utf8(cps[0])|..] == rest;
      assert cps == [cps[0]] + cps[1..];
    }
  }

  /** Reading a string never leaves a pair split. */
  lemma {:induction false} CodePointsJoinPairs(text: seq<Unit>)
    ensures NoSplitPair(CodePoints(text))
    ensures |text| > 0 ==> |CodePoints(text)| > 0 && (IsLow(CodePoints(text)[0]) ==> IsLow(text[0]))
    decreases |text|
  {
    if |text| > 0 {
      if IsHigh(text[0]) && |text| > 1 && IsLow(text[1]) {
        CodePointsJoinPairs(text[2..]);
      } else {
        CodePointsJoinPairs(text[1..]);
      }
    }
  }

  /** Without split pairs the code points can be read back from the units. */
  lemma {:induction false} CodePointsOfUnits(cps: seq<CodePoint>)
    requires NoSplitPair(cps)
    ensures CodePoints(Utf16All(cps)) == cps
  {
    if |cps| > 0 {
      var rest := Utf16All(cps[1..]);
      CodePointsOfUnits(cps[1..]);
      FirstUnit(cps[1..]);
      var text := Utf16(cps[0]) + rest;
      if cps[0] < 0x1_0000 {
        assert text[1..] == rest;
        assert |cps| > 1 ==> cps[1..][0] == cps[1];
      } else {
        assert text[2..] == rest;
      }
      assert cps == [cps[0]] + cps[1..];
    }
  }

  lemma FirstUnit(cps: seq<CodePoint>)
    ensures |cps| > 0 <==> |Utf16All(cps)| > 0
    ensures |cps| > 0 && IsLow(Utf16All(cps)[0]) ==> IsLow(cps[0])
  {
  }

  /** encode(decode(b)) == b exactly for the well-formed sequences in which no
      surrogate pair is encoded separately. */
  lemma DecodeThenEncode(s: seq<Byte>)
    ensures Utf8All(CodePoints(DecodeAll(s))) == s <==> Generalised(s) && NoSplitPair(Parsed(s))
  {
    if Generalised(s) && NoSplitPair(Parsed(s)) {
      ParsedEncodes(s);
      DecodeEncoded(Parsed(s));
      CodePointsOfUnits(Parsed(s));
    }
    var cps := CodePoints(DecodeAll(s));
    EncodedIsGeneralised(cps);
    CodePointsJoinPairs(DecodeAll(s));
  }

  // ----- the fast paths -----

  lemma {:induction false} PlainText(text: seq<Unit>)
    requires forall c :: c in text ==> !IsSurrogate(c)
    ensures CodePoints(text) == text
    decreases |text|
  {
    if |text| > 0 {
      assert text[0] in text;
      PlainText(text[1..]);
      assert text == [text[0]] + text[1..];
    }
  }

  /** encode: without surrogates the platform's UTF-8 encoder does the same. */
  method Encode(text: seq<Unit>) returns (bytes: seq<Byte>)
    ensures bytes == Utf8All(CodePoints(text))
  {
    if forall c :: c in text ==> !IsSurrogate(c) {
      PlainText(text);
      bytes := Utf8All(text);
    } else {
      bytes := EncodeLoop(text);
    }
  }

  /** Without the byte 0xED there is no encoded surrogate, so what is well formed
      here is well-formed UTF-8. */
  lemma {:induction false} NoSurrogateBytes(s: seq<Byte>)
    requires Generalised(s) && 0xED !in s
    ensures forall cp :: cp in Parsed(s) ==> !IsSurrogate(cp)
    decreases |s|
  {
    if |s| > 0 {
      assert s[0] in s;
      assert forall b :: b in s[FrontLength(s)..] ==> b in s;
      NoSurrogateBytes(s[FrontLength(s)..]);
      assert !IsSurrogate(FrontCodePoint(s));
    }
  }

  /** decode: without 0xED the platform's decoder is used.  It turns well-formed
      UTF-8 into its code units; what it makes of other input (`malformed`) is
      its own affair. */
  method Decode(bytes: seq<Byte>, malformed: seq<Unit>) returns (text: seq<Unit>)
    ensures Generalised(bytes) || 0xED in bytes ==> text == DecodeAll(bytes)
    ensures Generalised(bytes) ==> text == Utf16All(Parsed(bytes))
  {
    if Generalised(bytes) {
      ParsedEncodes(bytes);
      DecodeEncoded(Parsed(bytes));
    }
    if 0xED !in bytes {
      text := if Generalised(bytes) then Utf16All(Parsed(bytes)) else malformed;
    } else {
      text := DecodeLoop(bytes);
    }
  }
}
