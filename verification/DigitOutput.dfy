/** output_digits and the fraction format of js_dtoa: the digits of a bignum
    written into a character buffer by repeated division. */
module DigitOutput {
  import opened PowersOfTwo
  import opened Rounding
  import opened StickyBits
  import opened Limbs
  import opened RadixPowers
  import opened RadixTables
  import opened Bignum
  import opened RadixScaling
  import opened RadixLogarithm
  import opened Digits

  // ----- digit characters -----

  function DigitChar(d: nat): char
    requires d < 36
  {
    if d < 10 then '0' + d as char else 'a' + (d - 10) as char
  }

  /** to_digit: 36 for a character that is no digit. */
  function ToDigit(c: char): nat {
    if '0' <= c <= '9' then (c - '0') as nat
    else if 'A' <= c <= 'Z' then (c - 'A') as nat + 10
    else if 'a' <= c <= 'z' then (c - 'a') as nat + 10
    else 36
  }

  lemma ToDigitOfChar(d: nat)
    requires d < 36
    ensures ToDigit(DigitChar(d)) == d && (DigitChar(d) == '0' <==> d == 0) && DigitChar(d) != '.'
  {
  }

  /** The digits that a string of digit characters spells. */
  function Decoded(s: string): seq<nat> {
    seq(|s|, i requires 0 <= i < |s| => ToDigit(s[i]))
  }

  /** The n lowest base-b digits of v, as characters. */
  function DigitString(v: nat, b: Radix, n: nat): (s: string)
    ensures |s| == n
  {
    if n == 0 then [] else DigitString(Div(v, b), b, n - 1) + [DigitChar(Mod(v, b))]
  }

  /** They spell v modulo b^n. */
  lemma {:induction false} DigitStringValue(v: nat, b: Radix, n: nat)
    ensures Pow(b, n) > 0
    ensures AreDigits(Decoded(DigitString(v, b, n)), b)
    ensures DigitsValue(Decoded(DigitString(v, b, n)), b) == Mod(v, Pow(b, n))
  {
    if n == 0 {
      PowZero(b);
    } else {
      hide *;
      var q, p := Div(v, b), Pow(b, n - 1);
      DigitStringValue(q, b, n - 1);
      DigitStringStep(v, b, n - 1);
      AppendDigit(DigitString(q, b, n - 1), Mod(v, b), b);
      PowPositive(b, n);
      PowSucc(b, n - 1);
      LowDigitMod(v, b, p, Pow(b, n));
    }
  }

  lemma LowDigitMod(v: nat, b: nat, p: nat, bp: nat)
    requires b > 0 && p > 0 && bp > 0 && bp == b * p
    ensures Mod(Div(v, b), p) * b + Mod(v, b) == Mod(v, bp)
  {
    HornerMod(v, b, p);
  }

  lemma AppendDigit(s: string, d: nat, b: Radix)
    requires d < b
    ensures DigitsValue(Decoded(s + [DigitChar(d)]), b) == DigitsValue(Decoded(s), b) * b + d
    ensures AreDigits(Decoded(s), b) ==> AreDigits(Decoded(s + [DigitChar(d)]), b)
  {
    ToDigitOfChar(d);
    assert Decoded(s + [DigitChar(d)]) == Decoded(s) + [d];
    assert (Decoded(s) + [d])[..|s|] == Decoded(s);
  }

  lemma HornerMod(v: nat, b: nat, p: nat)
    requires b > 0 && p > 0
    ensures b * p > 0 && Mod(Div(v, b), p) * b + Mod(v, b) == Mod(v, b * p)
  {
    MulLower(1, b, p, 1);
    DivMod(v, b);
    var q, d := Div(v, b), Mod(v, b);
    assert q == q / p * p + q % p;
    var r := (q % p) * b + d;
    assert v == (q / p) * (b * p) + r by {
      assert (q / p * p + q % p) * b == (q / p * p) * b + (q % p) * b;
      assert (q / p * p) * b == (q / p) * (b * p) by { MulAssocInt(q / p, p, b); }
    }
    MulLower(q % p + 1, p, b, b);
    NextGridPoint(q % p, b);
    DivModUnique(v, b * p, q / p, r);
  }

  lemma DivDiv(v: nat, p: nat, c: nat)
    requires p > 0 && c > 0
    ensures p * c > 0 && Div(Div(v, p), c) == Div(v, p * c)
  {
    MulLower(1, p, c, 1);
    hide Div;
    NestedDiv(v, p, c, p * c);
  }

  /** High digits, then low digits. */
  lemma {:induction false} DigitStringSplit(v: nat, b: Radix, n: nat, w: nat)
    ensures Pow(b, w) > 0
    ensures DigitString(v, b, n + w) == DigitString(Div(v, Pow(b, w)), b, n) + DigitString(v, b, w)
    decreases w
  {
    PowPositive(b, w);
    if w == 0 {
      PowZero(b);
      assert Div(v, 1) == v;
    } else {
      PowPositive(b, w - 1);
      DigitStringSplit(Div(v, b), b, n, w - 1);
      DivDiv(v, b, Pow(b, w - 1));
      PowSucc(b, w - 1);
      hide Pow, Div, Mod;
      assert n + w - 1 == n + (w - 1);
    }
  }

  /** The low digits only depend on the low part. */
  lemma {:induction false} DigitStringMod(v: nat, b: Radix, n: nat, d: nat)
    requires n <= d
    ensures Pow(b, d) > 0 && DigitString(Mod(v, Pow(b, d)), b, n) == DigitString(v, b, n)
    decreases n
  {
    PowPositive(b, d);
    if n > 0 {
      PowPositive(b, d - 1);
      DigitStringMod(Div(v, b), b, n - 1, d - 1);
      PowSucc(b, d - 1);
      hide Pow;
      LowParts(v, b, Pow(b, d - 1));
    }
  }

  lemma LowParts(v: nat, b: Radix, p: nat)
    requires p > 0
    ensures b * p > 0 && Mod(Mod(v, b * p), b) == Mod(v, b)
    ensures Div(Mod(v, b * p), b) == Mod(Div(v, b), p)
  {
    MulLower(1, b, p, 1);
    HornerMod(v, b, p);
    hide Div;
    DivModIs(Mod(v, b * p), b, Mod(Div(v, b), p), Mod(v, b));
  }

  // ----- digits of one limb -----

  /** limb_to_a, and u64toa_bin_len, which is the same loop with a mask and a
      shift: the len lowest digits of n at position off. */
  method WriteDigits(buf: array<char>, off: nat, n0: nat, b: Radix, len: nat)
    requires off + len <= buf.Length
    modifies buf
    ensures buf[off..off + len] == DigitString(n0, b, len)
    ensures buf[..off] == old(buf[..off]) && buf[off + len..] == old(buf[off + len..])
  {
    hide Pow, Div, Mod, DigitString;
    var n := n0;
    var i: int := len;
    DigitStringStart(n0, b);
    while i > 0
      invariant 0 <= i <= len
      invariant buf[..off] == old(buf[..off]) && buf[off + len..] == old(buf[off + len..])
      invariant DigitString(n, b, i) + buf[off + i..off + len] == DigitString(n0, b, len)
    {
      i := i - 1;
      DigitStringStep(n, b, i);
      ghost var tail := buf[off + i + 1..off + len];
      buf[off + i] := DigitChar(Mod(n, b));
      assert buf[off + i..off + len] == [DigitChar(Mod(n, b))] + tail;
      n := Div(n, b);
    }
    DigitStringStart(n, b);
  }

  lemma DigitStringStart(v: nat, b: Radix)
    ensures DigitString(v, b, 0) == []
  {
  }

  lemma DigitStringStep(v: nat, b: Radix, i: nat)
    ensures DigitString(v, b, i + 1) == DigitString(Div(v, b), b, i) + [DigitChar(Mod(v, b))]
  {
  }

  // ----- output_digits -----

  /** One limb of digits is taken off the bignum: its remainder by the power of
      the radix that digits_per_limb digits need. */
  method TakeLimb(a: Mpb, b: Radix) returns (r: Limb)
    requires a.Valid() && a.Normal() && OddPart(b) != 1
    modifies a, a.tab
    ensures a.Valid() && a.Normal() && Pow(b, DigitsPerLimb(b)) > 0
    ensures a.V() == Div(old(a.V()), Pow(b, DigitsPerLimb(b))) && r == Mod(old(a.V()), Pow(b, DigitsPerLimb(b)))
  {
    LimbPowerIs(b);
    PowPositive(b, DigitsPerLimb(b));
    LimbPower(b);
    NotPowerOfTwo(b);
    hide Value, BasePow, Pow, Div, Mod, OddPart, RadixBase, DigitsPerLimb, FastPow;
    r := MpDiv1(a.tab, a.tab, a.len, RadixBase(b), 0);
    DivModIs(old(a.V()), Pow(b, DigitsPerLimb(b)), a.V(), r);
    a.Renorm();
  }

  lemma NotPowerOfTwo(b: Radix)
    requires OddPart(b) != 1
    ensures b != 2 && b != 4 && b != 16
  {
    PowersOfTwoOnly();
  }

  /** The digits written so far: the low w of the n digits of v. */
  lemma NextGroup(v: nat, b: Radix, w: nat, n: nat, q: nat, d: nat)
    requires n <= d && Pow(b, w) > 0 && q == Div(v, Pow(b, w))
    ensures Pow(b, d) > 0 && Pow(b, n) > 0 && Pow(b, w + d) > 0
    ensures DigitString(Mod(q, Pow(b, d)), b, n) + DigitString(v, b, w) == DigitString(v, b, n + w)
    ensures Div(q, Pow(b, d)) == Div(v, Pow(b, w + d))
  {
    PowPositive(b, d);
    PowPositive(b, n);
    PowPositive(b, w + d);
    PowAdd(b, w, d);
    hide Pow, Div, Mod, DigitString;
    DigitStringMod(q, b, n, d);
    DigitStringSplit(v, b, n, w);
    DivDiv(v, Pow(b, w), Pow(b, d));
  }

  /** A segment written below another one. */
  lemma Joined(t: seq<char>, t': seq<char>, off: nat, lo: nat, mid: nat, hi: nat)
    requires |t| == |t'| && off <= lo <= mid <= hi <= |t| && t'[..lo] == t[..lo] && t'[mid..] == t[mid..]
    ensures t'[lo..hi] == t'[lo..mid] + t[mid..hi]
    ensures t'[..off] == t[..off] && t'[hi..] == t[hi..]
  {
    assert t'[mid..hi] == t'[mid..][..hi - mid] == t[mid..][..hi - mid] == t[mid..hi];
    assert t'[..off] == t'[..lo][..off];
    assert t'[hi..] == t'[mid..][hi - mid..] == t[mid..][hi - mid..] == t[hi..];
  }

  /** What the buffer holds when the low w of the n1 digits of v are written. */
  ghost predicate Written(t: seq<char>, t0: seq<char>, off: nat, n1: nat, left: nat, v: nat, b: Radix) {
    && |t| == |t0| && left <= n1 && off + n1 <= |t|
    && t[off + left..off + n1] == DigitString(v, b, n1 - left)
    && t[..off] == t0[..off] && t[off + n1..] == t0[off + n1..]
  }

  lemma WriteGroup(t: seq<char>, t': seq<char>, t0: seq<char>, off: nat, n1: nat, left: nat, n: nat, v: nat, b: Radix,
                   q: nat, r: nat)
    requires Written(t, t0, off, n1, left, v, b) && n <= left && |t'| == |t|
    requires t'[off + left - n..off + left] == DigitString(r, b, n)
    requires t'[..off + left - n] == t[..off + left - n] && t'[off + left..] == t[off + left..]
    requires DigitString(r, b, n) + DigitString(v, b, n1 - left) == DigitString(v, b, n + (n1 - left))
    ensures Written(t', t0, off, n1, left - n, v, b)
  {
    hide DigitString;
    Joined(t, t', off, off + left - n, off + left, off + n1);
    assert n + (n1 - left) == n1 - (left - n);
  }

  lemma WrittenStart(t: seq<char>, off: nat, n1: nat, v: nat, b: Radix)
    requires off + n1 <= |t|
    ensures Written(t, t, off, n1, n1, v, b)
  {
  }

  lemma WrittenDone(t: seq<char>, t0: seq<char>, off: nat, n1: nat, v: nat, b: Radix)
    requires Written(t, t0, off, n1, 0, v, b)
    ensures t[off..off + n1] == DigitString(v, b, n1)
    ensures t[..off] == t0[..off] && t[off + n1..] == t0[off + n1..]
  {
  }

  /** The digit loop of output_digits when the radix has an odd factor. */
  method DigitsByDivision(buf: array<char>, off: nat, a: Mpb, b: Radix, n1: nat)
    requires a.Valid() && a.Normal() && OddPart(b) != 1 && off + n1 <= buf.Length
    modifies a, a.tab, buf
    ensures a.Valid() && Written(buf[..], old(buf[..]), off, n1, 0, old(a.V()), b)
  {
    hide *;
    TableWidths(b);
    var d := DigitsPerLimb(b);
    var left := n1;
    ghost var t0, v, w := buf[..], a.V(), 0;
    PowZero(b);
    DivByOne(v);
    WrittenStart(t0, off, n1, v, b);
    while left != 0
      invariant a.Valid() && a.Normal() && 0 <= left <= n1
      invariant left > 0 ==> w == n1 - left && Pow(b, w) > 0 && a.V() == Div(v, Pow(b, w))
      invariant Written(buf[..], t0, off, n1, left, v, b)
    {
      var n := Least(left, d);
      LeastRange(left, d);
      LeastIs(left, d);
      ghost var q, t := a.V(), buf[..];
      NextGroup(v, b, w, n, q, d);
      var r := TakeLimb(a, b);
      WriteDigits(buf, off + left - n, r, b, n);
      BufferParts(buf, off + left - n, n);
      WriteGroup(t, buf[..], t0, off, n1, left, n, v, b, q, r);
      left := left - n;
      w := w + d;
    }
  }

  lemma BufferParts(buf: array<char>, off: nat, n: nat)
    requires off + n <= buf.Length
    ensures buf[..][..off] == buf[..off] && buf[..][off + n..] == buf[off + n..] &&
            buf[..][off..off + n] == buf[off..off + n]
  {
  }

  lemma DivByOne(v: nat)
    ensures Div(v, 1) == v
  {
  }

  // ----- power-of-two radices: digits straight from the lowest limb -----

  lemma ModMod(v: nat, p: nat, c: nat)
    requires p > 0 && c > 0
    ensures p * c > 0 && Mod(Mod(v, p * c), p) == Mod(v, p)
  {
    MulLower(1, p, c, 1);
    DivMod(v, p * c);
    var q, r := Div(v, p * c), Mod(v, p * c);
    DivMod(r, p);
    var q', r' := Div(r, p), Mod(r, p);
    assert v == (q * c + q') * p + r' by {
      assert (q * c + q') * p == (q * c) * p + q' * p;
      assert (q * c) * p == q * (p * c);
    }
    hide Div, Mod;
    DivModIs(v, p, q * c + q', r');
  }

  /** The bits of a limb of digits. */
  lemma DigitBits(b: Radix, s: nat)
    requires b == Pow2(s) && 1 <= s <= 5
    ensures 1 <= DigitsPerLimb(b) * s <= 32 && Pow(b, DigitsPerLimb(b)) == Pow2(DigitsPerLimb(b) * s)
  {
    PowOfPow2(s, DigitsPerLimb(b));
    SmallPowers();
    hide Pow, Pow2;
    match s {
      case 1 => assert DigitsPerLimb(2) == 32;
      case 2 => assert DigitsPerLimb(4) == 16;
      case 3 => assert DigitsPerLimb(8) == 10;
      case 4 => assert DigitsPerLimb(16) == 8;
      case 5 => assert DigitsPerLimb(32) == 6;
    }
  }

  /** The digits of the lowest limb are digits of the number. */
  lemma LowLimbDigits(v: nat, low: Limb, b: Radix, s: nat, n: nat, d: nat)
    requires b == Pow2(s) && low == Mod(v, BASE) && n <= d && Pow(b, d) == Pow2(d * s) && d * s <= 32
    ensures Pow(b, d) > 0 && DigitString(low, b, n) == DigitString(Mod(v, Pow(b, d)), b, n)
  {
    Pow2Values();
    hide *;
    SameBaseValue();
    Pow2Add(d * s, 32 - d * s);
    ModMod(v, Pow2(d * s), Pow2(32 - d * s));
    DigitStringMod(v, b, n, d);
    DigitStringMod(low, b, n, d);
  }

  lemma SameBaseValue()
    ensures BASE == 0x1_0000_0000
  {
  }

  lemma LowLimb(s: seq<Limb>)
    requires |s| > 0
    ensures s[0] == Mod(Value(s), BASE)
  {
    hide Mod;
    DivModIs(Value(s), BASE, Value(s[1..]), s[0]);
  }

  /** mpb_shr_round(a, d * radix_bits, JS_RNDZ) */
  method DropDigits(a: Mpb, amount: nat)
    requires a.Valid() && a.Normal() && amount > 0
    modifies a, a.tab
    ensures a.Valid() && a.Normal() && a.len <= old(a.len) && a.V() == Div(old(a.V()), Pow2(amount))
  {
    hide Div, Pow2, Value;
    a.ShrRound(amount, RNDZ);
  }

  /** The digit loop of output_digits when the radix is 2^s. */
  method DigitsByShift(buf: array<char>, off: nat, a: Mpb, b: Radix, s: nat, n1: nat)
    requires a.Valid() && a.Normal() && b == Pow2(s) && 1 <= s <= 5
    requires n1 > 0 && off + n1 <= buf.Length
    modifies a, a.tab, buf
    ensures a.Valid() && Written(buf[..], old(buf[..]), off, n1, 0, old(a.V()), b)
  {
    hide *;
    TableWidths(b);
    DigitBits(b, s);
    var d := DigitsPerLimb(b);
    var left := n1;
    ghost var t0, v, w := buf[..], a.V(), 0;
    PowZero(b);
    DivByOne(v);
    WrittenStart(t0, off, n1, v, b);
    while true
      invariant a.Valid() && a.Normal() && 0 < left <= n1
      invariant w == n1 - left && Pow(b, w) > 0 && a.V() == Div(v, Pow(b, w))
      invariant Written(buf[..], t0, off, n1, left, v, b)
      decreases left
    {
      var n := Least(left, d);
      LeastRange(left, d);
      LeastIs(left, d);
      ghost var q, t := a.V(), buf[..];
      NextGroup(v, b, w, n, q, d);
      var low := LowestLimb(a);
      LowLimbDigits(q, low, b, s, n, d);
      WriteDigits(buf, off + left - n, low, b, n);
      BufferParts(buf, off + left - n, n);
      WriteGroup(t, buf[..], t0, off, n1, left, n, v, b, q, low);
      left := left - n;
      w := w + d;
      if left == 0 {
        break;
      }
      DropDigits(a, d * s);
    }
  }

  /** a->tab[0] */
  method LowestLimb(a: Mpb) returns (low: Limb)
    requires a.Valid()
    ensures low == Mod(a.V(), BASE)
  {
    LowLimb(a.tab[..a.len]);
    low := a.tab[0];
  }

  // ----- the dot -----

  function WithDot(s: string, dot: nat): string
    requires dot <= |s|
  {
    if dot == |s| then s else s[..dot] + ['.'] + s[dot..]
  }

  /** The memmove of output_digits. */
  method InsertDot(buf: array<char>, off: nat, n1: nat, dot: nat)
    requires dot < n1 && off + n1 + 1 <= buf.Length
    modifies buf
    ensures buf[off..off + n1 + 1] == WithDot(old(buf[off..off + n1]), dot)
    ensures buf[..off] == old(buf[..off])
  {
    ghost var t := buf[..];
    var i := n1;
    while i > dot
      invariant dot <= i <= n1
      invariant forall j :: 0 <= j <= off + i && j < off + n1 ==> buf[j] == t[j]
      invariant forall j :: off + i < j <= off + n1 ==> buf[j] == t[j - 1]
    {
      buf[off + i] := buf[off + i - 1];
      i := i - 1;
    }
    buf[off + dot] := '.';
    MovedTail(t, buf[..], off, n1, dot);
  }

  lemma MovedTail(t: seq<char>, u: seq<char>, off: nat, n1: nat, dot: nat)
    requires |t| == |u| && dot < n1 && off + n1 + 1 <= |t| && u[off + dot] == '.'
    requires forall j :: 0 <= j < off + dot ==> u[j] == t[j]
    requires forall j :: off + dot < j <= off + n1 ==> u[j] == t[j - 1]
    ensures u[off..off + n1 + 1] == WithDot(t[off..off + n1], dot) && u[..off] == t[..off]
  {
    var s := t[off..off + n1];
    assert u[off..off + n1 + 1] == s[..dot] + ['.'] + s[dot..];
  }

  /** output_digits: the n1 lowest digits of a, with a dot after the first `dot`
      of them unless that is the end. */
  method OutputDigits(buf: array<char>, off: nat, a: Mpb, b: Radix, n1: nat, dot: nat) returns (len: nat)
    requires a.Valid() && a.Normal() && n1 > 0 && dot <= n1
    requires off + n1 + 1 <= buf.Length
    modifies a, a.tab, buf
    ensures len == n1 + (if dot == n1 then 0 else 1)
    ensures buf[off..off + len] == WithDot(DigitString(old(a.V()), b, n1), dot)
    ensures buf[..off] == old(buf[..off])
  {
    hide *;
    ghost var t0, v := buf[..], a.V();
    if OddPart(b) == 1 {
      PowerRadix(b);
      DigitsByShift(buf, off, a, b, Ctz32(b), n1);
    } else {
      DigitsByDivision(buf, off, a, b, n1);
    }
    WrittenDone(buf[..], t0, off, n1, v, b);
    BufferParts(buf, off, n1);
    ghost var digits := DigitString(v, b, n1);
    assert buf[off..off + n1] == digits;
    NoDot(digits);
    assert buf[..off] == t0[..off];
    len := n1;
    if dot != n1 {
      InsertDot(buf, off, n1, dot);
      len := len + 1;
    }
  }

  lemma NoDot(s: string)
    ensures WithDot(s, |s|) == s
  {
  }
}
