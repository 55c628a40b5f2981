/** u32toa, u64toa and u64toa_radix: integers without leading zeros. */
module IntegerText {
  import opened MachineWords
  import opened PowersOfTwo
  import opened Rounding
  import opened StickyBits
  import opened RoundPack
  import opened RadixPowers
  import opened RadixTables
  import opened RadixLogarithm
  import opened Digits
  import opened DigitOutput

  const BILLION: nat := 1000000000

  /** The number of digits of n; zero has one. */
  function NumeralLength(n: nat, b: Radix): (l: nat)
    ensures l > 0
    decreases n
  {
    if n < b then 1
    else
      SmallerQuotient(n, b);
      1 + NumeralLength(Div(n, b), b)
  }

  lemma SmallerQuotient(n: nat, b: Radix)
    requires n >= b
    ensures 0 < Div(n, b) < n
  {
    DivMod(n, b);
    var q := Div(n, b);
    hide Div, Mod;
    MulLower(2, b, q, q);
    assert q > 0;
  }

  /** n in base b without leading zeros. */
  function NumeralText(n: nat, b: Radix): (s: string)
    ensures |s| == NumeralLength(n, b)
  {
    DigitString(n, b, NumeralLength(n, b))
  }

  lemma {:induction false} NumeralBounds(n: nat, b: Radix)
    ensures n < Pow(b, NumeralLength(n, b))
    ensures NumeralLength(n, b) > 1 ==> Pow(b, NumeralLength(n, b) - 1) <= n
    decreases n
  {
    PowZero(b);
    PowSucc(b, 0);
    if n >= b {
      SmallerQuotient(n, b);
      var q := Div(n, b);
      var l := NumeralLength(q, b);
      NumeralBounds(q, b);
      DivMod(n, b);
      PowSucc(b, l);
      PowSucc(b, l - 1);
      assert NumeralLength(n, b) == l + 1;
      hide *;
      QuotientBounds(n, b, q, Mod(n, b), Pow(b, l), Pow(b, l + 1), Pow(b, l - 1), l > 1);
    }
  }

  lemma QuotientBounds(n: nat, b: Radix, q: nat, r: nat, hi: nat, hi': nat, lo: nat, many: bool)
    requires n == q * b + r && r < b && 0 < q < hi && hi' == b * hi && hi == b * lo && (many ==> lo <= q)
    requires !many ==> lo == 1
    ensures n < hi' && hi <= n
  {
    MulLower(q + 1, hi, b, b);
    assert (q + 1) * b == q * b + b;
    MulLower(lo, q, b, b);
  }

  /** There is only one length without a leading zero. */
  lemma NumeralLengthUnique(n: nat, b: Radix, l: nat)
    requires l > 0 && n < Pow(b, l) && (l > 1 ==> Pow(b, l - 1) <= n)
    ensures NumeralLength(n, b) == l
  {
    hide *;
    NumeralBounds(n, b);
    var m := NumeralLength(n, b);
    if m < l {
      PowMonotone(b, m, l - 1);
    } else if l < m {
      PowMonotone(b, l, m - 1);
    }
  }

  lemma NumeralLengthAtMost(n: nat, b: Radix, l: nat)
    requires l > 0 && n < Pow(b, l)
    ensures NumeralLength(n, b) <= l
  {
    hide *;
    NumeralBounds(n, b);
    var m := NumeralLength(n, b);
    if l < m {
      PowMonotone(b, l, m - 1);
    }
  }

  /** The text of a number has its value and no superfluous zero. */
  lemma NumeralValue(n: nat, b: Radix)
    ensures DigitsValue(Decoded(NumeralText(n, b)), b) == n
    ensures AreDigits(Decoded(NumeralText(n, b)), b)
    ensures NumeralText(n, b)[0] == '0' ==> n == 0 && |NumeralText(n, b)| == 1
  {
    var l := NumeralLength(n, b);
    hide Pow, DigitString, DigitsValue, AreDigits, NumeralLength, Mod;
    NumeralBounds(n, b);
    DigitStringValue(n, b, l);
    SmallMod(n, Pow(b, l));
    var s := NumeralText(n, b);
    if s[0] == '0' {
      ZeroFirst(Decoded(s), b);
    }
  }

  lemma SmallMod(a: nat, p: nat)
    requires a < p
    ensures Mod(a, p) == a && Div(a, p) == 0
  {
  }

  lemma ZeroFirst(digits: seq<nat>, b: Radix)
    requires |digits| > 0 && AreDigits(digits, b) && digits[0] == 0
    ensures DigitsValue(digits, b) < Pow(b, |digits| - 1)
    ensures |digits| == 1 ==> DigitsValue(digits, b) == 0
  {
    var tail := digits[1..];
    assert digits == [0] + tail && AreDigits(tail, b);
    assert DigitsValue([0], b) == 0 by { assert [0][..0] == []; }
    hide Pow, AreDigits;
    DigitsConcat([0], tail, b);
    DigitsBound(tail, b);
    assert 0 * Pow(b, |tail|) == 0;
  }

  /** High digits, then w low ones. */
  lemma NumeralSplit(n: nat, b: Radix, w: nat)
    requires Pow(b, w) <= n
    ensures Pow(b, w) > 0
    ensures NumeralText(n, b) == NumeralText(Div(n, Pow(b, w)), b) + DigitString(Mod(n, Pow(b, w)), b, w)
  {
    PowPositive(b, w);
    var p := Pow(b, w);
    var q, r := Div(n, p), Mod(n, p);
    DivMod(n, p);
    NumeralBounds(q, b);
    var l := NumeralLength(q, b);
    PowAdd(b, l, w);
    if l > 1 {
      PowAdd(b, l - 1, w);
    }
    hide Pow, Div, Mod, DigitString, NumeralLength;
    SplitBounds(n, p, q, r, Pow(b, l), if l > 1 then Pow(b, l - 1) else 1);
    NumeralLengthUnique(n, b, l + w);
    DigitStringSplit(n, b, l, w);
    DigitStringMod(n, b, w, w);
  }

  lemma SplitBounds(n: nat, p: nat, q: nat, r: nat, hi: nat, lo: nat)
    requires n == q * p + r && r < p && q < hi && p <= n && (lo > 1 ==> lo <= q)
    ensures n < hi * p && q > 0
    ensures lo <= q ==> lo * p <= n
  {
    MulLower(q + 1, hi, p, p);
    assert (q + 1) * p == q * p + p;
    if lo <= q {
      MulLower(lo, q, p, p);
    }
    assert q == 0 ==> q * p == 0;
  }

  // ----- digits from the last one backwards -----

  /** The do-while loop of u32toa and u64toa_radix: the digits of n at the end
      of the buffer, from position q on. */
  method DigitsBackward(tmp: array<char>, n0: nat, b: Radix) returns (q: nat)
    requires NumeralLength(n0, b) <= tmp.Length
    modifies tmp
    ensures q <= tmp.Length && tmp[q..] == NumeralText(n0, b)
  {
    hide Div, Mod, DigitString, NumeralLength, NumeralText;
    var n := n0;
    q := tmp.Length;
    assert tmp[q..] == [];
    while true
      invariant NumeralLength(n, b) <= q <= tmp.Length
      invariant NumeralText(n0, b) == NumeralText(n, b) + tmp[q..]
      decreases n
    {
      NumeralStep(n, b);
      q := q - 1;
      ghost var t := tmp[q + 1..];
      tmp[q] := DigitChar(Mod(n, b));
      assert tmp[q..] == [DigitChar(Mod(n, b))] + t;
      n := Div(n, b);
      if n == 0 {
        break;
      }
    }
  }

  lemma NumeralStep(n: nat, b: Radix)
    ensures NumeralText(n, b) == (if Div(n, b) == 0 then "" else NumeralText(Div(n, b), b)) + [DigitChar(Mod(n, b))]
    ensures Div(n, b) != 0 ==> Div(n, b) < n && NumeralLength(n, b) == 1 + NumeralLength(Div(n, b), b)
    ensures NumeralLength(n, b) >= 1
  {
    DivMod(n, b);
    if n < b {
      assert Div(n, b) == 0;
      DigitStringStart(Div(n, b), b);
      DigitStringStep(n, b, 0);
    } else {
      SmallerQuotient(n, b);
      DigitStringStep(n, b, NumeralLength(Div(n, b), b));
    }
  }

  /** memcpy(buf, q, len) */
  method CopyText(buf: array<char>, off: nat, tmp: array<char>, q: nat) returns (len: nat)
    requires q <= tmp.Length && off + (tmp.Length - q) <= buf.Length && buf != tmp
    modifies buf
    ensures len == tmp.Length - q && buf[off..off + len] == tmp[q..] && buf[..off] == old(buf[..off])
  {
    len := tmp.Length - q;
    var i := 0;
    while i < len
      invariant 0 <= i <= len && buf[..off] == old(buf[..off])
      invariant buf[off..off + i] == tmp[q..q + i]
    {
      ghost var t := buf[..];
      buf[off + i] := tmp[q + i];
      Extend(t, buf[..], off, off + i, off + i + 1);
      i := i + 1;
    }
    assert tmp[q..q + len] == tmp[q..];
  }

  /** A segment written after another one. */
  lemma Extend(t: seq<char>, u: seq<char>, off: nat, p: nat, q: nat)
    requires |t| == |u| && off <= p <= q <= |u| && u[..p] == t[..p]
    ensures u[off..q] == t[off..p] + u[p..q] && u[..off] == t[..off]
  {
    assert u[off..p] == u[..p][off..] && t[off..p] == t[..p][off..];
    assert u[..off] == u[..p][..off] && t[..off] == t[..p][..off];
  }

  /** u32toa */
  method U32toa(buf: array<char>, off: nat, n: nat) returns (len: nat)
    requires n < TWO32 && off + NumeralLength(n, 10) <= buf.Length
    modifies buf
    ensures len == NumeralLength(n, 10) && buf[off..off + len] == NumeralText(n, 10) && buf[..off] == old(buf[..off])
  {
    SmallNumbers();
    hide Pow, NumeralLength, NumeralText;
    NumeralLengthAtMost(n, 10, 10);
    var buf1 := new char[10];
    var q := DigitsBackward(buf1, n, 10);
    len := CopyText(buf, off, buf1, q);
  }

  lemma SmallNumbers()
    ensures TWO32 < Pow(10, 10) && BILLION == Pow(10, 9) && TWO64 < Pow(3, 41)
  {
    FastPowIsPow(10, 10);
    FastPowIsPow(10, 9);
    FastPowIsPow(3, 41);
    assert FastPow(3, 41) == 36472996377170786403;
    hide Pow;
  }

  /** u64toa: in groups of nine digits above 2^32. */
  method U64toa(buf: array<char>, off: nat, n0: nat) returns (len: nat)
    requires n0 < TWO64 && off + NumeralLength(n0, 10) <= buf.Length
    modifies buf
    ensures len == NumeralLength(n0, 10) && buf[off..off + len] == NumeralText(n0, 10) && buf[..off] == old(buf[..off])
  {
    if n0 < TWO32 {
      len := U32toa(buf, off, n0);
      return;
    }
    var n1 := n0 / BILLION;
    var n := n0 % BILLION;
    LowPart(n0, n1, n);
    hide Pow, NumeralLength, NumeralText, DigitString, Div, Mod;
    if n1 >= TWO32 {
      var n2 := n1 / BILLION;
      var low := n1 % BILLION;
      HighPart(n1, n2, low);
      len := HighDigits(buf, off, n2);
      len := NineMore(buf, off, len, low, n2, n1);
    } else {
      len := U32toa(buf, off, n1);
    }
    len := NineMore(buf, off, len, n, n1, n0);
  }

  /** u32toa_len(q, n, 9) after the text of q. */
  method NineMore(buf: array<char>, off: nat, len0: nat, n: nat, ghost q: nat, ghost whole: nat) returns (len: nat)
    requires off + len0 + 9 <= buf.Length && len0 == NumeralLength(q, 10) && buf[off..off + len0] == NumeralText(q, 10)
    requires NumeralText(whole, 10) == NumeralText(q, 10) + DigitString(n, 10, 9)
    modifies buf
    ensures len == len0 + 9 && buf[off..off + len] == NumeralText(whole, 10) && buf[..off] == old(buf[..off])
  {
    hide Pow, NumeralLength, NumeralText, DigitString;
    ghost var t := buf[..];
    WriteDigits(buf, off + len0, n, 10, 9);
    Extend(t, buf[..], off, off + len0, off + len0 + 9);
    len := len0 + 9;
  }

  lemma LowPart(n0: nat, n1: nat, n: nat)
    requires TWO32 <= n0 < TWO64 && n1 == n0 / BILLION && n == n0 % BILLION
    ensures n1 <= TWO64 / BILLION
    ensures NumeralText(n0, 10) == NumeralText(n1, 10) + DigitString(n, 10, 9)
    ensures NumeralLength(n0, 10) == NumeralLength(n1, 10) + 9
  {
    SmallNumbers();
    assert n1 == Div(n0, BILLION) && n == Mod(n0, BILLION);
    hide Pow, NumeralLength, NumeralText, DigitString;
    NumeralSplit(n0, 10, 9);
  }

  lemma HighPart(n1: nat, n2: nat, low: nat)
    requires TWO32 <= n1 <= TWO64 / BILLION && n2 == n1 / BILLION && low == n1 % BILLION
    ensures n2 < 100
    ensures NumeralText(n1, 10) == NumeralText(n2, 10) + DigitString(low, 10, 9)
    ensures NumeralLength(n1, 10) == NumeralLength(n2, 10) + 9
  {
    SmallNumbers();
    assert n2 == Div(n1, BILLION) && low == Mod(n1, BILLION);
    hide Pow, NumeralLength, NumeralText, DigitString;
    NumeralSplit(n1, 10, 9);
  }

  /** At most two digits. */
  method HighDigits(buf: array<char>, off: nat, n0: nat) returns (len: nat)
    requires n0 < 100 && off + NumeralLength(n0, 10) <= buf.Length
    modifies buf
    ensures len == NumeralLength(n0, 10) && buf[off..off + len] == NumeralText(n0, 10) && buf[..off] == old(buf[..off])
  {
    NumeralStep(n0, 10);
    NumeralStep(n0 / 10, 10);
    assert Div(n0, 10) == n0 / 10 && Div(n0 / 10, 10) == 0;
    hide NumeralLength, NumeralText, DigitString;
    var n2 := n0;
    len := 0;
    if n2 >= 10 {
      buf[off] := DigitChar(n2 / 10);
      len := 1;
      n2 := n2 % 10;
    }
    buf[off + len] := DigitChar(n2);
    len := len + 1;
  }

  /** The number of digits in a power-of-two radix, from the leading zeros. */
  lemma BinaryLength(n: nat, b: Radix, s: nat)
    requires n < TWO64 && b == Pow2(s) && 1 <= s <= 5
    ensures NumeralLength(n, b) == if n == 0 then 1 else (64 - Clz64(n) + s - 1) / s
  {
    if n > 0 {
      var k := BitLength(n);
      BitLengthBounds(n);
      assert Clz64(n) == 64 - k;
      hide Pow, Pow2, BitLength, Clz64, NumeralLength;
      BinaryLengthOf(n, b, s, k, (k + s - 1) / s);
    } else {
      assert NumeralLength(0, b) == 1;
    }
  }

  lemma BinaryLengthOf(n: nat, b: Radix, s: nat, k: nat, l: nat)
    requires 0 < k && Pow2(k - 1) <= n < Pow2(k) && b == Pow2(s) && s > 0 && l == (k + s - 1) / s
    ensures NumeralLength(n, b) == l
  {
    hide *;
    LengthRange(k, s, l);
    PowOfPow2(s, l);
    PowOfPow2(s, l - 1);
    Pow2Monotone(k, s * l);
    Pow2Monotone(s * (l - 1), k - 1);
    NumeralLengthUnique(n, b, l);
  }

  lemma LengthRange(k: nat, s: nat, l: nat)
    requires k > 0 && s > 0 && l == (k + s - 1) / s
    ensures l > 0 && s * (l - 1) <= k - 1 && k <= s * l
  {
    var r := (k + s - 1) % s;
    assert k + s - 1 == l * s + r;
    assert s * (l - 1) == l * s - s;
    assert l == 0 ==> l * s == 0;
  }

  /** u64toa_radix */
  method U64toaRadix(buf: array<char>, off: nat, n: nat, b: Radix) returns (len: nat)
    requires n < TWO64 && off + NumeralLength(n, b) <= buf.Length
    modifies buf
    ensures len == NumeralLength(n, b) && buf[off..off + len] == NumeralText(n, b) && buf[..off] == old(buf[..off])
  {
    if b == 10 {
      len := U64toa(buf, off, n);
      return;
    }
    if OddPart(b) == 1 {
      PowerRadix(b);
      var s := Ctz32(b);
      BinaryLength(n, b, s);
      len := if n == 0 then 1 else (64 - Clz64(n) + s - 1) / s;
      WriteDigits(buf, off, n, b, len);
    } else {
      RadixFits(n, b);
      var buf1 := new char[41];
      var q := DigitsBackward(buf1, n, b);
      len := CopyText(buf, off, buf1, q);
    }
  }

  lemma RadixFits(n: nat, b: Radix)
    requires n < TWO64 && OddPart(b) != 1
    ensures NumeralLength(n, b) <= 41
  {
    SmallNumbers();
    NotPowerOfTwo(b);
    hide Pow, NumeralLength, OddPart;
    PowBaseMonotone(3, b, 41);
    NumeralLengthAtMost(n, b, 41);
  }
}
