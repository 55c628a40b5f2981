/** The layouts of js_dtoa: digits with a dot, padded with zeros, or with an
    exponent. */
module NumberLayout {
  import opened MachineWords
  import opened Limbs
  import opened RadixTables
  import opened Bignum
  import opened DigitOutput
  import opened IntegerText

  datatype ExponentMode = ExpAuto | ExpEnabled | ExpDisabled

  function Zeros(n: nat): (s: string)
    ensures |s| == n
  {
    seq(n, _ => '0')
  }

  /** Exponents of powers of two are printed for the radices 2, 4, 8 and 16. */
  predicate BinaryExponent(b: Radix) {
    b != 10 && OddPart(b) == 1 && Ctz32(b) <= 4
  }

  function ExponentMark(b: Radix): char {
    if b == 10 then 'e' else if BinaryExponent(b) then 'p' else '@'
  }

  /** The number printed after the mark, for 0.digits * b^d. */
  function PrintedExponent(b: Radix, d: int): int {
    if BinaryExponent(b) then (d - 1) * Ctz32(b) else d - 1
  }

  function Absolute(n: int): nat {
    if n < 0 then 0 - n else n
  }

  function SignedText(n: int): string {
    [if n < 0 then '-' else '+'] + NumeralText(Absolute(n), 10)
  }

  function ExponentText(b: Radix, d: int): string {
    [ExponentMark(b)] + SignedText(PrintedExponent(b, d))
  }

  predicate UsesExponent(mode: ExponentMode, d: int, eMax: int) {
    mode == ExpEnabled || (mode == ExpAuto && (d <= -6 || d > eMax))
  }

  /** The text of 0.digits * b^d. */
  function Layout(digits: string, b: Radix, d: int, mode: ExponentMode, eMax: int): string
    requires |digits| > 0
  {
    if UsesExponent(mode, d, eMax) then WithDot(digits, 1) + ExponentText(b, d)
    else if d <= 0 then "0." + Zeros(0 - d) + digits
    else if d < |digits| then WithDot(digits, d)
    else digits + Zeros(d - |digits|)
  }

  method PutChar(buf: array<char>, off: nat, ghost start: nat, c: char) returns (next: nat)
    requires start <= off < buf.Length
    modifies buf
    ensures next == off + 1 && buf[start..next] == old(buf[start..off]) + [c] && buf[..off] == old(buf[..off])
    ensures buf[..start] == old(buf[..start])
  {
    ghost var t := buf[..];
    buf[off] := c;
    next := off + 1;
    Extend(t, buf[..], start, off, next);
  }

  method PutZeros(buf: array<char>, off: nat, ghost start: nat, n: nat) returns (next: nat)
    requires start <= off && off + n <= buf.Length
    modifies buf
    ensures next == off + n && buf[start..next] == old(buf[start..off]) + Zeros(n) && buf[..start] == old(buf[..start])
  {
    ghost var s := buf[start..off];
    next := off;
    var i := 0;
    assert s + Zeros(0) == s;
    while i < n
      invariant 0 <= i <= n && next == off + i
      invariant buf[start..next] == s + Zeros(i) && buf[..start] == old(buf[..start])
    {
      next := PutChar(buf, next, start, '0');
      assert Zeros(i + 1) == Zeros(i) + ['0'];
      i := i + 1;
    }
  }

  /** output_digits after what is already written. */
  method PutDigits(buf: array<char>, off: nat, ghost start: nat, a: Mpb, b: Radix, p: nat, dot: nat) returns (next: nat)
    requires a.Valid() && a.Normal() && p > 0 && dot <= p && start <= off && off + p + 1 <= buf.Length
    modifies a, a.tab, buf
    ensures next == off + |WithDot(DigitString(old(a.V()), b, p), dot)|
    ensures buf[start..next] == old(buf[start..off]) + WithDot(DigitString(old(a.V()), b, p), dot)
    ensures buf[..start] == old(buf[..start])
  {
    hide DigitString, Value;
    ghost var t := buf[..];
    var len := OutputDigits(buf, off, a, b, p, dot);
    next := off + len;
    Extend(t, buf[..], start, off, next);
  }

  /** The mark of the exponent, and the number to print after it. */
  method PutMark(buf: array<char>, off: nat, ghost start: nat, b: Radix, d: int) returns (next: nat, n: int)
    requires start <= off < buf.Length
    modifies buf
    ensures next == off + 1 && n == PrintedExponent(b, d)
    ensures buf[start..next] == old(buf[start..off]) + [ExponentMark(b)] && buf[..start] == old(buf[..start])
  {
    n := d - 1;
    if b == 10 {
      next := PutChar(buf, off, start, 'e');
    } else if OddPart(b) == 1 && Ctz32(b) <= 4 {
      n := n * Ctz32(b);
      next := PutChar(buf, off, start, 'p');
    } else {
      next := PutChar(buf, off, start, '@');
    }
  }

  method PutSigned(buf: array<char>, off: nat, ghost start: nat, n0: int) returns (next: nat)
    requires start <= off && Absolute(n0) < TWO32 && off + |SignedText(n0)| <= buf.Length
    modifies buf
    ensures next == off + |SignedText(n0)|
    ensures buf[start..next] == old(buf[start..off]) + SignedText(n0) && buf[..start] == old(buf[..start])
  {
    hide NumeralText, NumeralLength;
    var n := n0;
    if n < 0 {
      next := PutChar(buf, off, start, '-');
      n := 0 - n;
    } else {
      next := PutChar(buf, off, start, '+');
    }
    ghost var t := buf[..];
    var len := U32toa(buf, next, n);
    Extend(t, buf[..], start, next, next + len);
    next := next + len;
  }

  /** The exponent part. */
  method PutExponent(buf: array<char>, off: nat, ghost start: nat, b: Radix, d: int) returns (next: nat)
    requires start <= off && Absolute(PrintedExponent(b, d)) < TWO32 && off + |ExponentText(b, d)| <= buf.Length
    modifies buf
    ensures next == off + |ExponentText(b, d)|
    ensures buf[start..next] == old(buf[start..off]) + ExponentText(b, d) && buf[..start] == old(buf[..start])
  {
    var n;
    hide SignedText, ExponentMark, PrintedExponent;
    next, n := PutMark(buf, off, start, b, d);
    next := PutSigned(buf, next, start, n);
  }

  method PutFraction(buf: array<char>, off: nat, a: Mpb, b: Radix, p: nat, d: int) returns (next: nat)
    requires a.Valid() && a.Normal() && p > 0 && d <= 0 && off + p + (0 - d) + 3 <= buf.Length
    modifies a, a.tab, buf
    ensures next == off + p + (0 - d) + 2
    ensures buf[off..next] == "0." + Zeros(0 - d) + DigitString(old(a.V()), b, p) && buf[..off] == old(buf[..off])
  {
    hide DigitString, Zeros;
    next := PutChar(buf, off, off, '0');
    next := PutChar(buf, next, off, '.');
    assert buf[off..next] == "0.";
    next := PutZeros(buf, next, off, 0 - d);
    next := PutDigits(buf, next, off, a, b, p, p);
  }

  method PutScientific(buf: array<char>, off: nat, a: Mpb, b: Radix, p: nat, d: int) returns (next: nat)
    requires a.Valid() && a.Normal() && p > 0 && Absolute(PrintedExponent(b, d)) < TWO32
    requires off + |WithDot(DigitString(a.V(), b, p), 1)| + |ExponentText(b, d)| + 1 <= buf.Length
    modifies a, a.tab, buf
    ensures next == off + |WithDot(DigitString(old(a.V()), b, p), 1)| + |ExponentText(b, d)|
    ensures buf[off..next] == WithDot(DigitString(old(a.V()), b, p), 1) + ExponentText(b, d)
    ensures buf[..off] == old(buf[..off])
  {
    hide DigitString, ExponentText, PrintedExponent, Zeros;
    ExponentLength(b, d);
    next := PutDigits(buf, off, off, a, b, p, 1);
    next := PutExponent(buf, next, off, b, d);
  }

  method PutInteger(buf: array<char>, off: nat, a: Mpb, b: Radix, p: nat, d: int) returns (next: nat)
    requires a.Valid() && a.Normal() && p > 0 && d > 0 && off + p + 1 <= buf.Length && off + d <= buf.Length
    modifies a, a.tab, buf
    ensures next == off + (if d < p then p + 1 else d)
    ensures buf[off..next] == (if d < p then WithDot(DigitString(old(a.V()), b, p), d)
                               else DigitString(old(a.V()), b, p) + Zeros(d - p))
    ensures buf[..off] == old(buf[..off])
  {
    hide DigitString, Zeros;
    var dot := if p < d then p else d;
    next := PutDigits(buf, off, off, a, b, p, dot);
    if d >= p {
      next := PutZeros(buf, next, off, d - p);
    }
  }

  /** The end of js_dtoa, from `output` on: the p digits of a at exponent d. */
  method WriteNumber(buf: array<char>, off: nat, a: Mpb, b: Radix, p: nat, d: int, mode: ExponentMode, eMax: int)
    returns (next: nat)
    requires a.Valid() && a.Normal() && p > 0
    requires Absolute(PrintedExponent(b, d)) < TWO32
    requires off + |Layout(DigitString(a.V(), b, p), b, d, mode, eMax)| + 1 <= buf.Length
    modifies a, a.tab, buf
    ensures next == off + |Layout(DigitString(old(a.V()), b, p), b, d, mode, eMax)|
    ensures buf[off..next] == Layout(DigitString(old(a.V()), b, p), b, d, mode, eMax)
    ensures buf[..off] == old(buf[..off])
  {
    hide DigitString, ExponentText, PrintedExponent, Zeros;
    if mode == ExpEnabled || (mode == ExpAuto && (d <= -6 || d > eMax)) {
      next := PutScientific(buf, off, a, b, p, d);
    } else if d <= 0 {
      next := PutFraction(buf, off, a, b, p, d);
    } else {
      next := PutInteger(buf, off, a, b, p, d);
    }
  }

  lemma ExponentLength(b: Radix, d: int)
    ensures |ExponentText(b, d)| >= 3
  {
  }
}
