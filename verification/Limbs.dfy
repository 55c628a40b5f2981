/** Little-endian 32-bit limb arrays, and the in-place limb loops of dtoa.c. */
module Limbs {
  import opened PowersOfTwo
  import opened Rounding
  import opened StickyBits

  const BASE: nat := 0x1_0000_0000

  type Limb = x: int | 0 <= x < 0x1_0000_0000

  /** BASE^n */
  function BasePow(n: nat): (p: nat)
    ensures p >= 1
  {
    if n == 0 then 1 else BASE * BasePow(n - 1)
  }

  /** The number a limb sequence stands for. */
  function Value(s: seq<Limb>): nat {
    if |s| == 0 then 0 else s[0] + BASE * Value(s[1..])
  }

  lemma {:induction false} BasePowIsPow2(n: nat)
    ensures BasePow(n) == Pow2(32 * n)
  {
    if n == 0 {
      Exp2Zero();
    } else {
      BasePowIsPow2(n - 1);
      Pow2Values();
      hide Pow2;
      Pow2Add(32, 32 * (n - 1));
    }
  }

  lemma {:induction false} BasePowAdd(m: nat, n: nat)
    ensures BasePow(m + n) == BasePow(m) * BasePow(n)
  {
    BasePowIsPow2(m + n);
    BasePowIsPow2(m);
    BasePowIsPow2(n);
    hide *;
    assert 32 * (m + n) == 32 * m + 32 * n;
    Pow2Add(32 * m, 32 * n);
  }

  lemma {:induction false} ValueSnoc(s: seq<Limb>, a: Limb)
    ensures Value(s + [a]) == Value(s) + a * BasePow(|s|)
  {
    if |s| == 0 {
      assert s + [a] == [a];
      assert [a][1..] == [];
    } else {
      assert (s + [a])[1..] == s[1..] + [a];
      ValueSnoc(s[1..], a);
      var p := BasePow(|s| - 1);
      MulAssocInt(BASE, a, p);
      MulAssocInt(a, BASE, p);
    }
  }

  /** Low limbs and high limbs. */
  lemma {:induction false} ValueSplit(s: seq<Limb>, i: nat)
    requires i <= |s|
    ensures Value(s) == Value(s[..i]) + BasePow(i) * Value(s[i..])
    decreases i
  {
    if i == 0 {
      assert s[..0] == [] && s[0..] == s;
    } else {
      ValueSplit(s, i - 1);
      assert s[..i] == s[..i - 1] + [s[i - 1]];
      ValueSnoc(s[..i - 1], s[i - 1]);
      assert s[i - 1..][1..] == s[i..];
      var p, v := BasePow(i - 1), Value(s[i..]);
      SplitStep(p, s[i - 1], v);
    }
  }

  lemma SplitStep(p: int, a: int, v: int)
    ensures p * (a + BASE * v) == a * p + (BASE * p) * v
  {
  }

  lemma {:induction false} ValueBound(s: seq<Limb>)
    ensures Value(s) < BasePow(|s|)
  {
    if |s| > 0 {
      ValueBound(s[1..]);
    }
  }

  /** With a nonzero top limb the value needs all its limbs. */
  lemma ValueTop(s: seq<Limb>)
    requires |s| > 0 && s[|s| - 1] != 0
    ensures BasePow(|s| - 1) <= Value(s)
  {
    var n := |s| - 1;
    assert s == s[..n] + [s[n]];
    ValueSnoc(s[..n], s[n]);
    MulLower(1, s[n], BasePow(n), BasePow(n));
  }

  lemma {:induction false} ValueZeros(n: nat)
    ensures Value(seq(n, i => 0)) == 0
  {
    if n > 0 {
      ValueZeros(n - 1);
      assert seq(n, i => 0)[1..] == seq(n - 1, i => 0);
    }
  }

  /** One more limb at the top of a prefix. */
  lemma PrefixStep(s: seq<Limb>, i: nat)
    requires i < |s|
    ensures Value(s[..i + 1]) == Value(s[..i]) + s[i] * BasePow(i)
    ensures BasePow(i + 1) == BASE * BasePow(i)
  {
    assert s[..i + 1] == s[..i] + [s[i]];
    ValueSnoc(s[..i], s[i]);
  }

  /** One more limb at the bottom of a suffix. */
  lemma SuffixStep(s: seq<Limb>, i: nat, n: nat)
    requires i < n <= |s|
    ensures Value(s[i..n]) == s[i] + BASE * Value(s[i + 1..n])
  {
    assert s[i..n][1..] == s[i + 1..n];
  }

  // ----- mp_add_ui -----

  lemma AddStep(v: int, w: int, t: int, a: int, k: int, p: int, a': int, k': int)
    requires v + k * p == w && a + k == a' + k' * BASE
    ensures (v + a' * p) + k' * (BASE * p) == w + a * p
  {
    assert (a + k) * p == (a' + k' * BASE) * p;
    assert (a + k) * p == a * p + k * p;
    assert (a' + k' * BASE) * p == a' * p + k' * (BASE * p);
  }

  /** After i limbs t holds s + b up to the carry k. */
  ghost predicate Added(t: seq<Limb>, s: seq<Limb>, i: nat, k: nat, b: nat) {
    && |t| == |s| && i <= |s| && t[i..] == s[i..]
    && Value(t[..i]) + k * BasePow(i) == Value(s[..i]) + b
  }

  lemma AddLimb(t: seq<Limb>, s: seq<Limb>, i: nat, k: Limb, b: nat)
    requires Added(t, s, i, k, b) && i < |s|
    ensures t[i] == s[i]
    ensures var a := (t[i] + k) % BASE;
            Added(t[i := a], s, i + 1, if a < k then 1 else 0, b)
  {
    var a := (t[i] + k) % BASE;
    var u := t[i := a];
    assert t[i] == t[i..][0] == s[i];
    assert u[i + 1..] == t[i..][1..] == s[i..][1..] == s[i + 1..];
    assert u[..i] == t[..i];
    hide Value, BasePow;
    PrefixStep(s, i);
    PrefixStep(u, i);
    AddStep(Value(t[..i]), Value(s[..i]) + b, 0, s[i], k, BasePow(i), a, if a < k then 1 else 0);
  }

  /** Adds one limb; the result is the carry out of n limbs. */
  method MpAddUi(tab: array<Limb>, b: Limb, n: nat) returns (k: Limb)
    requires n <= tab.Length
    modifies tab
    ensures Value(tab[..n]) + k * BasePow(n) == old(Value(tab[..n])) + b
    ensures tab[n..] == old(tab[n..]) && (n > 0 ==> k <= 1)
  {
    ghost var s := tab[..];
    k := b;
    var i := 0;
    assert Added(s, s, 0, b, b);
    hide Value, BasePow, Added;
    while i < n && k != 0
      invariant i <= n && (i > 0 ==> k <= 1)
      invariant Added(tab[..], s, i, k, b)
    {
      AddLimb(tab[..], s, i, k, b);
      var a: Limb := (tab[i] + k) % BASE;
      ghost var t := tab[..];
      k := if a < k then 1 else 0;
      tab[i] := a;
      assert tab[..] == t[i := a];
      i := i + 1;
    }
    AddDone(tab[..], s, i, k, b, n);
    assert s[..n] == old(tab[..n]) && tab[..][..n] == tab[..n];
    assert s[n..] == old(tab[n..]) && tab[..][n..] == tab[n..];
  }

  lemma AddDone(t: seq<Limb>, s: seq<Limb>, i: nat, k: nat, b: nat, n: nat)
    requires Added(t, s, i, k, b) && i <= n <= |s| && (i < n ==> k == 0)
    ensures Value(t[..n]) + k * BasePow(n) == Value(s[..n]) + b
    ensures t[n..] == s[n..]
  {
    assert t[n..] == t[i..][n - i..] == s[i..][n - i..] == s[n..];
    if i < n {
      assert t[..n][..i] == t[..i] && s[..n][..i] == s[..i];
      assert t[..n][i..] == t[i..][..n - i] == s[i..][..n - i] == s[..n][i..];
      CopiedTail(t[..n], s[..n], i, b);
    }
  }

  lemma CopiedTail(t: seq<Limb>, s: seq<Limb>, i: nat, b: nat)
    requires |t| == |s| && i <= |s| && t[i..] == s[i..] && Value(t[..i]) == Value(s[..i]) + b
    ensures Value(t) == Value(s) + b
  {
    ValueSplit(t, i);
    ValueSplit(s, i);
  }

  // ----- mp_mul1 -----

  lemma MulStep(v: int, w: int, a: int, b: int, l: int, p: int, a': int, l': int, x: int)
    requires v + l * p == w * b + x && a * b + l == a' + l' * BASE
    ensures (v + a' * p) + l' * (BASE * p) == (w + a * p) * b + x
  {
    assert (a * b + l) * p == (a' + l' * BASE) * p;
    assert (a * b + l) * p == (a * b) * p + l * p;
    assert (a' + l' * BASE) * p == a' * p + l' * (BASE * p);
    assert (w + a * p) * b == w * b + (a * b) * p;
  }

  ghost predicate Multiplied(t: seq<Limb>, s: seq<Limb>, i: nat, l: nat, b: nat, l0: nat) {
    i <= |s| && i <= |t| && Value(t[..i]) + l * BasePow(i) == Value(s[..i]) * b + l0
  }

  /** a * b + l, a double limb. */
  function MulAdd(a: Limb, b: Limb, l: Limb): (t: nat)
  {
    a * b + l
  }

  lemma MultiplyLimb(t: seq<Limb>, s: seq<Limb>, i: nat, l: Limb, b: Limb, l0: nat)
    requires Multiplied(t, s, i, l, b, l0) && i < |s| && i < |t|
    ensures MulAdd(s[i], b, l) / BASE < BASE
    ensures Multiplied(t[i := MulAdd(s[i], b, l) % BASE], s, i + 1, MulAdd(s[i], b, l) / BASE, b, l0)
  {
    var a := MulAdd(s[i], b, l);
    ProductOfLimbs(s[i], b, l, a);
    var u := t[i := a % BASE];
    assert u[..i] == t[..i];
    hide Value, BasePow, MulAdd;
    PrefixStep(s, i);
    PrefixStep(u, i);
    MulStep(Value(t[..i]), Value(s[..i]), s[i], b, l, BasePow(i), a % BASE, a / BASE, l0);
  }

  /** tabr = taba * b + l over n limbs; the result is the high limb. */
  method MpMul1(tabr: array<Limb>, taba: array<Limb>, n: nat, b: Limb, l0: Limb) returns (l: Limb)
    requires n <= tabr.Length && n <= taba.Length
    modifies tabr
    ensures Value(tabr[..n]) + l * BasePow(n) == old(Value(taba[..n])) * b + l0
    ensures tabr[n..] == old(tabr[n..])
  {
    ghost var s := taba[..];
    l := l0;
    var i := 0;
    assert Multiplied(tabr[..], s, 0, l0, b, l0);
    hide Value, BasePow, Multiplied, MulAdd;
    while i < n
      invariant i <= n
      invariant Multiplied(tabr[..], s, i, l, b, l0)
      invariant taba[i..n] == s[i..n]
      invariant tabr[n..] == old(tabr[n..])
    {
      assert taba[i] == taba[i..n][0] == s[i..n][0] == s[i];
      ghost var t := tabr[..];
      MultiplyLimb(t, s, i, l, b, l0);
      var a := MulAdd(taba[i], b, l);
      tabr[i] := a % BASE;
      l := a / BASE;
      assert tabr[..] == t[i := tabr[i]];
      i := i + 1;
    }
    MultipliedDone(tabr[..], s, n, l, b, l0);
    assert s[..n] == old(taba[..n]) && tabr[..][..n] == tabr[..n];
  }

  lemma MultipliedDone(t: seq<Limb>, s: seq<Limb>, n: nat, l: nat, b: nat, l0: nat)
    requires Multiplied(t, s, n, l, b, l0)
    ensures Value(t[..n]) + l * BasePow(n) == Value(s[..n]) * b + l0
  {
  }

  lemma ProductOfLimbs(a: Limb, b: Limb, l: Limb, t: int)
    requires t == a * b + l
    ensures 0 <= t / BASE < BASE && 0 <= t % BASE && t == t % BASE + t / BASE * BASE
  {
    MulLower(a, BASE - 1, b, b);
    MulLower(b, BASE - 1, BASE - 1, BASE - 1);
  }

  // ----- mp_div1 -----

  lemma DivStep(v: nat, q: nat, r: nat, b: nat, a: Limb, high: nat, p: nat, c: nat, r': nat)
    requires r * BASE + a == c * b + r' && high * p + v == q * b + r
    ensures high * (BASE * p) + (a + BASE * v) == (c + BASE * q) * b + r'
  {
    DistributeBase(high, p, v, q, b, r, c);
  }

  lemma DistributeBase(high: int, p: int, v: int, q: int, b: int, r: int, c: int)
    requires high * p + v == q * b + r
    ensures high * (BASE * p) + BASE * v == BASE * (q * b) + BASE * r
    ensures (c + BASE * q) * b == c * b + BASE * (q * b)
  {
  }

  lemma QuotientLimb(r: nat, a: Limb, b: nat)
    requires r < b
    ensures var t := r * BASE + a; t / b < BASE && 0 <= t % b < b && t == t / b * b + t % b
  {
    var t := r * BASE + a;
    var q := t / b;
    assert t == q * b + t % b;
    if q >= BASE {
      MulLower(BASE, q, b, b);
    }
  }

  /** One step of long division by b with n - i limbs done. */
  ghost predicate Divided(t: seq<Limb>, s: seq<Limb>, i: nat, n: nat, r0: nat, b: nat, r: nat) {
    && i <= n && n <= |s| && n <= |t| && r < b
    && r0 * BasePow(n - i) + Value(s[i..n]) == Value(t[i..n]) * b + r
  }

  lemma DivideLimb(t: seq<Limb>, s: seq<Limb>, i: nat, n: nat, r0: nat, b: Limb, r: nat, q: Limb, r': nat)
    requires i > 0 && Divided(t, s, i, n, r0, b, r)
    requires r * BASE + s[i - 1] == q * b + r' && r' < b
    ensures Divided(t[i - 1 := q], s, i - 1, n, r0, b, r')
  {
    var u := t[i - 1 := q];
    assert u[i..n] == t[i..n];
    NextPower(n - i);
    hide Value, BasePow;
    SuffixStep(s, i - 1, n);
    SuffixStep(u, i - 1, n);
    DivStep(Value(s[i..n]), Value(t[i..n]), r, b, s[i - 1], r0, BasePow(n - i), q, r');
  }

  lemma DividedStart(t: seq<Limb>, s: seq<Limb>, n: nat, r0: nat, b: nat)
    requires n <= |s| && n <= |t| && r0 < b
    ensures Divided(t, s, n, n, r0, b, r0)
  {
    assert s[n..n] == [] && t[n..n] == [] && BasePow(0) == 1;
  }

  lemma DividedDone(t: seq<Limb>, s: seq<Limb>, n: nat, r0: nat, b: nat, r: nat)
    requires Divided(t, s, 0, n, r0, b, r)
    ensures r0 * BasePow(n) + Value(s[..n]) == Value(t[..n]) * b + r
  {
    assert s[0..n] == s[..n] && t[0..n] == t[..n];
  }

  /** tabr = (r0 * BASE^n + taba) / b; the result is the remainder. */
  method MpDiv1(tabr: array<Limb>, taba: array<Limb>, n: nat, b: Limb, r0: Limb) returns (r: Limb)
    requires n <= tabr.Length && n <= taba.Length && r0 < b
    modifies tabr
    ensures r < b
    ensures r0 * BasePow(n) + old(Value(taba[..n])) == Value(tabr[..n]) * b + r
    ensures tabr[n..] == old(tabr[n..])
  {
    ghost var s := taba[..];
    DividedStart(tabr[..], s, n, r0, b);
    hide Value, BasePow, Divided;
    r := r0;
    var i := n;
    while i > 0
      invariant 0 <= i <= n && r < b
      invariant Divided(tabr[..], s, i, n, r0, b, r)
      invariant taba[..i] == s[..i]
      invariant tabr[n..] == old(tabr[n..])
    {
      i := i - 1;
      assert taba[i] == taba[..i + 1][i] == s[i];
      ghost var t, rest := tabr[..], r;
      var a1 := r * BASE + taba[i];
      QuotientLimb(r, taba[i], b);
      tabr[i] := a1 / b;
      r := a1 % b;
      DivideLimb(t, s, i + 1, n, r0, b, rest, tabr[i], r);
      assert tabr[..] == t[i := tabr[i]];
    }
    DividedDone(tabr[..], s, n, r0, b, r);
    assert s[..n] == old(taba[..n]) && tabr[..][..n] == tabr[..n];
  }

  lemma NextPower(n: nat)
    ensures BasePow(n + 1) == BASE * BasePow(n)
  {
  }

  // ----- mp_shl and mp_shr -----

  lemma ShiftLeftStep(v: int, w: int, a: int, l: int, p: int, c: int, low: int, hi: int, lo: int, g: int)
    requires v + l * p == w * c + low && a == hi * g + lo && c * g == BASE
    ensures (v + (lo * c + l) * p) + hi * (BASE * p) == (w + a * p) * c + low
  {
    assert a * c == hi * BASE + lo * c by { assert (hi * g) * c == hi * (c * g); }
    assert (w + a * p) * c == w * c + (a * c) * p;
    assert (a * c) * p == hi * (BASE * p) + (lo * c) * p;
    assert (lo * c + l) * p == (lo * c) * p + l * p;
  }

  /** The two parts of a limb split at bit 32 - shift. */
  lemma SplitLimb(a: Limb, c: nat, g: nat)
    requires c > 0 && g > 0 && c * g == BASE
    ensures a == a / g * g + a % g && a / g < c && 0 <= a % g < g
    ensures a % g * c + c <= BASE
  {
    if a / g >= c {
      MulLower(c, a / g, g, g);
    }
    MulLower(a % g + 1, g, c, c);
    assert (a % g + 1) * c == a % g * c + c;
  }

  ghost predicate ShiftedLeft(t: seq<Limb>, s: seq<Limb>, i: nat, l: nat, c: nat, low: nat) {
    i <= |s| && i <= |t| && l < c && Value(t[..i]) + l * BasePow(i) == Value(s[..i]) * c + low
  }

  /** (a << shift) | l on one limb. */
  function ShlOr(a: Limb, l: nat, shift: nat): nat {
    a * Pow2(shift) % BASE + l
  }

  /** (a >> shift) | (l << (32 - shift)) on one limb. */
  function ShrOr(a: Limb, l: Limb, shift: nat): nat
    requires shift < 32
  {
    Div(a, Pow2(shift)) + l * Pow2(32 - shift) % BASE
  }

  lemma ShiftLimbLeft(t: seq<Limb>, s: seq<Limb>, i: nat, l: nat, shift: nat, low: nat)
    requires 1 <= shift < 32 && ShiftedLeft(t, s, i, l, Pow2(shift), low) && i < |s| && i < |t|
    ensures ShlOr(s[i], l, shift) < BASE
    ensures ShiftedLeft(t[i := ShlOr(s[i], l, shift)], s, i + 1, Div(s[i], Pow2(32 - shift)), Pow2(shift), low)
  {
    hide Pow2;
    HalvesOfBase(shift);
    var c, g := Pow2(shift), Pow2(32 - shift);
    ShiftedIn(s[i], s[i], g, c);
    ShiftLimbLeftParts(t, s, i, l, c, g, low);
  }

  lemma ShiftLimbLeftParts(t: seq<Limb>, s: seq<Limb>, i: nat, l: nat, c: nat, g: nat, low: nat)
    requires ShiftedLeft(t, s, i, l, c, low) && i < |s| && i < |t| && g > 0 && c * g == BASE
    ensures s[i] % g * c + l < BASE
    ensures ShiftedLeft(t[i := s[i] % g * c + l], s, i + 1, s[i] / g, c, low)
  {
    var a := s[i];
    SplitLimb(a, c, g);
    var u := t[i := a % g * c + l];
    assert u[..i] == t[..i];
    hide Value, BasePow;
    PrefixStep(s, i);
    PrefixStep(u, i);
    ShiftLeftStep(Value(t[..i]), Value(s[..i]), a, l, BasePow(i), c, low, a / g, a % g, g);
  }

  /** tabr = (taba << shift) + low over n limbs; the result is the carry. */
  method MpShl(tabr: array<Limb>, taba: array<Limb>, n: nat, shift: nat, low: Limb) returns (l: Limb)
    requires n <= tabr.Length && n <= taba.Length && 1 <= shift < 32 && low < Pow2(shift)
    modifies tabr
    ensures l < Pow2(shift)
    ensures Value(tabr[..n]) + l * BasePow(n) == old(Value(taba[..n])) * Pow2(shift) + low
    ensures tabr[n..] == old(tabr[n..])
  {
    ghost var s := taba[..];
    assert ShiftedLeft(tabr[..], s, 0, low, Pow2(shift), low);
    hide *;
    HalvesOfBase(shift);
    l := low;
    var i := 0;
    while i < n
      invariant i <= n
      invariant ShiftedLeft(tabr[..], s, i, l, Pow2(shift), low)
      invariant taba[i..n] == s[i..n]
      invariant tabr[n..] == old(tabr[n..])
    {
      assert taba[i] == taba[i..n][0] == s[i..n][0] == s[i];
      ghost var t := tabr[..];
      ShiftLimbLeft(t, s, i, l, shift, low);
      var a := taba[i];
      tabr[i] := ShlOr(a, l, shift);
      l := Div(a, Pow2(32 - shift));
      ShiftedLeftDone(t[i := tabr[i]], s, i + 1, l, Pow2(shift), low);
      assert tabr[..] == t[i := tabr[i]];
      i := i + 1;
    }
    ShiftedLeftDone(tabr[..], s, n, l, Pow2(shift), low);
    assert s[..n] == old(taba[..n]) && tabr[..][..n] == tabr[..n];
  }

  lemma ShiftedLeftDone(t: seq<Limb>, s: seq<Limb>, n: nat, l: nat, c: nat, low: nat)
    requires ShiftedLeft(t, s, n, l, c, low)
    ensures l < c && Value(t[..n]) + l * BasePow(n) == Value(s[..n]) * c + low
  {
  }

  lemma HalvesOfBase(shift: nat)
    requires 1 <= shift < 32
    ensures Pow2(shift) * Pow2(32 - shift) == BASE
    ensures Pow2(shift) <= BASE && Pow2(32 - shift) <= BASE
  {
    Pow2Add(shift, 32 - shift);
    Pow2Values();
    hide Pow2;
    Pow2Monotone(shift, 32);
    Pow2Monotone(32 - shift, 32);
  }

  lemma ShiftRightStep(v: int, q: int, r: int, c: int, a: int, high: int, p: int, hi: int, lo: int, g: int)
    requires high * p + v == q * c + r && a == hi * c + lo && c * g == BASE
    ensures high * (BASE * p) + (a + BASE * v) == ((hi + r * g) + BASE * q) * c + lo
  {
    assert high * (BASE * p) + BASE * v == BASE * (high * p + v) by { DistributeBase(high, p, v, q, c, r, 0); }
    assert (r * g) * c == r * BASE by { assert (r * g) * c == r * (c * g); }
    assert ((hi + r * g) + BASE * q) * c == hi * c + (r * g) * c + BASE * (q * c);
  }

  ghost predicate ShiftedRight(t: seq<Limb>, s: seq<Limb>, i: nat, n: nat, l: nat, c: nat, high: nat) {
    && i <= n && n <= |s| && n <= |t| && c > 0
    && high * BasePow(n - i) + Value(s[i..n]) == Value(t[i..n]) * c + l % c
  }

  lemma ShiftLimbRight(t: seq<Limb>, s: seq<Limb>, i: nat, n: nat, l: Limb, shift: nat, high: nat)
    requires 1 <= shift < 32 && i > 0 && ShiftedRight(t, s, i, n, l, Pow2(shift), high)
    ensures ShrOr(s[i - 1], l, shift) < BASE
    ensures ShiftedRight(t[i - 1 := ShrOr(s[i - 1], l, shift)], s, i - 1, n, s[i - 1], Pow2(shift), high)
  {
    hide Pow2;
    HalvesOfBase(shift);
    ShiftLimbRightParts(t, s, i, n, l, Pow2(shift), Pow2(32 - shift), high);
  }

  lemma ShiftLimbRightParts(t: seq<Limb>, s: seq<Limb>, i: nat, n: nat, l: Limb, c: nat, g: nat, high: nat)
    requires i > 0 && ShiftedRight(t, s, i, n, l, c, high) && g > 0 && c * g == BASE
    ensures s[i - 1] / c + l * g % BASE < BASE
    ensures ShiftedRight(t[i - 1 := s[i - 1] / c + l * g % BASE], s, i - 1, n, s[i - 1], c, high)
  {
    var a := s[i - 1];
    ShiftedIn(a, l, c, g);
    var u := t[i - 1 := a / c + l * g % BASE];
    assert u[i..n] == t[i..n];
    NextPower(n - i);
    hide Value, BasePow;
    SuffixStep(s, i - 1, n);
    SuffixStep(u, i - 1, n);
    ShiftRightStep(Value(s[i..n]), Value(t[i..n]), l % c, c, a, high, BasePow(n - i), a / c, a % c, g);
  }

  /** tabr = (high * BASE^n + taba) >> shift; the result is the remainder. */
  method MpShr(tabr: array<Limb>, taba: array<Limb>, n: nat, shift: nat, high: Limb) returns (l: Limb)
    requires n <= tabr.Length && n <= taba.Length && 1 <= shift < 32 && high < Pow2(shift)
    modifies tabr
    ensures l < Pow2(shift)
    ensures high * BasePow(n) + old(Value(taba[..n])) == Value(tabr[..n]) * Pow2(shift) + l
    ensures tabr[n..] == old(tabr[n..])
  {
    ghost var s := taba[..];
    HalvesOfBase(shift);
    ShiftedRightStart(tabr[..], s, n, Pow2(shift), high);
    hide *;
    l := high;
    var i := n;
    while i > 0
      invariant 0 <= i <= n
      invariant ShiftedRight(tabr[..], s, i, n, l, Pow2(shift), high)
      invariant taba[..i] == s[..i]
      invariant tabr[n..] == old(tabr[n..])
    {
      ghost var t := tabr[..];
      ShiftLimbRight(t, s, i, n, l, shift, high);
      i := i - 1;
      assert taba[i] == taba[..i + 1][i] == s[i];
      var a := taba[i];
      tabr[i] := ShrOr(a, l, shift);
      l := a;
      assert tabr[..] == t[i := tabr[i]];
    }
    ShiftedRightDone(tabr[..], s, n, l, Pow2(shift), high);
    l := Mod(l, Pow2(shift));
    assert s[..n] == old(taba[..n]) && tabr[..][..n] == tabr[..n];
  }

  lemma ShiftedRightStart(t: seq<Limb>, s: seq<Limb>, n: nat, c: nat, high: nat)
    requires n <= |s| && n <= |t| && high < c
    ensures ShiftedRight(t, s, n, n, high, c, high)
  {
    assert s[n..n] == [] && t[n..n] == [] && BasePow(0) == 1;
  }

  lemma ShiftedRightDone(t: seq<Limb>, s: seq<Limb>, n: nat, l: nat, c: nat, high: nat)
    requires ShiftedRight(t, s, 0, n, l, c, high)
    ensures c > 0 && high * BasePow(n) + Value(s[..n]) == Value(t[..n]) * c + Mod(l, c)
  {
    assert s[0..n] == s[..n] && t[0..n] == t[..n];
  }

  /** Shifting a limb left by 32 - shift keeps its low bits only. */
  lemma ShiftedIn(a: Limb, l: Limb, c: nat, g: nat)
    requires c > 0 && g > 0 && c * g == BASE
    ensures l * g % BASE == l % c * g && a / c + l * g % BASE < BASE
    ensures a == a / c * c + a % c
  {
    SplitLimb(l, g, c);
    SplitLimb(a, g, c);
    assert l * g == (l / c) * BASE + l % c * g by { assert ((l / c) * c) * g == (l / c) * (c * g); }
    MulLower(l % c + 1, c, g, g);
    assert (l % c + 1) * g == l % c * g + g;
    DivModUnique(l * g, BASE, l / c, l % c * g);
  }
}
