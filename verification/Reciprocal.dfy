/** Division by a precomputed inverse: udiv1norm and mp_div1norm of dtoa.c,
    with the 32-bit and 64-bit wrap-around of the source written out. */
module Reciprocal {
  import opened PowersOfTwo
  import opened Rounding
  import opened StickyBits
  import opened Limbs

  const HALF: nat := 0x8000_0000
  const BASE2: nat := 0x1_0000_0000_0000_0000

  /** inv is the 32-bit inverse of d: BASE + inv is the greatest integer below
      BASE^2 / d. */
  ghost predicate InverseOf(inv: Limb, d: Limb) {
    BASE2 - d <= (BASE + inv) * d < BASE2
  }

  /** udiv1norm_init */
  method Udiv1NormInit(d: Limb) returns (inv: Limb)
    requires d >= HALF
    ensures InverseOf(inv, d)
  {
    var a1: Limb := BASE - d - 1;
    var a0: Limb := BASE - 1;
    var a := a1 * BASE + a0;
    assert a == BASE2 - 1 - d * BASE;
    QuotientBound(a, d);
    inv := a / d;
    InverseProduct(inv, d, a);
  }

  lemma QuotientBound(a: nat, d: Limb)
    requires d >= HALF && a == BASE2 - 1 - d * BASE
    ensures 0 <= a / d < BASE
  {
    var q := a / d;
    assert a == q * d + a % d;
    if q >= BASE {
      MulLower(BASE, q, d, d);
    }
  }

  lemma InverseProduct(inv: Limb, d: Limb, a: nat)
    requires d >= HALF && a == BASE2 - 1 - d * BASE && inv == a / d
    ensures InverseOf(inv, d)
  {
    assert a == inv * d + a % d;
    assert (BASE + inv) * d == BASE * d + inv * d;
  }

  /** The estimate of the quotient, before any word arithmetic: h is the top bit
      of a0, adj the low word adjusted by d when it is set. */
  lemma EstimateBounds(a1: nat, a0: nat, d: nat, v: nat, k: int, h: nat, adj: int, s: nat, q0: nat)
    requires HALF <= d < BASE && a1 < d && a0 < BASE && v < BASE
    requires 1 <= k <= d && (BASE + v) * d == BASE2 - k
    requires h <= 1 && (h == 1 <==> a0 >= HALF) && adj == a0 + h * (d - BASE)
    requires s == v * (a1 + h) + adj && q0 == s / BASE + a1
    ensures 0 <= adj < BASE && s < BASE2
    ensures 0 <= a1 * BASE + a0 - q0 * d < 2 * d
  {
    var r := s - s / BASE * BASE;
    assert 0 <= r < BASE;
    assert BASE * q0 == s - r + a1 * BASE;
    ScaledEstimate(a1, a0, d, v, k, h, adj, s, q0, r);
    EstimateFits(a1, d, v, k, h, adj, s);
  }

  lemma EstimateFits(a1: nat, d: nat, v: nat, k: int, h: nat, adj: int, s: nat)
    requires HALF <= d < BASE && a1 < d && h <= 1 && 0 <= adj < BASE
    requires 1 <= k && (BASE + v) * d == BASE2 - k
    requires s == v * (a1 + h) + adj
    ensures s < BASE2
  {
    MulLower(a1 + h, d, v, v);
    assert (BASE + v) * d == BASE * d + v * d;
  }

  /** BASE times the remainder the estimate leaves, in terms of the inputs. */
  lemma ScaledEstimate(a1: int, a0: int, d: int, v: int, k: int, h: int, adj: int, s: int, q0: int, r: int)
    requires HALF <= d < BASE && 0 <= a1 < d && 0 <= a0 < BASE
    requires 1 <= k <= d && (BASE + v) * d == BASE2 - k
    requires 0 <= h <= 1 && (h == 1 <==> a0 >= HALF) && adj == a0 + h * (d - BASE)
    requires s == v * (a1 + h) + adj && BASE * q0 == s - r + a1 * BASE && 0 <= r < BASE
    ensures 0 <= adj < BASE
    ensures 0 <= a1 * BASE + a0 - q0 * d < 2 * d
  {
    var vd, a1k, c := v * d, k * a1, BASE - d;
    assert (BASE + v) * d == BASE * d + vd;
    RemainderProducts(a1, a0, d, v, k, h, adj, s, q0, r, vd, a1k);
    var e := BASE * (a1 * BASE + a0 - q0 * d);
    assert e == a0 * BASE + a1k - h * vd - adj * d + r * d;
    LowWordCases(a1, a0, d, k, h, adj, vd, a1k, c);
    MulLower(r, BASE - 1, d, d);
    assert r * d >= 0;
    assert 0 <= e < 2 * (BASE * d);
  }

  lemma RemainderProducts(a1: int, a0: int, d: int, v: int, k: int, h: int, adj: int, s: int, q0: int, r: int, vd: int,
                          a1k: int)
    requires vd == v * d && vd == BASE2 - k - BASE * d && a1k == k * a1 && 0 <= h <= 1
    requires s == v * (a1 + h) + adj && BASE * q0 == s - r + a1 * BASE
    ensures BASE * (a1 * BASE + a0 - q0 * d) == a0 * BASE + a1k - h * vd - adj * d + r * d
  {
    assert BASE * (q0 * d) == (BASE * q0) * d;
    assert (BASE * q0) * d == (v * (a1 + h)) * d + adj * d - r * d + (a1 * BASE) * d;
    assert (v * (a1 + h)) * d == (v * d) * (a1 + h);
    assert vd * (a1 + h) == vd * a1 + h * vd by {
      if h == 0 {} else { assert vd * (a1 + 1) == vd * a1 + vd; }
    }
    assert (BASE2 - k - BASE * d) * a1 == BASE2 * a1 - a1k - (BASE * d) * a1;
    assert (a1 * BASE) * d == (BASE * d) * a1;
  }

  lemma LowWordCases(a1: int, a0: int, d: int, k: int, h: int, adj: int, vd: int, a1k: int, c: int)
    requires HALF <= d < BASE && 0 <= a1 < d && 0 <= a0 < BASE && 1 <= k <= d && c == BASE - d
    requires 0 <= h <= 1 && (h == 1 <==> a0 >= HALF) && adj == a0 + h * (d - BASE)
    requires vd == BASE2 - k - BASE * d && a1k == k * a1
    ensures 0 <= adj < BASE
    ensures 0 <= a0 * BASE + a1k - h * vd - adj * d <= BASE * d
  {
    assert a1k >= 0;
    MulLower(k, d, a1 + 1, a1 + 1);
    assert k * (a1 + 1) == a1k + k;
    MulLower(a1 + 1, d, d, d);
    SplitBase(d, c, a0);
    if h == 0 {
      MulLower(a0, d, c, c);
    } else {
      MulLower(c, a0, c, c);
      MulLower(a0 - c, d, c, c);
      HighHalf(a0, d, c, vd, k);
    }
  }

  lemma SplitBase(d: int, c: int, a0: int)
    requires c == BASE - d
    ensures a0 * BASE - a0 * d == a0 * c && d * c + d * d == BASE * d
    ensures (a0 - c) * c == a0 * c - c * c
  {
  }

  lemma HighHalf(a0: int, d: int, c: int, vd: int, k: int)
    requires c == BASE - d && vd == BASE2 - k - BASE * d
    ensures a0 * BASE - vd - (a0 + d - BASE) * d == a0 * c - c * c + k
  {
    assert (a0 + d - BASE) * d == a0 * d + d * d - BASE * d;
    assert c * c == BASE2 - 2 * (BASE * d) + d * d;
  }

  /** What is left of n when q times d is taken away. */
  function Rest(n: int, q: int, d: int): int {
    n - q * d
  }

  /** x * y + z in 64 bits. */
  function MulAdd64(x: Limb, y: Limb, z: Limb): (a: nat)
    ensures a < BASE2
  {
    (x * y + z) % BASE2
  }

  /** n - q * d - d in 64 bits. */
  function Remainder64(n: nat, q: Limb, d: Limb): (a: nat)
    ensures a < BASE2
  {
    (Rest(n, q, d) - d) % BASE2
  }

  /** The first half of udiv1norm: a quotient that is exact or one too small. */
  method EstimateQuotient(a1: Limb, a0: Limb, d: Limb, inv: Limb) returns (q: Limb)
    requires d >= HALF && a1 < d && InverseOf(inv, d)
    ensures 0 <= Rest(a1 * BASE + a0, q, d) < 2 * d
  {
    hide InverseOf, Rest, MulAdd64;
    var n1m: Limb := if a0 >= HALF then BASE - 1 else 0;
    var nAdj: Limb := (a0 + (if n1m == 0 then 0 else d)) % BASE;
    var a := MulAdd64(inv, (a1 - n1m) % BASE, nAdj);
    q := (a / BASE + a1) % BASE;
    EstimateWords(a1, a0, d, inv, n1m, nAdj, a, q);
  }

  /** udiv1norm: the quotient and remainder of a1 * BASE + a0 by d. */
  method Udiv1Norm(a1: Limb, a0: Limb, d: Limb, inv: Limb) returns (q: Limb, r: Limb)
    requires d >= HALF && a1 < d && InverseOf(inv, d)
    ensures a1 * BASE + a0 == q * d + r && r < d
  {
    hide InverseOf, Rest, Remainder64;
    q := EstimateQuotient(a1, a0, d, inv);
    var n := a1 * BASE + a0;
    var a := Remainder64(n, q, d);
    CorrectionWords(n, q, d, a);
    var ah: Limb := a / BASE;
    q, r := (q + 1 + ah) % BASE, (a % BASE + (if ah == 0 then 0 else d)) % BASE;
    RestDone(n, q, d, r);
  }

  lemma RestDone(n: int, q: int, d: int, r: int)
    requires Rest(n, q, d) == r
    ensures n == q * d + r
  {
  }

  lemma EstimateWords(a1: Limb, a0: Limb, d: Limb, inv: Limb, n1m: Limb, nAdj: Limb, a: nat, q0: Limb)
    requires d >= HALF && a1 < d && InverseOf(inv, d)
    requires n1m == if a0 >= HALF then BASE - 1 else 0
    requires nAdj == (a0 + (if n1m == 0 then 0 else d)) % BASE
    requires a == MulAdd64(inv, (a1 - n1m) % BASE, nAdj)
    requires q0 == (a / BASE + a1) % BASE
    ensures 0 <= Rest(a1 * BASE + a0, q0, d) < 2 * d
  {
    var h := if a0 >= HALF then 1 else 0;
    hide InverseOf, Rest, MulAdd64;
    assert (a1 - n1m) % BASE == a1 + h;
    assert nAdj == a0 + h * (d - BASE);
    TrialQuotient(a1, a0, d, inv, h, nAdj, a, a / BASE + a1);
  }

  lemma TrialQuotient(a1: Limb, a0: Limb, d: Limb, inv: Limb, h: nat, adj: Limb, a: nat, q: nat)
    requires d >= HALF && a1 < d && InverseOf(inv, d)
    requires h <= 1 && (h == 1 <==> a0 >= HALF) && adj == a0 + h * (d - BASE)
    requires a1 + h < BASE && a == MulAdd64(inv, a1 + h, adj) && q == a / BASE + a1
    ensures q < BASE && 0 <= Rest(a1 * BASE + a0, q, d) < 2 * d
  {
    var s := inv * (a1 + h) + adj;
    assert s >= 0 by { MulLower(0, inv, a1 + h, 0); }
    EstimateBounds(a1, a0, d, inv, BASE2 - (BASE + inv) * d, h, adj, s, s / BASE + a1);
    assert a == s;
    NoWrap(a1, a0, d, q);
  }

  lemma NoWrap(a1: nat, a0: nat, d: nat, q: nat)
    requires 0 < d < BASE && a1 < d && a0 < BASE && a1 * BASE + a0 - q * d >= 0
    ensures q < BASE
  {
    if q >= BASE {
      MulLower(BASE, q, d, d);
    }
  }

  /** The sign of the trial remainder shows in the high word. */
  lemma CorrectionWords(n: nat, q: Limb, d: Limb, a: nat)
    requires d >= HALF && 0 <= Rest(n, q, d) < 2 * d && a == Remainder64(n, q, d) && n < d * BASE
    ensures if Rest(n, q, d) < d
            then a / BASE == BASE - 1 && a % BASE + d - BASE == Rest(n, q, d)
            else && a / BASE == 0 && a % BASE == Rest(n, q, d) - d
                 && q + 1 < BASE && Rest(n, q + 1, d) == Rest(n, q, d) - d
  {
    NextQuotient(n, q, d);
    var e: int := Rest(n, q, d) - d;
    hide Rest;
    if e < 0 {
      assert a == e + BASE2;
      assert a == (BASE - 1) * BASE + (BASE + e);
    } else {
      assert a == e;
    }
  }

  lemma NextQuotient(n: nat, q: int, d: Limb)
    requires q >= 0 && d > 0
    ensures Rest(n, q + 1, d) == Rest(n, q, d) - d
    ensures n < d * BASE && Rest(n, q + 1, d) >= 0 ==> q + 1 < BASE
  {
    assert (q + 1) * d == q * d + d;
    MulLower(BASE, if q + 1 >= BASE then q + 1 else BASE, d, d);
  }

  // ----- mp_div1norm -----

  /** The loop of mp_div1norm: division by a normalised limb. */
  method DivideNormalized(tabr: array<Limb>, taba: array<Limb>, n: nat, b: Limb, r0: Limb, inv: Limb) returns (r: Limb)
    requires n <= tabr.Length && n <= taba.Length && b >= HALF && r0 < b && InverseOf(inv, b)
    modifies tabr
    ensures r < b
    ensures r0 * BasePow(n) + old(Value(taba[..n])) == Value(tabr[..n]) * b + r
    ensures tabr[n..] == old(tabr[n..])
  {
    ghost var s := taba[..];
    DividedStart(tabr[..], s, n, r0, b);
    hide *;
    r := r0;
    var i := n;
    while i > 0
      invariant 0 <= i <= n && r < b
      invariant Divided(tabr[..], s, i, n, r0, b, r)
      invariant taba[..i] == s[..i]
      invariant tabr[n..] == old(tabr[n..])
    {
      i := i - 1;
      assert taba[i] == taba[..i + 1][i] == s[i];
      ghost var t, rest := tabr[..], r;
      var q;
      q, r := Udiv1Norm(r, taba[i], b, inv);
      tabr[i] := q;
      DivideLimb(t, s, i + 1, n, r0, b, rest, q, r);
      assert tabr[..] == t[i := q];
    }
    DividedDone(tabr[..], s, n, r0, b, r);
    assert s[..n] == old(taba[..n]) && tabr[..][..n] == tabr[..n];
  }

  /** Dividing the shifted operand by the shifted divisor. */
  lemma ShiftedDivision(v: nat, w: nat, c: nat, b: nat, d: nat, q: nat, r: nat)
    requires c > 0 && b == d * c && w == v * c && w == q * b + r && r < b
    ensures r % c == 0 && v == q * d + r / c && r / c < d
  {
    assert q * b == (q * d) * c by { MulAssocInt(q, d, c); }
    var k := v - q * d;
    assert r == k * c;
    ModMultiple(k, c);
    if k >= d {
      MulLower(d, k, c, c);
    }
  }

  /** The quotient and remainder when the shifted divisor divides an operand of
      which only the incoming remainder was shifted. */
  ghost predicate DividesUnshifted(v: nat, n: nat, b: nat, r0: nat, shift: nat, q: nat, r: nat) {
    exists carry: nat, rest: nat ::
      && carry * BasePow(n) <= v * Pow2(shift) < (carry + 1) * BasePow(n)
      && (r0 * Pow2(shift) + carry) * BasePow(n) + v == q * b + rest && rest < b && r == rest / Pow2(shift)
  }

  /** mp_div1norm, with b = d << shift and its inverse: division by d in place,
      or into another array when there is nothing to shift.  Otherwise the loop
      reads the operand where it was not shifted. */
  method MpDiv1Norm(tabr: array<Limb>, taba: array<Limb>, n: nat, b: Limb, r0: Limb, inv: Limb, shift: nat,
                    ghost d: nat)
    returns (r: Limb)
    requires n <= tabr.Length && n <= taba.Length && b >= HALF && InverseOf(inv, b)
    requires shift < 32 && b == d * Pow2(shift) && r0 < d
    modifies tabr
    ensures tabr == taba || shift == 0 ==> r < d && r0 * BasePow(n) + old(Value(taba[..n])) == Value(tabr[..n]) * d + r
    ensures tabr != taba && shift != 0 ==> DividesUnshifted(old(Value(taba[..n])), n, b, r0, shift, Value(tabr[..n]), r)
    ensures tabr[n..] == old(tabr[n..])
  {
    ghost var v := Value(taba[..n]);
    hide *;
    r := r0;
    ghost var carry: nat := 0;
    NothingToShift(r0, d, b, v, n);
    if shift != 0 {
      r, carry := ShiftOperand(tabr, taba, n, b, r, shift, d);
    }
    ghost var w, top := Value(taba[..n]), r;
    r := DivideNormalized(tabr, taba, n, b, r, inv);
    ghost var rest, q := r, Value(tabr[..n]);
    DivBelow(r, Pow2(shift));
    r := Div(r, Pow2(shift));
    Outcome(tabr == taba || shift == 0, v, w, r0, top, carry, n, b, shift, d, q, rest, r);
  }

  lemma NothingToShift(r0: nat, d: nat, b: nat, v: nat, n: nat)
    ensures Pow2(0) == 1 && r0 * Pow2(0) == r0 && d * Pow2(0) == d && v * Pow2(0) == v && v + 0 * BasePow(n) == v
  {
  }

  lemma Outcome(shifted: bool, v: nat, w: nat, r0: nat, top: nat, carry: nat, n: nat, b: nat, shift: nat, d: nat,
                q: nat, rest: nat, r: nat)
    requires top == r0 * Pow2(shift) + carry && top * BasePow(n) + w == q * b + rest && rest < b
    requires b == d * Pow2(shift) && r == rest / Pow2(shift)
    requires if shifted then w + carry * BasePow(n) == v * Pow2(shift)
             else w == v && carry * BasePow(n) <= v * Pow2(shift) < (carry + 1) * BasePow(n)
    ensures shifted ==> r < d && r0 * BasePow(n) + v == q * d + r
    ensures !shifted ==> DividesUnshifted(v, n, b, r0, shift, q, r)
  {
    hide *;
    if shifted {
      ShiftedOperand(v, w, r0, top, carry, n, shift);
      ShiftedDivision(r0 * BasePow(n) + v, top * BasePow(n) + w, Pow2(shift), b, d, q, rest);
    } else {
      UnshiftedIntro(v, n, b, r0, shift, q, r, carry, rest);
    }
  }

  lemma ShiftedOperand(v: nat, w: nat, r0: nat, top: nat, carry: nat, n: nat, shift: nat)
    requires top == r0 * Pow2(shift) + carry && w + carry * BasePow(n) == v * Pow2(shift)
    ensures top * BasePow(n) + w == (r0 * BasePow(n) + v) * Pow2(shift)
  {
    var p, c := BasePow(n), Pow2(shift);
    hide *;
    MulAssocInt(r0, c, p);
    MulAssocInt(r0, p, c);
    assert c * p == p * c;
    assert (r0 * c + carry) * p == (r0 * c) * p + carry * p;
    assert (r0 * p + v) * c == (r0 * p) * c + v * c;
  }

  lemma UnshiftedIntro(v: nat, n: nat, b: nat, r0: nat, shift: nat, q: nat, r: nat, carry: nat, rest: nat)
    requires carry * BasePow(n) <= v * Pow2(shift) < (carry + 1) * BasePow(n)
    requires (r0 * Pow2(shift) + carry) * BasePow(n) + v == q * b + rest && rest < b && r == rest / Pow2(shift)
    ensures DividesUnshifted(v, n, b, r0, shift, q, r)
  {
    hide Pow2, BasePow;
  }

  /** The normalising shift of mp_div1norm. */
  method ShiftOperand(tabr: array<Limb>, taba: array<Limb>, n: nat, b: Limb, r0: Limb, shift: nat, ghost d: nat)
    returns (l: Limb, ghost carry: nat)
    requires n <= tabr.Length && n <= taba.Length && 1 <= shift < 32 && b == d * Pow2(shift) && r0 < d
    modifies tabr
    ensures l < b && l == r0 * Pow2(shift) + carry
    ensures Value(tabr[..n]) + carry * BasePow(n) == old(Value(taba[..n])) * Pow2(shift)
    ensures carry * BasePow(n) <= old(Value(taba[..n])) * Pow2(shift) < (carry + 1) * BasePow(n)
    ensures tabr[n..] == old(tabr[n..])
  {
    hide Value, BasePow, Pow2;
    var low := MpShl(tabr, taba, n, shift, 0);
    carry := low;
    ValueBound(tabr[..n]);
    NextMultiple(carry, BasePow(n));
    ShiftedCarry(r0, d, Pow2(shift), low);
    l := r0 * Pow2(shift) + low;
  }

  lemma NextMultiple(a: nat, p: nat)
    ensures (a + 1) * p == a * p + p
  {
  }

  lemma DivBelow(r: Limb, c: nat)
    requires c > 0
    ensures Div(r, c) < BASE && Div(r, c) == r / c
  {
    DivMod(r, c);
    MulLower(1, c, Div(r, c), Div(r, c));
  }

  /** The shifted remainder and the bits that follow it are below the divisor. */
  lemma ShiftedCarry(r0: nat, d: nat, c: nat, low: nat)
    requires r0 < d && low < c
    ensures r0 * c + low < d * c
  {
    MulLower(r0 + 1, d, c, c);
    NextMultiple(r0, c);
  }

  /** Dividing the limb 1 by 1 into another array gives 0. */
  lemma UnshiftedExample(q: nat, r: nat)
    requires DividesUnshifted(1, 1, HALF, 0, 31, q, r)
    ensures q == 0 && r == 0
  {
    assert Pow2(31) == HALF && BasePow(1) == BASE by { Pow2Values(); }
    hide Pow2, BasePow;
  }
}
