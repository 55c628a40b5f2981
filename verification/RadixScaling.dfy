/** mul_pow and mul_pow_round of dtoa.c: scaling a bignum by a power of the
    radix, exactly or with one sticky bit, and rounding the result. */
module RadixScaling {
  import opened PowersOfTwo
  import opened Rounding
  import opened StickyBits
  import opened Limbs
  import opened Reciprocal
  import opened RadixPowers
  import opened RadixTables
  import opened Bignum

  /** x = v * b^f, for f of either sign. */
  ghost predicate RadixScaled(x: real, v: real, b: nat, f: int) {
    if f >= 0 then x == v * (Pow(b, f) as real)
    else x * (Pow(b, 0 - f) as real) == v
  }

  // ----- the exponent split: b = radix1 * 2^s -----

  /** Scaling by b^f is scaling by radix1^f and by a power of two. */
  lemma SplitRadix(x: real, y: real, v: real, b: nat, r: nat, s: nat, f: int)
    requires b == r * Pow2(s) && r > 0 && RadixScaled(x, v, b, f) && IsScaled(y, x, 0 - f * s)
    ensures RadixScaled(y, v, r, f)
  {
    hide Pow, Pow2, Exp2;
    var n := if f >= 0 then f else 0 - f;
    PowProduct(r, Pow2(s), n);
    PowOfPow2(s, n);
    IsScaledElim(y, x, 0 - f * s);
    CastPower(r, s, n, Pow(b, n));
    Exp2Inverse(s * n);
    Exp2Nat(s * n);
    assert s * n == if f >= 0 then f * s else 0 - f * s;
    var p, e, e' := Pow(r, n) as real, Exp2(s * n), Exp2(0 - s * n);
    if f >= 0 {
      MoveFactor(x, v, p, e, y, e');
    } else {
      MoveFactorBack(x, v, p, e, y);
    }
  }

  lemma CastPower(r: nat, s: nat, n: nat, p: nat)
    requires p == Pow(r, n) * Pow2(s * n)
    ensures p as real == (Pow(r, n) as real) * (Pow2(s * n) as real)
  {
  }

  lemma MoveFactor(x: real, v: real, p: real, e: real, y: real, e': real)
    requires x == v * (p * e) && y == x * e' && e * e' == 1.0
    ensures y == v * p
  {
    MulAssoc(v, p, e);
    MulAssoc(v * p, e, e');
  }

  lemma MoveFactorBack(x: real, v: real, p: real, e: real, y: real)
    requires x * (p * e) == v && y == x * e
    ensures y * p == v
  {
    MulAssoc(x, e, p);
    assert e * p == p * e;
  }

  // ----- limb groups of the power -----

  /** The number of groups of at most d digits that f digits make. */
  function Groups(f: nat, d: nat): nat
    requires d > 0
  {
    (f + d - 1) / d
  }

  lemma GroupStep(f: nat, d: nat)
    requires d > 0 && f > 0
    ensures Groups(f - Least(f, d), d) + 1 == Groups(f, d)
  {
    if f <= d {
      DivModUnique(f + d - 1, d, 1, f - 1);
      DivModUnique(d - 1, d, 0, d - 1);
    } else {
      var q, r := (f - 1) / d, (f - 1) % d;
      assert f - 1 == q * d + r;
      DivModUnique(f + d - 1, d, q + 1, r);
      DivModUnique(f - d + d - 1, d, q, r);
    }
  }

  lemma GroupsZero(d: nat)
    requires d > 0
    ensures Groups(0, d) == 0
  {
    DivModUnique(d - 1, d, 0, d - 1);
  }

  /** Each group is below one limb. */
  lemma {:induction false} PowerWithinGroups(b: Radix, f: nat)
    requires b % 2 == 1
    ensures DigitsPerLimb(b) > 0 && 0 < Pow(b, f) <= BasePow(Groups(f, DigitsPerLimb(b)))
    decreases f
  {
    TableWidths(b);
    var d := DigitsPerLimb(b);
    PowPositive(b, f);
    hide DigitsPerLimb, Groups;
    if f == 0 {
      PowZero(b);
      GroupsZero(d);
    } else {
      var n := Least(f, d);
      GroupStep(f, d);
      PowerWithinGroups(b, f - n);
      OddPowerFits(b, n);
      PowAdd(b, n, f - n);
      NextPower(Groups(f - n, d));
      hide Pow, BasePow;
      MulLower(Pow(b, n), BASE, BasePow(Groups(f - n, d)), Pow(b, f - n));
    }
  }

  // ----- multiplying by radix1^f -----

  method MulPowUp(a: Mpb, b: Radix, f0: nat)
    requires a.Valid() && a.Normal() && a.V() > 0 && b % 2 == 1
    requires DigitsPerLimb(b) > 0 && a.len + Groups(f0, DigitsPerLimb(b)) <= a.tab.Length
    modifies a, a.tab
    ensures a.Valid() && a.Normal() && a.V() == old(a.V()) * Pow(b, f0) && a.V() > 0
    ensures a.len <= old(a.len) + Groups(f0, DigitsPerLimb(b))
  {
    hide *;
    TableWidths(b);
    var d := DigitsPerLimb(b);
    var f: nat := f0;
    var factor: Limb, n0: nat := 0, 0;
    while f != 0
      invariant a.Valid() && a.Normal() && a.V() > 0 && f <= f0
      invariant a.V() * Pow(b, f) == old(a.V()) * Pow(b, f0)
      invariant n0 != 0 ==> n0 <= d && factor == Pow(b, n0)
      invariant a.len + Groups(f, d) <= old(a.len) + Groups(f0, d)
    {
      var n := Least(f, d);
      LeastRange(f, d);
      if n != n0 {
        factor := PowOfRadix(b, n);
        n0 := n;
      }
      OddPowerFits(b, n);
      GroupStep(f, d);
      ghost var v := a.V();
      MulLimb(a, factor);
      PowAdd(b, n, f - n);
      Reassociate(v, factor, Pow(b, f - n), Pow(b, f));
      f := f - n;
    }
    GroupsZero(d);
    PowZero(b);
  }

  lemma LeastRange(f: nat, d: nat)
    requires f > 0 && d > 0
    ensures 0 < Least(f, d) <= f && Least(f, d) <= d
  {
  }

  lemma Reassociate(v: nat, p: nat, q: nat, pq: nat)
    requires pq == p * q
    ensures (v * p) * q == v * pq
  {
    MulAssocInt(v, p, q);
  }

  /** pow_ui for one group of digits. */
  method PowOfRadix(b: Radix, n: nat) returns (p: Limb)
    requires b % 2 == 1 && n <= DigitsPerLimb(b)
    ensures p == Pow(b, n)
  {
    OddPowerFits(b, n);
    hide Pow;
    var r := PowUi(b, n);
    p := r;
  }

  /** a *= factor */
  method MulLimb(a: Mpb, factor: Limb)
    requires a.Valid() && a.Normal() && a.V() > 0 && factor > 0 && a.len < a.tab.Length
    modifies a, a.tab
    ensures a.Valid() && a.Normal() && a.V() == old(a.V()) * factor && a.V() > 0
    ensures a.len <= old(a.len) + 1
  {
    hide Value, BasePow;
    ghost var s := a.tab[..a.len];
    var h := MpMul1(a.tab, a.tab, a.len, factor, 0);
    MulLower(1, factor, Value(s), Value(s));
    if h != 0 {
      a.Append(h);
    } else {
      TopKept(s, a.tab[..a.len], a.V() - Value(s));
    }
  }

  // ----- dividing by radix1^f -----

  /** s = v * p + r with 0 <= r < p: dividing so far by p. */
  ghost predicate DividedBy(s: nat, v: nat, p: nat, inexact: bool) {
    exists r: nat :: r < p && DivisionRest(s, v, p, r) && (inexact <==> r != 0)
  }

  predicate DivisionRest(s: nat, v: nat, p: nat, r: nat) {
    s == v * p + r
  }

  lemma DivideFurther(s: nat, v: nat, p: nat, inexact: bool, v': nat, d: nat, r': nat, p': nat)
    requires DividedBy(s, v, p, inexact) && v == v' * d + r' && r' < d && p' == p * d
    ensures DividedBy(s, v', p', inexact || r' != 0)
  {
    var r: nat :| r < p && DivisionRest(s, v, p, r) && (inexact <==> r != 0);
    var t := r' * p + r;
    FurtherRest(s, v, p, r, v', d, r', p', t);
    assert DivisionRest(s, v', p', t);
  }

  lemma FurtherRest(s: int, v: int, p: int, r: int, v': int, d: int, r': int, p': int, t: int)
    requires s == v * p + r && v == v' * d + r' && 0 <= r' < d && p' == p * d && 0 <= r < p && t == r' * p + r
    ensures s == v' * p' + t && 0 <= t < p' && (t != 0 <==> r' != 0 || r != 0)
  {
    assert (v' * d + r') * p == (v' * d) * p + r' * p;
    assert (v' * d) * p == v' * (p * d);
    MulLower(r', d - 1, p, p);
    assert (d - 1) * p == d * p - p;
    assert r' * p >= 0;
    if r' > 0 {
      MulLower(1, r', p, p);
    }
  }

  lemma DividedStart(s: nat)
    ensures DividedBy(s, s, 1, false)
  {
    assert DivisionRest(s, s, 1, 0);
  }

  /** The floor and the sticky bit stand for the exact quotient. */
  lemma QuotientAgrees(s: nat, v: nat, p: nat, inexact: bool, w: real)
    requires DividedBy(s, v, p, inexact) && p > 0 && s as real == w * (p as real)
    ensures Agree(w, OrBit0(v, inexact), 2)
  {
    var r: nat :| r < p && DivisionRest(s, v, p, r) && (inexact <==> r != 0);
    AgreeExact(s, 2);
    hide Agree, OrBit0;
    AgreeDivide(s as real, s, 2, p, v, r, w);
  }

  /** The division loop of mul_pow. */
  method DivPow(a: Mpb, b: Radix, f0: nat) returns (rem: Limb)
    requires a.Valid() && a.Normal() && b % 2 == 1
    modifies a, a.tab
    ensures a.Valid() && a.Normal() && a.len <= old(a.len)
    ensures DividedBy(old(a.V()), a.V(), Pow(b, f0), rem != 0)
  {
    hide *;
    TableWidths(b);
    var d := DigitsPerLimb(b);
    var f: nat := f0;
    var factor: Limb, inv: Limb, shift: nat, n0: nat := HALF_LIMB, 0, 0, 0;
    rem := 0;
    ghost var s := a.V();
    DividedStart(s);
    PowZero(b);
    while f != 0
      invariant a.Valid() && a.Normal() && f <= f0 && a.len <= old(a.len)
      invariant DividedBy(s, a.V(), Pow(b, f0 - f), rem != 0)
      invariant n0 != 0 ==> n0 <= d && IsDivisor(factor, inv, shift, Pow(b, n0))
    {
      var n := Least(f, d);
      LeastRange(f, d);
      OddPowerFits(b, n);
      if n != n0 {
        factor, inv, shift := PowUiInv(b, n);
        IsDivisorIntro(factor, inv, shift, Pow(b, n));
        n0 := n;
      }
      ghost var v := a.V();
      var r := DivLimb(a, factor, inv, shift, Pow(b, n));
      PowAdd(b, f0 - f, n);
      DivideFurther(s, v, Pow(b, f0 - f), rem != 0, a.V(), Pow(b, n), r, Pow(b, f0 - f + n));
      rem := OrLimb(rem, r);
      f := f - n;
    }
  }

  const HALF_LIMB: Limb := 0x8000_0000

  /** rem | r, as far as being zero goes. */
  function OrLimb(x: Limb, y: Limb): (z: Limb)
    ensures z != 0 <==> x != 0 || y != 0
  {
    ((x as bv32) | (y as bv32)) as Limb
  }

  ghost predicate IsDivisor(factor: Limb, inv: Limb, shift: nat, p: nat) {
    shift < 32 && factor == p * Pow2(shift) && factor >= HALF && InverseOf(inv, factor)
  }

  lemma IsDivisorIntro(factor: Limb, inv: Limb, shift: nat, p: nat)
    requires shift < 32 && factor == p * Pow2(shift) && factor >= HALF && InverseOf(inv, factor)
    ensures IsDivisor(factor, inv, shift, p)
  {
  }

  /** a /= d, given by its normalised form; the result is the remainder. */
  method DivLimb(a: Mpb, factor: Limb, inv: Limb, shift: nat, ghost d: nat) returns (r: Limb)
    requires a.Valid() && IsDivisor(factor, inv, shift, d)
    modifies a, a.tab
    ensures a.Valid() && a.Normal() && a.len <= old(a.len)
    ensures r < d && old(a.V()) == a.V() * d + r
  {
    hide Value, BasePow, Pow2, InverseOf;
    DivisorPositive(factor, shift, d);
    r := MpDiv1Norm(a.tab, a.tab, a.len, factor, 0, inv, shift, d);
    a.Renorm();
  }

  lemma DivisorPositive(factor: Limb, shift: nat, d: nat)
    requires factor == d * Pow2(shift) && factor >= HALF
    ensures d > 0
  {
    hide Pow2;
  }

  lemma QuotientLower(s: nat, v: nat, p: nat, inexact: bool, k: nat)
    requires DividedBy(s, v, p, inexact) && k * p <= s && p > 0
    ensures k <= v
  {
    var r: nat :| r < p && DivisionRest(s, v, p, r) && (inexact <==> r != 0);
    if v < k {
      ScaleBound(v, k, p);
    }
  }

  /** mpb_floor_log2: the position of the top bit, or -1. */
  method MpbFloorLog2(a: Mpb) returns (n: int)
    requires a.Valid() && a.Normal()
    ensures n == BitLength(a.V()) - 1
  {
    hide Value, BasePow, Pow2, BitLength;
    var v := a.tab[a.len - 1];
    TopNonzero(a.tab[..a.len]);
    if v == 0 {
      ZeroBits();
      n := -1;
    } else {
      TopBitLength(a.tab[..a.len]);
      n := a.len * 32 - 1 - Clz32(v);
    }
  }

  lemma ZeroBits()
    ensures BitLength(0) == 0
  {
  }

  lemma TopBitLength(s: seq<Limb>)
    requires |s| > 0 && s[|s| - 1] != 0
    ensures BitLength(Value(s)) == 32 * |s| - Clz32(s[|s| - 1])
  {
    var n, t := |s| - 1, s[|s| - 1];
    assert s == s[..n] + [t];
    ValueSnoc(s[..n], t);
    ValueBound(s[..n]);
    BasePowIsPow2(n);
    hide Value, BasePow, Pow2, BitLength;
    TopBits(Value(s), Value(s[..n]), t, n, Pow2(32 * n));
  }

  lemma TopBits(v: nat, lo: nat, t: Limb, n: nat, p: nat)
    requires t > 0 && p == Pow2(32 * n) && v == lo + t * p && lo < p
    ensures BitLength(v) == 32 * n + BitLength(t)
  {
    var k := BitLength(t);
    BitLengthBounds(t);
    hide Pow2, BitLength;
    Pow2Add(k - 1, 32 * n);
    Pow2Add(k, 32 * n);
    MulLower(Pow2(k - 1), t, p, p);
    MulLower(t + 1, Pow2(k), p, p);
    NextGridPoint(t, p);
    BitLengthUnique(v, k + 32 * n);
  }

  /** The sticky bit ORed into the lowest limb. */
  method SetSticky(a: Mpb, flag: bool)
    requires a.Valid() && a.Normal()
    modifies a.tab
    ensures a.Valid() && a.Normal() && a.V() == OrBit0(old(a.V()), flag)
  {
    ghost var s := a.tab[..a.len];
    if flag {
      a.tab[0] := a.tab[0] - a.tab[0] % 2 + 1;
      assert a.tab[..a.len] == s[0 := s[0] - s[0] % 2 + 1];
      StickyValue(s);
    }
  }

  lemma StickyValue(s: seq<Limb>)
    requires |s| > 0
    ensures Value(s[0 := s[0] - s[0] % 2 + 1]) == OrBit0(Value(s), true)
  {
    var t := s[0 := s[0] - s[0] % 2 + 1];
    assert t[1..] == s[1..];
  }

  // ----- mul_pow -----

  /** radix1 and radix_shift of a radix. */
  ghost predicate RadixSplit(b: Radix, radix1: nat, shift: nat) {
    b == radix1 * Pow2(shift) && radix1 % 2 == 1 && radix1 <= 36
  }

  lemma SplitOf(b: Radix)
    ensures RadixSplit(b, OddPart(b), Ctz32(b))
  {
    RadixParts(b);
  }

  /** The bits that mul_pow appends below the binary point of a quotient by n
      digits, at most. */
  function AppendedBits(radix1: Radix, shift: nat, n: nat, isInt: bool, e: int): nat {
    var l := LimbGroups(n, radix1);
    32 * l + (if isInt then Greatest(2 + e - (n * shift + 32 * l), 0) else Greatest(e, 0))
  }

  function Greatest(a: int, b: int): int { if a < b then b else a }

  function LimbGroups(n: nat, radix1: Radix): nat {
    TableWidths(radix1);
    Groups(n, DigitsPerLimb(radix1))
  }

  /** The limbs that mul_pow can add. */
  function ExtraLimbs(radix1: nat, shift: nat, f: int, isInt: bool, e: int): nat
    requires radix1 <= 36
  {
    if radix1 < 2 then 0
    else if f >= 0 then LimbGroups(f, radix1)
    else AppendedBits(radix1, shift, 0 - f, isInt, e) / 32 + 1
  }

  /** mul_pow: a * b^f is a' * 2^-e_offset, exactly or up to a sticky bit. */
  method MulPow(a: Mpb, radix1: nat, shift: nat, f: int, isInt: bool, e: int, ghost b: Radix, ghost x: real)
    returns (eOffset: int)
    requires a.Valid() && a.Normal() && a.V() > 0 && RadixSplit(b, radix1, shift)
    requires RadixScaled(x, a.V() as real, b, f) && (isInt || e >= 0)
    requires a.len + ExtraLimbs(radix1, shift, f, isInt, e) <= a.tab.Length
    modifies a, a.tab
    ensures a.Valid() && a.Normal() && a.V() > 0
    ensures a.len <= old(a.len) + ExtraLimbs(radix1, shift, f, isInt, e)
    ensures Agree(ScaleBy(x, eOffset), a.V(), if f < 0 && radix1 != 1 then 2 else 1)
    ensures f < 0 && radix1 != 1 ==> if isInt then eOffset - e >= 2 else a.V() >= Pow2(e)
    ensures f >= 0 || radix1 == 1 ==> eOffset == 0 - f * shift
  {
    hide Value, BasePow, Pow2, Exp2, Pow, BitLength, RadixScaled, IsScaled, ScaleBy, Agree, RadixSplit;
    hide Groups, DigitsPerLimb, AppendedBits;
    RadixSplitElim(b, radix1, shift);
    eOffset := 0 - f * shift;
    ghost var y := ScaleBy(x, eOffset);
    SplitRadix(x, y, a.V() as real, b, radix1, shift, f);
    if radix1 == 1 {
      UnitScale(y, a.V(), f);
    } else if f >= 0 {
      ghost var v := a.V();
      TableWidths(radix1);
      MulPowUp(a, radix1, f);
      UpScale(y, v, radix1, f, a.V());
    } else {
      var more := DivPowScaled(a, radix1, shift, f, isInt, e, y);
      ScaleByTwice(x, y, eOffset, more);
      eOffset := eOffset + more;
    }
  }

  lemma RadixSplitElim(b: Radix, radix1: nat, shift: nat)
    requires RadixSplit(b, radix1, shift)
    ensures b == radix1 * Pow2(shift) && radix1 % 2 == 1 && 1 <= radix1 <= 36
  {
  }

  lemma ScaleByTwice(x: real, y: real, e1: int, e2: int)
    requires y == ScaleBy(x, e1)
    ensures ScaleBy(y, e2) == ScaleBy(x, e1 + e2)
  {
    hide ScaleBy, IsScaled, Exp2;
    var z := ScaleBy(y, e2);
    ScaleTrans(z, y, x, e2, e1);
    ScaleOrder(z, ScaleBy(x, e1 + e2), x, x, e1 + e2);
  }

  lemma {:induction false} PowOfOne(n: nat)
    ensures Pow(1, n) == 1
  {
    if n > 0 {
      PowOfOne(n - 1);
    }
  }

  lemma UnitScale(y: real, v: nat, f: int)
    requires RadixScaled(y, v as real, 1, f)
    ensures Agree(y, v, 1)
  {
    PowOfOne(if f < 0 then 0 - f else f);
    hide Pow;
    AgreeExact(v, 1);
  }

  lemma UpScale(y: real, v: nat, r: nat, f: nat, v': nat)
    requires RadixScaled(y, v as real, r, f) && v' == v * Pow(r, f)
    ensures Agree(y, v', 1)
  {
    hide Pow;
    AgreeExact(v', 1);
  }

  /** The division branch of mul_pow. */
  method DivPowScaled(a: Mpb, radix1: Radix, shift: nat, f: int, isInt: bool, e: int, ghost y: real)
    returns (more: nat)
    requires a.Valid() && a.Normal() && a.V() > 0 && radix1 % 2 == 1 && f < 0
    requires RadixScaled(y, a.V() as real, radix1, f) && (isInt || e >= 0)
    requires a.len + AppendedBits(radix1, shift, 0 - f, isInt, e) / 32 + 1 <= a.tab.Length
    modifies a, a.tab
    ensures a.Valid() && a.Normal() && a.V() > 0
    ensures a.len <= old(a.len) + AppendedBits(radix1, shift, 0 - f, isInt, e) / 32 + 1
    ensures Agree(ScaleBy(y, more), a.V(), 2)
    ensures if isInt then (0 - f) * shift + more - e >= 2 else a.V() >= Pow2(e)
  {
    hide *;
    var n: nat := 0 - f;
    var l := LimbGroups(n, radix1);
    ghost var v := a.V();
    var extra := ExtraBits(a, radix1, shift, n, isInt, e);
    more := l * 32 + extra;
    AppendedIs(radix1, shift, n, isInt, e, v, extra);
    a.ShrRound(0 - more, RNDZ);
    ghost var s := a.V();
    var rem := DivPow(a, radix1, n);
    ghost var q := a.V();
    SetSticky(a, rem != 0);
    QuotientScale(y, v, radix1, n, more, s);
    QuotientAgreesScaled(ScaleBy(y, more), s, q, radix1, n, rem != 0);
    QuotientSize(v, s, q, radix1, n, l, extra, rem != 0, if isInt then 0 else e);
  }

  /** extra_bits in mul_pow */
  method ExtraBits(a: Mpb, radix1: Radix, shift: nat, n: nat, isInt: bool, e: int) returns (extra: nat)
    requires a.Valid() && a.Normal() && a.V() > 0
    ensures extra == ExtraBitsOf(radix1, shift, n, isInt, e, a.V())
  {
    hide LimbGroups, Value, BasePow;
    if isInt {
      extra := Greatest(2 + e - (n * shift + LimbGroups(n, radix1) * 32), 0);
    } else {
      var top := MpbFloorLog2(a);
      extra := Greatest(e - top, 0);
    }
  }

  function ExtraBitsOf(radix1: Radix, shift: nat, n: nat, isInt: bool, e: int, v: nat): nat {
    if isInt then Greatest(2 + e - (n * shift + LimbGroups(n, radix1) * 32), 0)
    else Greatest(e - (BitLength(v) - 1), 0)
  }

  /** The appended bits stay within the bound and are enough. */
  lemma AppendedIs(radix1: Radix, shift: nat, n: nat, isInt: bool, e: int, v: nat, extra: nat)
    requires v > 0 && (isInt || e >= 0) && extra == ExtraBitsOf(radix1, shift, n, isInt, e, v)
    ensures LimbGroups(n, radix1) * 32 + extra <= AppendedBits(radix1, shift, n, isInt, e)
    ensures (LimbGroups(n, radix1) * 32 + extra) / 32 <= AppendedBits(radix1, shift, n, isInt, e) / 32
    ensures isInt ==> n * shift + (LimbGroups(n, radix1) * 32 + extra) - e >= 2
    ensures BitLength(v) >= 1 && (!isInt ==> e <= BitLength(v) - 1 + extra)
  {
    BitLengthBounds(v);
    hide LimbGroups, BitLength;
  }

  lemma QuotientScale(y: real, v: nat, r: Radix, n: nat, more: nat, s: nat)
    requires RadixScaled(y, v as real, r, 0 - n) && s == v * Pow2(more) && n > 0
    ensures s as real == ScaleBy(y, more) * (Pow(r, n) as real)
  {
    Exp2Nat(more);
    hide Pow, Pow2, Exp2;
    var p := Pow(r, n) as real;
    assert y * p == v as real;
    IsScaledElim(ScaleBy(y, more), y, more);
    MoveScale(y, p, Pow2(more) as real, ScaleBy(y, more), v as real);
  }

  lemma MoveScale(y: real, p: real, g: real, w: real, v: real)
    requires y * p == v && w == y * g
    ensures v * g == w * p
  {
    MulAssoc(y, p, g);
    MulAssoc(y, g, p);
    assert p * g == g * p;
  }

  lemma QuotientAgreesScaled(w: real, s: nat, q: nat, r: Radix, n: nat, inexact: bool)
    requires DividedBy(s, q, Pow(r, n), inexact) && s as real == w * (Pow(r, n) as real)
    ensures Agree(w, OrBit0(q, inexact), 2)
  {
    PowPositive(r, n);
    hide Pow, Agree, DividedBy, OrBit0;
    QuotientAgrees(s, q, Pow(r, n), inexact, w);
  }

  /** The quotient keeps all the bits that the appended ones stand for. */
  lemma QuotientSize(v: nat, s: nat, q: nat, r: Radix, n: nat, l: nat, extra: nat, inexact: bool, e: int)
    requires v > 0 && r % 2 == 1 && l == LimbGroups(n, r) && s == v * Pow2(l * 32 + extra)
    requires DividedBy(s, q, Pow(r, n), inexact) && 0 <= e <= BitLength(v) - 1 + extra
    ensures Pow2(e) <= q <= OrBit0(q, inexact)
  {
    PowerWithinGroups(r, n);
    BasePowIsPow2(l);
    BitLengthBounds(v);
    hide Pow, Pow2, BasePow, BitLength, DividedBy, Groups;
    var k := BitLength(v) - 1;
    Pow2Add(l * 32, extra);
    Pow2Add(k, extra);
    Pow2Monotone(e, k + extra);
    MulLower(Pow2(k), v, Pow2(extra), Pow2(extra));
    MulLower(Pow2(e), v * Pow2(extra), Pow2(32 * l), Pow(r, n));
    assert (v * Pow2(extra)) * Pow2(32 * l) == s by { SwapFactors(v, Pow2(extra), Pow2(32 * l)); }
    QuotientLower(s, q, Pow(r, n), inexact, Pow2(e));
  }

  lemma SwapFactors(a: int, b: int, c: int)
    ensures (a * b) * c == a * (c * b)
  {
    MulAssocInt(a, b, c);
  }

  // ----- mul_pow_round -----

  /** Rounding an integer that agrees with w up to a sticky bit rounds w. */
  lemma AgreeRounds(w: real, t: nat, u: nat, shift: nat, x: real, z: real, k: nat, d: Direction)
    requires Agree(w, t, u) && 0 < u <= 2 && (u == 2 ==> shift >= 2) && shift > 0
    requires IsScaled(x, w, 0 - shift) && IsScaled(z, t as real, 0 - shift)
    requires RoundsToInteger(z, k, d)
    ensures RoundsToInteger(x, k, d)
  {
    hide Agree, IsScaled, Exp2, Pow2, RoundsToInteger;
    HalfStepSame(w, t, u, shift, x, z, 2 * k - 2);
    HalfStepSame(w, t, u, shift, x, z, 2 * k - 1);
    HalfStepSame(w, t, u, shift, x, z, 2 * k);
    HalfStepSame(w, t, u, shift, x, z, 2 * k + 1);
    HalfStepSame(w, t, u, shift, x, z, 2 * k + 2);
    SameHalfSteps(x, z, k, d);
  }

  /** x and z lie on the same side of j / 2. */
  ghost predicate SameHalf(x: real, z: real, j: int) {
    (2.0 * x < j as real <==> 2.0 * z < j as real) && (2.0 * x > j as real <==> 2.0 * z > j as real)
  }

  lemma SameHalfSteps(x: real, z: real, k: nat, d: Direction)
    requires SameHalf(x, z, 2 * k - 2) && SameHalf(x, z, 2 * k - 1) && SameHalf(x, z, 2 * k)
    requires SameHalf(x, z, 2 * k + 1) && SameHalf(x, z, 2 * k + 2)
    requires RoundsToInteger(z, k, d)
    ensures RoundsToInteger(x, k, d)
  {
  }

  lemma HalfStepSame(w: real, t: nat, u: nat, shift: nat, x: real, z: real, j: int)
    requires Agree(w, t, u) && 0 < u <= 2 && (u == 2 ==> shift >= 2) && shift > 0
    requires IsScaled(x, w, 0 - shift) && IsScaled(z, t as real, 0 - shift)
    ensures SameHalf(x, z, j)
  {
    hide Agree, IsScaled, Exp2, Pow2;
    var p := Pow2(shift - 1);
    ScaleInverse(x, w, 0 - shift);
    ScaleInverse(z, t as real, 0 - shift);
    HalfScaled(w, x, shift);
    HalfScaled(t as real, z, shift);
    HalfGrid(shift, u);
    ProductMultiple(p, j, u);
    assert p * j == j * p;
    AgreeSide(w, t, u, j * p);
    UnscaleSide(w, 2.0 * x, j, p);
    UnscaleSide(t as real, 2.0 * z, j, p);
  }

  lemma AgreeSide(w: real, t: nat, u: nat, n: int)
    requires Agree(w, t, u) && n % u == 0
    ensures (w < n as real <==> t < n) && (w > n as real <==> t > n)
  {
    assert SameSide(w, t, n);
  }

  lemma HalfScaled(w: real, x: real, shift: nat)
    requires IsScaled(w, x, shift) && shift > 0
    ensures w == (2.0 * x) * (Pow2(shift - 1) as real)
  {
    Exp2Nat(shift);
    Pow2Succ(shift - 1);
    hide Pow2, Exp2;
    MulAssoc(x, 2.0, Pow2(shift - 1) as real);
  }

  lemma HalfGrid(shift: nat, u: nat)
    requires 0 < u <= 2 && (u == 2 ==> shift >= 2) && shift > 0
    ensures Pow2(shift - 1) % u == 0
  {
  }

  /** An exact nonnegative integer rounds to itself. */
  lemma IntegerRounds(k: nat, d: Direction)
    ensures RoundsToInteger(k as real, k, d)
  {
  }

  /** The limbs that mul_pow_round needs in all. */
  function RoundLimbs(radix1: nat, shift: nat, f: int, e: int): nat
    requires radix1 <= 36
  {
    2 + ExtraLimbs(radix1, shift, f, true, e)
    + (if f < 0 && radix1 != 1 then 0 else Greatest(e + f * shift, 0) / 32 + 1)
  }

  /** mul_pow_round: m * 2^e * b^f, which is y * 2^e = x, rounded to an integer. */
  method MulPowRound(tmp: Mpb, m: nat, e: int, radix1: nat, shift: nat, f: int, mode: RoundMode,
                     ghost b: Radix, ghost y: real, ghost x: real)
    requires tmp.Valid() && 0 < m < BASE * BASE && RadixSplit(b, radix1, shift)
    requires RadixScaled(y, m as real, b, f) && IsScaled(x, y, e)
    requires RoundLimbs(radix1, shift, f, e) <= tmp.tab.Length
    modifies tmp, tmp.tab
    ensures tmp.Valid() && tmp.Normal() && RoundsToInteger(x, tmp.V(), ModeDirection(mode))
  {
    hide Value, BasePow, Pow2, Exp2, Pow, RadixScaled, IsScaled, ScaleBy, Agree, RadixSplit, RoundShift,
      RoundsToInteger;
    hide ExtraLimbs;
    tmp.SetU64(m);
    var eOffset := MulPow(tmp, radix1, shift, f, true, e, b, y);
    ghost var t := tmp.V();
    var down := eOffset - e;
    NegativeOnlyExact(f, radix1, shift, e, eOffset);
    tmp.ShrRound(down, mode);
    if down > 0 {
      RoundedQuotient(y, t, eOffset, e, if f < 0 && radix1 != 1 then 2 else 1, x, tmp.V(), mode);
    } else {
      ShiftedExact(y, t, eOffset, e, x, tmp.V(), mode);
    }
  }

  lemma NegativeOnlyExact(f: int, radix1: nat, shift: nat, e: int, eOffset: int)
    requires f < 0 && radix1 != 1 ==> eOffset - e >= 2
    requires f >= 0 || radix1 == 1 ==> eOffset == 0 - f * shift
    ensures eOffset - e < 0 ==> 0 - (eOffset - e) == Greatest(e + f * shift, 0)
  {
  }

  lemma RoundedQuotient(y: real, t: nat, eOffset: int, e: int, u: nat, x: real, k: nat, mode: RoundMode)
    requires eOffset - e > 0 && k == RoundShift(t, eOffset - e, mode) && IsScaled(x, y, e)
    requires Agree(ScaleBy(y, eOffset), t, u) && 0 < u <= 2 && (u == 2 ==> eOffset - e >= 2)
    ensures RoundsToInteger(x, k, ModeDirection(mode))
  {
    hide Agree, IsScaled, ScaleBy, Exp2, RoundShift, RoundsToInteger;
    var w, z := ScaleBy(y, eOffset), ScaleBy(t as real, e - eOffset);
    RoundShiftRounds(t, eOffset - e, mode, z);
    ScaleInverse(w, y, eOffset);
    ScaleTrans(x, y, w, e, 0 - eOffset);
    AgreeRounds(w, t, u, eOffset - e, x, z, k, ModeDirection(mode));
  }

  lemma ShiftedExact(y: real, t: nat, eOffset: int, e: int, x: real, k: nat, mode: RoundMode)
    requires eOffset - e <= 0 && k == t * Pow2(e - eOffset) && IsScaled(x, y, e)
    requires Agree(ScaleBy(y, eOffset), t, 1)
    ensures RoundsToInteger(x, k, ModeDirection(mode))
  {
    hide IsScaled, ScaleBy, Exp2, RoundsToInteger, Pow2;
    var w := ScaleBy(y, eOffset);
    AgreeAtMultiple(w, t, 1);
    ScaleInverse(w, y, eOffset);
    ScaleTrans(x, y, w, e, 0 - eOffset);
    ScaleNatOf(k as real, t as real, e - eOffset);
    ScaleOrder(x, k as real, w, w, e - eOffset);
    IntegerRounds(k, ModeDirection(mode));
  }
}
