/** mpb_t of dtoa.c: a bignum of at least one limb in a fixed buffer, and the
    rounding shift on it. */
module Bignum {
  import opened PowersOfTwo
  import opened Rounding
  import opened StickyBits
  import opened Limbs

  /** JS_RNDN, JS_RNDNA and JS_RNDZ */
  datatype RoundMode = RNDN | RNDNA | RNDZ

  function ModeDirection(mode: RoundMode): Direction {
    match mode
    case RNDN => NearEven
    case RNDNA => NearAway
    case RNDZ => Down
  }

  // ----- bits of a limb sequence -----

  /** A shift by k bits drops k / 32 limbs and then k % 32 bits. */
  lemma BitSplit(s: seq<Limb>, k: nat)
    requires k / 32 < |s|
    ensures Div(Value(s), Pow2(k)) == Div(Value(s[k / 32..]), Pow2(k % 32))
    ensures Mod(Value(s), Pow2(k)) == Value(s[..k / 32]) + BasePow(k / 32) * Mod(Value(s[k / 32..]), Pow2(k % 32))
  {
    var l, j := k / 32, k % 32;
    ValueSplit(s, l);
    ValueBound(s[..l]);
    BasePowIsPow2(l);
    hide *;
    Pow2Add(32 * l, j);
    assert 32 * l + j == k;
    SplitQuotient(Value(s), Value(s[..l]), BasePow(l), Value(s[l..]), Pow2(j), Pow2(k));
  }

  lemma SplitQuotient(v: nat, lo: nat, p: nat, h: nat, c: nat, pc: nat)
    requires v == lo + p * h && lo < p && c > 0 && pc == p * c && pc > 0
    ensures Div(v, pc) == Div(h, c)
    ensures Mod(v, pc) == lo + p * Mod(h, c)
  {
    DivMod(h, c);
    var q, r := Div(h, c), Mod(h, c);
    assert p * (q * c + r) == q * pc + p * r by {
      assert p * (q * c) == q * (p * c);
      assert p * (q * c + r) == p * (q * c) + p * r;
    }
    ScaleBound(r, c, p);
    assert r * p == p * r && c * p == p * c;
    DivModUnique(v, pc, q, lo + p * r);
  }

  /** Above one limb, the bits of the higher limbs contribute even amounts. */
  lemma LowLimbBits(a: Limb, h: nat, j: nat)
    requires j < 32
    ensures Div(a + BASE * h, Pow2(j)) % 2 == Div(a, Pow2(j)) % 2
    ensures Mod(a + BASE * h, Pow2(j)) == Mod(a, Pow2(j))
  {
    hide Pow2, Div, Mod;
    HigherLimbs(a + BASE * h, a, h, j);
  }

  lemma HigherLimbs(v: nat, a: nat, h: nat, j: nat)
    requires j < 32 && v == a + 0x1_0000_0000 * h
    ensures Div(v, Pow2(j)) % 2 == Div(a, Pow2(j)) % 2 && Mod(v, Pow2(j)) == Mod(a, Pow2(j))
  {
    hide *;
    HalvedBase(j);
    HigherBits(a, h, Pow2(j), Pow2(31 - j));
  }

  lemma HalvedBase(j: nat)
    requires j < 32
    ensures Pow2(j) * (2 * Pow2(31 - j)) == 0x1_0000_0000
  {
    Pow2Values();
    hide *;
    Pow2Add(j, 32 - j);
    Pow2Succ(31 - j);
  }

  function Times(a: nat, b: nat): nat { a * b }

  lemma HigherBits(a: nat, h: nat, c: nat, g: nat)
    requires c * (2 * g) == 0x1_0000_0000 && c > 0
    ensures Div(a + 0x1_0000_0000 * h, c) == Div(a, c) + 2 * Times(g, h)
    ensures Mod(a + 0x1_0000_0000 * h, c) == Mod(a, c)
  {
    DivMod(a, c);
    var q, r := Div(a, c), Mod(a, c);
    HigherProduct(h, c, g, q);
    hide Times, Div, Mod;
    DivModIs(a + 0x1_0000_0000 * h, c, q + 2 * Times(g, h), r);
  }

  lemma HigherProduct(h: nat, c: nat, g: nat, q: nat)
    requires c * (2 * g) == 0x1_0000_0000
    ensures (q + 2 * Times(g, h)) * c == q * c + 0x1_0000_0000 * h
  {
    MulAssocInt(c, 2 * g, h);
    MulAssocInt(2, g, h);
    MulAssocInt(c, g, h);
  }

  lemma BitOfValue(s: seq<Limb>, k: nat)
    ensures Div(Value(s), Pow2(k)) % 2 == if k / 32 < |s| then Div(s[k / 32], Pow2(k % 32)) % 2 else 0
  {
    var l, j := k / 32, k % 32;
    hide Pow2, Div;
    if l < |s| {
      BitSplit(s, k);
      LowLimbBits(s[l], Value(s[l..][1..]), j);
    } else {
      AboveTop(s, k);
    }
  }

  lemma AboveTop(s: seq<Limb>, k: nat)
    requires k / 32 >= |s|
    ensures Div(Value(s), Pow2(k)) == 0 && Mod(Value(s), Pow2(k)) == Value(s) && Value(s) < Pow2(k)
  {
    ValueBound(s);
    BasePowIsPow2(|s|);
    hide Pow2, Value, BasePow;
    Pow2Monotone(32 * |s|, k);
    DivModUnique(Value(s), Pow2(k), 0, Value(s));
  }

  lemma ValueHead(s: seq<Limb>)
    requires |s| > 0
    ensures Value(s) == s[0] + BASE * Value(s[1..])
  {
  }

  /** The bits below k are all zero exactly when the code's OR of them is. */
  lemma LowBitsOfValue(s: seq<Limb>, k: nat)
    ensures Mod(Value(s), Pow2(k)) == 0 <==>
            Value(s[..Least(k / 32, |s|)]) == 0 && (k / 32 < |s| ==> Mod(s[k / 32], Pow2(k % 32)) == 0)
  {
    var l, j := k / 32, k % 32;
    hide Pow2, Mod, Value, BasePow;
    if l < |s| {
      BitSplit(s, k);
      ValueHead(s[l..]);
      LowLimbBits(s[l], Value(s[l..][1..]), j);
      ZeroSum(Value(s[..l]), BasePow(l), Mod(s[l], Pow2(j)));
    } else {
      AboveTop(s, k);
      assert s[..|s|] == s;
    }
  }

  lemma ZeroSum(a: nat, p: nat, b: nat)
    requires p > 0
    ensures a + p * b == 0 <==> a == 0 && b == 0
  {
    if b > 0 {
      MulLower(1, p, b, b);
    }
  }

  function Least(a: int, b: int): int { if a < b then a else b }

  lemma {:induction false} ZeroValue(s: seq<Limb>, i: nat)
    requires i < |s|
    ensures Value(s[..i + 1]) == 0 <==> Value(s[..i]) == 0 && s[i] == 0
  {
    hide Value, BasePow;
    PrefixStep(s, i);
    ZeroSum(Value(s[..i]), BasePow(i), s[i]);
  }

  // ----- rounding a shifted integer -----

  /** The bit that rounding adds to the floor of a / 2^shift. */
  function AddOne(a: nat, shift: nat, mode: RoundMode): nat
    requires shift > 0
  {
    var bit1 := Div(a, Pow2(shift - 1)) % 2;
    match mode
    case RNDZ => 0
    case RNDNA => bit1
    case RNDN =>
      if bit1 == 0 then 0
      else if Mod(a, Pow2(shift - 1)) != 0 then 1
      else Div(a, Pow2(shift)) % 2
  }

  function RoundShift(a: nat, shift: nat, mode: RoundMode): nat
    requires shift > 0
  {
    Div(a, Pow2(shift)) + AddOne(a, shift, mode)
  }

  lemma HalfParts(a: nat, shift: nat)
    requires shift > 0
    ensures Pow2(shift) == 2 * Pow2(shift - 1)
    ensures a == Div(a, Pow2(shift)) * Pow2(shift)
               + (Div(a, Pow2(shift - 1)) % 2) * Pow2(shift - 1) + Mod(a, Pow2(shift - 1))
  {
    Pow2Succ(shift - 1);
    hide Pow2;
    var p := Pow2(shift - 1);
    DivMod(a, p);
    var q, r := Div(a, p), Mod(a, p);
    var b := q % 2;
    assert q * p == (q / 2) * (2 * p) + b * p by {
      assert q == 2 * (q / 2) + b;
      HalfProduct(q / 2, b, p);
    }
    if b == 0 {
      DivModUnique(a, 2 * p, q / 2, r);
    } else {
      DivModUnique(a, 2 * p, q / 2, p + r);
    }
  }

  lemma HalfProduct(h: int, b: int, p: int)
    ensures (2 * h + b) * p == h * (2 * p) + b * p
  {
  }

  /** The bit test picks the same neighbour as the definition of rounding. */
  lemma RoundShiftRounds(a: nat, shift: nat, mode: RoundMode, x: real)
    requires shift > 0 && IsScaled(x, a as real, 0 - shift)
    ensures RoundsToInteger(x, RoundShift(a, shift, mode), ModeDirection(mode))
  {
    ScaleInverse(x, a as real, 0 - shift);
    IsScaledElim(a as real, x, shift);
    Exp2Nat(shift);
    hide Pow2, Exp2, IsScaled, Div, Mod;
    HalfParts(a, shift);
    var p := Pow2(shift - 1);
    var q, b, r := Div(a, Pow2(shift)), Div(a, p) % 2, Mod(a, p);
    HalfSides(x, a, q, b, r, p);
    IncrementRoundsToInteger(x, q, RoundShift(a, shift, mode), ModeDirection(mode));
  }

  lemma HalfSides(x: real, a: nat, q: nat, b: nat, r: nat, p: nat)
    requires p > 0 && b <= 1 && r < p && a == q * (2 * p) + b * p + r && a as real == x * ((2 * p) as real)
    ensures q as real <= x < (q + 1) as real
    ensures 2.0 * x >= (2 * q + 1) as real <==> b == 1
    ensures 2.0 * x > (2 * q + 1) as real <==> b == 1 && r != 0
  {
    hide *;
    HalfScale(x, a, p);
    HalfCases(q, b, p);
    var m := q * (2 * p);
    FloorOrder(x, a, q, (if b == 0 then 0 else p) + r, 2 * p, m);
    MiddleOrder(2.0 * x, a, 2 * q + 1, p, m + p);
  }

  lemma FloorOrder(x: real, a: nat, q: nat, rest: nat, u: nat, m: nat)
    requires rest < u && a == m + rest && m == q * u && (q + 1) * u == m + u && a as real == x * (u as real)
    ensures q as real <= x < (q + 1) as real
  {
    UnscaleSideOf(a as real, x, q, u, m);
    UnscaleSideOf(a as real, x, q + 1, u, m + u);
  }

  lemma MiddleOrder(w: real, a: nat, h: nat, p: nat, m: nat)
    requires p > 0 && m == h * p && a as real == w * (p as real)
    ensures w >= h as real <==> a >= m
    ensures w > h as real <==> a > m
  {
    UnscaleSideOf(a as real, w, h, p, m);
  }

  lemma UnscaleSideOf(v: real, w: real, n: int, p: nat, np: int)
    requires p > 0 && v == w * (p as real) && np == n * p
    ensures v < np as real <==> w < n as real
    ensures v > np as real <==> w > n as real
  {
    UnscaleSide(v, w, n, p);
  }

  lemma HalfScale(x: real, a: nat, p: nat)
    requires a as real == x * ((2 * p) as real)
    ensures a as real == (2.0 * x) * (p as real)
  {
    MulAssoc(x, 2.0, p as real);
  }

  lemma HalfCases(q: int, b: int, p: int)
    requires 0 <= b <= 1
    ensures (2 * q + 1) * p == q * (2 * p) + p && (q + 1) * (2 * p) == q * (2 * p) + 2 * p
    ensures b * p == if b == 0 then 0 else p
  {
  }

  // ----- limbs moved up and down -----

  lemma DroppedLimbs(s: seq<Limb>, l: nat)
    requires l <= |s|
    ensures Value(s[l..]) == Div(Value(s), BasePow(l))
  {
    hide *;
    ValueSplit(s, l);
    ValueBound(s[..l]);
    DivModIs(Value(s), BasePow(l), Value(s[l..]), Value(s[..l]));
  }

  lemma {:induction false} AddedLimbs(s: seq<Limb>, t: seq<Limb>, l: nat)
    requires |t| == |s| + l && t[l..] == s && forall i :: 0 <= i < l ==> t[i] == 0
    ensures Value(t) == Value(s) * BasePow(l)
  {
    ValueSplit(t, l);
    ValueZeros(l);
    assert t[..l] == seq(l, i => 0);
  }

  lemma {:induction false} DropZeroTop(s: seq<Limb>)
    requires |s| > 0 && s[|s| - 1] == 0
    ensures Value(s[..|s| - 1]) == Value(s)
  {
    var n := |s| - 1;
    assert s == s[..n] + [s[n]];
    ValueSnoc(s[..n], s[n]);
  }

  class Mpb {
    var len: nat
    const tab: array<Limb>

    ghost predicate Valid()
      reads this
    {
      1 <= len <= tab.Length
    }

    /** The number represented. */
    ghost function V(): nat
      reads this, tab
      requires Valid()
    {
      Value(tab[..len])
    }

    /** No superfluous high limb. */
    ghost predicate Normal()
      reads this, tab
      requires Valid()
    {
      len == 1 || tab[len - 1] != 0
    }

    constructor (capacity: nat)
      requires capacity >= 2
      ensures Valid() && Normal() && V() == 0 && tab.Length == capacity && fresh(tab) && len == 1
    {
      len := 1;
      tab := new Limb[capacity](i => 0);
      new;
      FewLimbs(tab[..1]);
    }

    /** mpb_renorm */
    method Renorm()
      requires Valid()
      modifies this`len
      ensures Valid() && Normal() && V() == old(V()) && len <= old(len)
    {
      while len > 1 && tab[len - 1] == 0
        invariant Valid() && V() == old(V()) && len <= old(len)
      {
        DropZeroTop(tab[..len]);
        assert tab[..len][..len - 1] == tab[..len - 1];
        len := len - 1;
      }
    }

    /** mpb_set_u64 */
    method SetU64(m: nat)
      requires Valid() && tab.Length >= 2 && m < BASE * BASE
      modifies this, tab
      ensures Valid() && Normal() && V() == m && len <= 2
    {
      tab[0] := m % BASE;
      tab[1] := m / BASE;
      if tab[1] == 0 {
        len := 1;
      } else {
        len := 2;
      }
      FewLimbs(tab[..len]);
    }

    /** mpb_get_u64: the low 64 bits. */
    method GetU64() returns (m: nat)
      requires Valid()
      ensures V() < BASE * BASE && Normal() ==> m == V()
    {
      assert tab[..len][0] == tab[0];
      if len == 1 {
        m := tab[0];
        FewLimbs(tab[..len]);
      } else {
        m := tab[0] + tab[1] * BASE;
        WideValue(tab[..len]);
      }
    }

    /** mpb_get_bit */
    method GetBit(k: nat) returns (b: nat)
      requires Valid()
      ensures b == Div(V(), Pow2(k)) % 2
    {
      BitOfValue(tab[..len], k);
      hide Pow2, Div, Value;
      var l := k / 32;
      if l >= len {
        b := 0;
      } else {
        b := Div(tab[l], Pow2(k % 32)) % 2;
      }
    }

    /** mpb_cmp, for normalised numbers: the sign of the difference. */
    method Cmp(that: Mpb) returns (c: int)
      requires Valid() && Normal() && that.Valid() && that.Normal()
      ensures c == if V() < that.V() then -1 else if V() > that.V() then 1 else 0
    {
      hide Value, BasePow;
      if len < that.len {
        ShorterIsLess(tab[..len], that.tab[..that.len]);
        return -1;
      } else if len > that.len {
        ShorterIsLess(that.tab[..that.len], tab[..len]);
        return 1;
      }
      ghost var s, t := tab[..len], that.tab[..that.len];
      var i: int := len - 1;
      while i >= 0
        invariant -1 <= i < len && forall j :: i < j < len ==> s[j] == t[j]
      {
        if tab[i] != that.tab[i] {
          TopDifference(s, t, i);
          return if tab[i] < that.tab[i] then -1 else 1;
        }
        i := i - 1;
      }
      assert s == t;
      return 0;
    }

    /** Whether a bit below bit k is set. */
    method AnyBitBelow(k: nat) returns (any: bool)
      requires Valid()
      ensures any <==> Mod(V(), Pow2(k)) != 0
    {
      ghost var s := tab[..len];
      LowBitsOfValue(s, k);
      hide Value, BasePow, Mod, Pow2;
      any := false;
      var i := 0;
      NoLimbs(s);
      while i < Least(k / 32, len)
        invariant i <= Least(k / 32, len)
        invariant any <==> Value(s[..i]) != 0
      {
        ZeroValue(s, i);
        if tab[i] != 0 {
          any := true;
        }
        i := i + 1;
      }
      if k / 32 < len && Mod(tab[k / 32], Pow2(k % 32)) != 0 {
        any := true;
      }
    }

    /** The rounding decision of mpb_shr_round. */
    method RoundingIncrement(shift: nat, mode: RoundMode) returns (addOne: nat)
      requires Valid() && shift > 0
      ensures addOne == AddOne(V(), shift, mode) && addOne <= 1
    {
      hide Value, BasePow, Mod, Div, Pow2;
      if mode == RNDZ {
        return 0;
      }
      var bit1 := GetBit(shift - 1);
      if bit1 != 0 {
        var bit2 := true;
        if mode == RNDN {
          bit2 := false;
          if shift >= 2 {
            bit2 := AnyBitBelow(shift - 1);
          } else {
            NothingBelow(V());
          }
        }
        if bit2 {
          addOne := 1;
        } else {
          addOne := GetBit(shift);
        }
      } else {
        addOne := 0;
      }
    }

    /** mpb_shr_round with a negative shift. */
    method ShiftLeft(amount: nat)
      requires Valid() && Normal() && len + amount / 32 + 1 <= tab.Length
      modifies this, tab
      ensures Valid() && V() == old(V()) * Pow2(amount) && len <= old(len) + amount / 32 + 1
      ensures old(V()) != 0 ==> Normal()
    {
      hide Value, BasePow, Pow2;
      var l, shift := amount / 32, amount % 32;
      if shift != 0 {
        ShiftWithin(shift);
      }
      ghost var v := V();
      assert v == old(V()) * Pow2(shift) by { Exp2Zero(); }
      TopNonzero(tab[..len]);
      if l > 0 {
        MoveUp(l);
      }
      LeftAmount(old(V()), amount, l, shift, v);
    }

    /** mpb_shr_round by less than a limb to the left. */
    method ShiftWithin(shift: nat)
      requires Valid() && len + 1 <= tab.Length && 1 <= shift < 32
      modifies this, tab
      ensures Valid() && Normal() && V() == old(V()) * Pow2(shift) && len <= old(len) + 1
    {
      hide Value, BasePow, Pow2;
      var h := MpShl(tab, tab, len, shift, 0);
      Append(h);
      Renorm();
    }

    /** One more limb on top. */
    method Append(h: Limb)
      requires Valid() && len + 1 <= tab.Length
      modifies this, tab
      ensures Valid() && len == old(len) + 1 && V() == old(V()) + h * BasePow(old(len)) && tab[len - 1] == h
    {
      hide Value, BasePow;
      ghost var s := tab[..len];
      tab[len] := h;
      len := len + 1;
      assert tab[..len] == s + [h];
      ValueSnoc(s, h);
    }

    /** The copying loop of a left shift, from the top down. */
    method CopyUp(l: nat)
      requires Valid() && len + l <= tab.Length
      modifies tab
      ensures tab[l..len + l] == old(tab[..len])
    {
      ghost var s := tab[..len];
      var i: int := len - 1;
      while i >= 0
        invariant -1 <= i < len == |s|
        invariant forall j :: i < j < len ==> tab[j + l] == s[j]
        invariant forall j :: 0 <= j <= i ==> tab[j] == s[j]
      {
        tab[i + l] := tab[i];
        i := i - 1;
      }
    }

    /** Whole limbs to the left. */
    method MoveUp(l: nat)
      requires Valid() && len + l <= tab.Length
      modifies this, tab
      ensures Valid() && len == old(len) + l && V() == old(V()) * BasePow(l)
      ensures tab[len - 1] == old(tab[len - 1])
    {
      hide Value, BasePow;
      ghost var s := tab[..len];
      CopyUp(l);
      len := len + l;
      assert tab[len - 1] == tab[l..len][|s| - 1];
      ClearLow(l);
      ghost var t := tab[..len];
      assert t[l..] == tab[l..len];
      AddedLimbs(s, t, l);
    }

    method ClearLow(l: nat)
      requires Valid() && l < len
      modifies tab
      ensures tab[l..len] == old(tab[l..len]) && forall j :: 0 <= j < l ==> tab[j] == 0
    {
      var i := 0;
      while i < l
        invariant 0 <= i <= l && tab[l..len] == old(tab[l..len])
        invariant forall j :: 0 <= j < i ==> tab[j] == 0
      {
        tab[i] := 0;
        i := i + 1;
      }
    }

    /** Whole limbs to the right, dropping them. */
    method MoveDown(l: nat)
      requires Valid() && Normal() && l < len
      modifies this, tab
      ensures Valid() && Normal() && len == old(len) - l && V() == Div(old(V()), BasePow(l))
    {
      hide Value, BasePow, Div;
      ghost var s := tab[..len];
      len := len - l;
      var i := 0;
      while i < len
        invariant 0 <= i <= len && len + l == |s|
        invariant forall j :: 0 <= j < i ==> tab[j] == s[j + l]
        invariant forall j :: i <= j < len + l ==> tab[j] == s[j]
      {
        tab[i] := tab[i + l];
        i := i + 1;
      }
      assert tab[..len] == s[l..];
      DroppedLimbs(s, l);
    }

    /** Adding one limb, with the carry appended. */
    method Increment(addOne: Limb)
      requires Valid() && Normal() && addOne <= 1 && (len < tab.Length || V() + addOne < BasePow(len))
      modifies this, tab
      ensures Valid() && Normal() && V() == old(V()) + addOne
      ensures len == old(len) || (len == old(len) + 1 && V() >= BasePow(old(len)))
    {
      hide Value, BasePow;
      if addOne != 0 {
        var k := MpAddUi(tab, 1, len);
        if k != 0 {
          MulLower(1, k, BasePow(len), BasePow(len));
          Append(k);
        } else {
          TopKept(old(tab[..len]), tab[..len], 1);
        }
      }
    }

    /** mpb_shr_round with a positive shift. */
    method ShiftRight(amount: nat, mode: RoundMode)
      requires Valid() && Normal() && amount > 0
      modifies this, tab
      ensures Valid() && Normal() && V() == RoundShift(old(V()), amount, mode) && len <= old(len)
    {
      hide Value, BasePow, Pow2, Div, Mod, AddOne;
      ghost var v := V();
      ValueBound(tab[..len]);
      var addOne := RoundingIncrement(amount, mode);
      var l, shift := amount / 32, amount % 32;
      if l >= len {
        AboveTop(tab[..len], amount);
        len := 1;
        tab[0] := addOne;
        FewLimbs(tab[..1]);
      } else {
        if l > 0 {
          MoveDown(l);
        }
        DropLimbs(v, l);
        if shift != 0 {
          Halve(shift);
        }
        ShiftSteps(v, amount, l, shift, V());
        NoCarryOut(v, old(len), amount, l, len, V(), addOne);
        Increment(addOne);
      }
    }

    /** mpb_shr_round by less than a limb to the right, without rounding. */
    method Halve(shift: nat)
      requires Valid() && 1 <= shift < 32
      modifies this, tab
      ensures Valid() && Normal() && V() == Div(old(V()), Pow2(shift)) && len <= old(len)
    {
      hide Value, BasePow, Pow2, Div;
      var r := MpShr(tab, tab, len, shift, 0);
      DivModIs(old(V()), Pow2(shift), V(), r);
      Renorm();
    }

    /** mpb_shr_round: round(this / 2^shift); a negative shift multiplies. */
    method ShrRound(shift: int, mode: RoundMode)
      requires Valid() && Normal() && (shift < 0 ==> len + (0 - shift) / 32 < tab.Length)
      modifies this, tab
      ensures Valid() && (old(V()) != 0 || shift >= 0 ==> Normal())
      ensures shift <= 0 ==> V() == old(V()) * Pow2(0 - shift) && len <= old(len) + (0 - shift) / 32 + 1
      ensures shift > 0 ==> V() == RoundShift(old(V()), shift, mode) && len <= old(len)
    {
      hide Value, BasePow, Pow2, RoundShift;
      if shift == 0 {
        Exp2Zero();
        return;
      }
      if shift < 0 {
        ShiftLeft(0 - shift);
      } else {
        ShiftRight(shift, mode);
      }
    }
  }

  lemma TopNonzero(s: seq<Limb>)
    requires |s| > 0 && (|s| == 1 || s[|s| - 1] != 0)
    ensures Value(s) != 0 ==> s[|s| - 1] != 0
  {
    if |s| == 1 {
      FewLimbs(s);
    }
  }

  lemma NoLimbs(s: seq<Limb>)
    ensures Value(s[..0]) == 0
  {
  }

  lemma NothingBelow(a: nat)
    ensures Mod(a, Pow2(0)) == 0
  {
    Exp2Zero();
  }

  lemma LeftAmount(v: nat, amount: nat, l: nat, shift: nat, w: nat)
    requires l == amount / 32 && shift == amount % 32 && w == v * Pow2(shift)
    ensures w * BasePow(l) == v * Pow2(amount) && (l == 0 ==> w == v * Pow2(amount))
    ensures v != 0 ==> w != 0
  {
    hide Pow2, BasePow;
    BasePowIsPow2(l);
    Pow2Add(shift, 32 * l);
    MulAssocInt(v, Pow2(shift), Pow2(32 * l));
    if v > 0 {
      MulLower(1, v, Pow2(shift), 1);
    }
  }

  lemma TopKept(s: seq<Limb>, t: seq<Limb>, b: nat)
    requires |s| == |t| > 0 && Value(t) == Value(s) + b && (|s| == 1 || s[|s| - 1] != 0)
    ensures |t| == 1 || t[|t| - 1] != 0
  {
    if |t| > 1 && t[|t| - 1] == 0 {
      DropZeroTop(t);
      ValueBound(t[..|t| - 1]);
      ValueTop(s);
    }
  }

  lemma DropLimbs(v: nat, l: nat)
    ensures Div(v, BasePow(l)) == Div(v, Pow2(32 * l)) && Div(v, BasePow(0)) == v
  {
    BasePowIsPow2(l);
    assert BasePow(0) == 1;
  }

  /** Shifting by limbs and then by bits is one shift. */
  lemma ShiftSteps(v: nat, amount: nat, l: nat, shift: nat, w: nat)
    requires l == amount / 32 && shift == amount % 32
    requires w == if shift == 0 then Div(v, Pow2(32 * l)) else Div(Div(v, Pow2(32 * l)), Pow2(shift))
    ensures w == Div(v, Pow2(amount))
  {
    hide Div, Mod, Pow2;
    Pow2Add(32 * l, shift);
    NestedDiv(v, Pow2(32 * l), Pow2(shift), Pow2(amount));
  }

  lemma NestedDiv(v: nat, p: nat, c: nat, pc: nat)
    requires p > 0 && c > 0 && pc == p * c && pc > 0
    ensures Div(Div(v, p), c) == Div(v, pc)
  {
    DivMod(v, p);
    var lo, h := Mod(v, p), Div(v, p);
    assert h * p == p * h;
    SplitQuotient(v, lo, p, h, c, pc);
  }

  /** A right shift leaves room for the rounding carry. */
  lemma NoCarryOut(v: nat, n: nat, amount: nat, l: nat, m: nat, w: nat, addOne: nat)
    requires 0 < m <= n - l && l == amount / 32 && amount > 0 && v < BasePow(n) && w == Div(v, Pow2(amount)) &&
             addOne <= 1
    ensures l == 0 ==> 2 * w < BasePow(n) && w + addOne < BasePow(n)
  {
    hide Pow2, Mod;
    DivMod(v, Pow2(amount));
    Pow2Monotone(1, amount);
    Pow2Values();
    MulLower(2, Pow2(amount), w, w);
    BasePowAdd(1, n - 1);
    assert BasePow(1) == BASE;
    MulLower(1, BasePow(n - 1), BASE, BASE);
  }

  lemma FewLimbs(s: seq<Limb>)
    requires 1 <= |s| <= 2
    ensures Value(s) == if |s| == 1 then s[0] else s[0] + s[1] * BASE
  {
    if |s| == 1 {
      assert s[1..] == [];
    } else {
      assert s[1..] == [s[1]] && [s[1]][1..] == [];
      assert Value([s[1]]) == s[1];
    }
  }

  lemma WideValue(s: seq<Limb>)
    requires |s| >= 2
    ensures Value(s) < BASE * BASE && s[|s| - 1] != 0 ==> Value(s) == s[0] + s[1] * BASE
  {
    if |s| > 2 {
      if s[|s| - 1] != 0 {
        ValueTop(s);
        WidePower(|s| - 1);
      }
    } else {
      FewLimbs(s);
    }
  }

  lemma WidePower(n: nat)
    requires n >= 2
    ensures BasePow(n) >= BASE * BASE
  {
    BasePowAdd(2, n - 2);
    assert BasePow(2) == BASE * BASE;
    MulLower(1, BasePow(n - 2), BasePow(2), BasePow(2));
  }

  lemma ShorterIsLess(s: seq<Limb>, t: seq<Limb>)
    requires 0 < |s| < |t| && t[|t| - 1] != 0
    ensures Value(s) < Value(t)
  {
    ValueBound(s);
    ValueTop(t);
    BasePowAdd(|s|, |t| - 1 - |s|);
    MulLower(1, BasePow(|t| - 1 - |s|), BasePow(|s|), BasePow(|s|));
  }

  lemma TopDifference(s: seq<Limb>, t: seq<Limb>, i: nat)
    requires |s| == |t| && i < |s| && (forall j :: i < j < |s| ==> s[j] == t[j]) && s[i] != t[i]
    ensures Value(s) < Value(t) <==> s[i] < t[i]
    ensures Value(s) != Value(t)
  {
    assert s[i + 1..] == t[i + 1..];
    ValueSplit(s, i + 1);
    ValueSplit(t, i + 1);
    PrefixStep(s, i);
    PrefixStep(t, i);
    ValueBound(s[..i]);
    ValueBound(t[..i]);
    hide Value, BasePow;
    if s[i] < t[i] {
      ScaleBound(s[i], t[i], BasePow(i));
    } else {
      ScaleBound(t[i], s[i], BasePow(i));
    }
  }

  /** The test for zero in the source. */
  lemma ZeroLimbs(s: seq<Limb>)
    requires |s| > 0 && (|s| == 1 || s[|s| - 1] != 0)
    ensures Value(s) == 0 <==> s[0] == 0 && |s| == 1
  {
    TopNonzero(s);
    if |s| == 1 {
      FewLimbs(s);
    } else {
      ValueTop(s);
    }
  }
}
