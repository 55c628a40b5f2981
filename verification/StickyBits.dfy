/** Sticky bits.  A right shift that ORs the lost bits into bit 0 keeps exactly
    what rounding needs: the shifted integer compares with every even integer
    as the exact number does.  That relation, not the value, is what the
    floating-point and bignum code carries from step to step. */
module StickyBits {
  import opened PowersOfTwo
  import opened Rounding

  /** t lies on the same side of n as v does. */
  ghost predicate SameSide(v: real, t: int, n: int) {
    (v < n as real <==> t < n) && (v > n as real <==> t > n)
  }

  /** t compares with every multiple of u as v does. */
  ghost predicate Agree(v: real, t: int, u: nat) {
    u > 0 && forall n: int :: n % u == 0 ==> SameSide(v, t, n)
  }

  function Div(a: nat, p: nat): (q: nat)
    requires p > 0
  {
    a / p
  }

  function Mod(a: nat, p: nat): (r: nat)
    requires p > 0
    ensures r < p
  {
    a % p
  }

  lemma DivMod(a: nat, p: nat)
    requires p > 0
    ensures a == Div(a, p) * p + Mod(a, p)
  {
  }

  lemma DivModIs(a: nat, p: nat, q: nat, r: nat)
    requires p > 0 && a == q * p + r && r < p
    ensures Div(a, p) == q && Mod(a, p) == r
  {
    DivModUnique(a, p, q, r);
  }

  /** a >> d with the lost bits ORed into bit 0 (64-bit operand). */
  function RshiftRnd(a: nat, d: nat): (r: nat) {
    if d == 0 then a
    else if d >= 64 then (if a != 0 then 1 else 0)
    else OrBit0(Div(a, Pow2(d)), Mod(a, Pow2(d)) != 0)
  }

  /** h | 1 when the flag is set. */
  function OrBit0(h: nat, flag: bool): (r: nat)
    ensures r == h || (r == h + 1 && h % 2 == 0 && flag)
    ensures flag ==> r % 2 == 1
  {
    if flag then h - h % 2 + 1 else h
  }

  lemma AgreeExact(t: int, u: nat)
    requires u > 0
    ensures Agree(t as real, t, u)
  {
  }

  lemma AgreeAt(v: real, t: int, u: nat, j: int)
    requires Agree(v, t, u)
    ensures SameSide(v, t, j * u)
  {
    ModMultiple(j, u);
  }

  lemma AgreeCoarser(v: real, t: int, u: nat, w: nat)
    requires Agree(v, t, u) && w > 0 && w % u == 0
    ensures Agree(v, t, w)
  {
    forall n: int | n % w == 0
      ensures SameSide(v, t, n)
    {
      MultipleOfMultiple(n, w, u);
    }
  }

  lemma ModMultiple(n: int, u: nat)
    requires u > 0
    ensures (n * u) % u == 0 && (n * u) / u == n
  {
    DivModUnique(n * u, u, n, 0);
  }

  lemma DivModUnique(a: int, u: int, q: int, r: int)
    requires u > 0 && a == q * u + r && 0 <= r < u
    ensures a / u == q && a % u == r
  {
    var d := a / u - q;
    assert d * u == r - a % u;
    if d >= 1 {
      MulLower(1, d, u, u);
    } else if d <= -1 {
      MulLower(1, -d, u, u);
    }
  }

  /** Adding an even number, or subtracting from one, keeps the relation. */
  lemma AgreeAddEven(v: real, t: int, a: int)
    requires Agree(v, t, 2) && a % 2 == 0
    ensures Agree(a as real + v, a + t, 2)
    ensures Agree(a as real - v, a - t, 2)
  {
    forall n: int | n % 2 == 0
      ensures SameSide(a as real + v, a + t, n) && SameSide(a as real - v, a - t, n)
    {
      assert SameSide(v, t, n - a);
      assert SameSide(v, t, a - n);
    }
  }

  lemma AgreeNonnegative(v: real, t: int, u: nat)
    requires Agree(v, t, u) && t >= 0
    ensures v >= 0.0 && (t == 0 <==> v == 0.0)
  {
    assert SameSide(v, t, 0);
  }

  /** A multiple of u that t equals is the exact value. */
  lemma AgreeAtMultiple(v: real, t: int, u: nat)
    requires Agree(v, t, u) && t % u == 0
    ensures v == t as real
  {
    assert SameSide(v, t, t);
  }

  /** Floor plus an inexactness flag, ORed together, agrees with the exact value. */
  lemma AgreeFloor(v: real, h: nat, inexact: bool)
    requires if inexact then h as real < v < (h + 1) as real else v == h as real
    ensures Agree(v, OrBit0(h, inexact), 2)
  {
  }

  /** Scaling by 2^s scales the grid on which the two agree. */
  lemma AgreeScale(v: real, t: int, u: nat, g: nat)
    requires Agree(v, t, u) && g > 0
    ensures Agree(v * (g as real), t * g, u * g)
  {
    assert u * g > 0;
    forall n: int | n % (u * g) == 0
      ensures SameSide(v * (g as real), t * g, n)
    {
      var j := n / (u * g);
      MulAssocInt(j, u, g);
      ModMultiple(j, u);
      assert SameSide(v, t, j * u);
      ScaleSides(v, t, j * u, g);
    }
  }

  lemma ScaleSides(v: real, t: int, n: int, g: nat)
    requires g > 0 && SameSide(v, t, n)
    ensures SameSide(v * (g as real), t * g, n * g)
  {
    assert (n * g) as real == (n as real) * (g as real);
    if v < n as real {
      MulStrict(v, n as real, g as real);
      ScaleBound(t, n, g);
    } else if v > n as real {
      MulStrict(n as real, v, g as real);
      ScaleBound(n, t, g);
    }
  }

  /** Dividing and keeping "remainder nonzero" in bit 0 preserves agreement on
      every even grid. */
  lemma AgreeDivide(v: real, t: nat, u: nat, p: nat, h: nat, l: nat, w: real)
    requires Agree(v, t, u) && u % 2 == 0 && p > 0
    requires t == h * p + l && l < p
    requires v == w * (p as real)
    ensures Agree(w, OrBit0(h, l != 0), u)
  {
    forall n: int | n % u == 0
      ensures SameSide(w, OrBit0(h, l != 0), n)
    {
      MultipleOfMultiple(n, u, 2);
      ProductMultiple(n, p, u);
      assert SameSide(v, t, n * p);
      UnscaleSide(v, w, n, p);
      FloorSide(t, h, l, n, p);
    }
  }

  /** The sticky shift preserves agreement on every even grid. */
  lemma AgreeShift(v: real, t: nat, u: nat, d: nat, w: real)
    requires Agree(v, t, u) && u % 2 == 0 && t < 0x1_0000_0000_0000_0000
    requires v == w * (Pow2(d) as real)
    ensures Agree(w, RshiftRnd(t, d), u)
  {
    if d == 0 {
      Exp2Zero();
      assert v == w;
    } else {
      ShiftParts(t, d);
      hide Pow2, RshiftRnd, Agree;
      AgreeDivide(v, t, u, Pow2(d), Div(t, Pow2(d)), Mod(t, Pow2(d)), w);
    }
  }

  lemma ShiftParts(t: nat, d: nat)
    requires t < 0x1_0000_0000_0000_0000 && d > 0
    ensures RshiftRnd(t, d) == OrBit0(Div(t, Pow2(d)), Mod(t, Pow2(d)) != 0)
    ensures t == Div(t, Pow2(d)) * Pow2(d) + Mod(t, Pow2(d))
  {
    hide Pow2, Div, Mod;
    DivMod(t, Pow2(d));
    if d >= 64 {
      LargeShift(t, d);
    }
  }

  lemma LargeShift(t: nat, d: nat)
    requires t < 0x1_0000_0000_0000_0000 && d >= 64
    ensures Div(t, Pow2(d)) == 0 && Mod(t, Pow2(d)) == t
  {
    hide Pow2;
    Pow2Values();
    Pow2Monotone(64, d);
    DivModUnique(t, Pow2(d), 0, t);
  }

  lemma ProductMultiple(n: int, p: int, u: nat)
    requires u > 0 && n % u == 0
    ensures (n * p) % u == 0
  {
    assert n == (n / u) * u;
    MulAssocInt(p, n / u, u);
    ModMultiple(p * (n / u), u);
  }

  lemma MultipleOfMultiple(n: int, u: nat, w: nat)
    requires u > 0 && w > 0 && n % u == 0 && u % w == 0
    ensures n % w == 0
  {
    assert n == (n / u) * u;
    ProductMultiple(u, n / u, w);
  }

  lemma UnscaleSide(v: real, w: real, n: int, p: nat)
    requires p > 0 && v == w * (p as real)
    ensures v < (n * p) as real <==> w < n as real
    ensures v > (n * p) as real <==> w > n as real
  {
    assert (n * p) as real == (n as real) * (p as real);
    if w < n as real {
      MulStrict(w, n as real, p as real);
    } else if w > n as real {
      MulStrict(n as real, w, p as real);
    }
  }

  lemma FloorSide(t: nat, h: nat, l: nat, n: int, p: nat)
    requires p > 0 && t == h * p + l && l < p && n % 2 == 0
    ensures t < n * p <==> OrBit0(h, l != 0) < n
    ensures t > n * p <==> OrBit0(h, l != 0) > n
  {
    if h < n {
      ScaleBound(h, n, p);
    } else if h > n {
      ScaleBound(n, h, p);
    }
  }
}
