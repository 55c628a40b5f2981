/** Powers of a radix with an integer exponent, as reals, and the value that a
    mantissa and an exponent stand for. */
module RadixReals {
  import opened PowersOfTwo
  import opened Binary64
  import opened RadixPowers
  import opened RadixTables
  import opened RadixScaling

  ghost function Product(a: real, b: real): real {
    a * b
  }

  lemma ProductMono(a: real, c: real, p: real)
    requires p > 0.0
    ensures a <= c <==> Product(a, p) <= Product(c, p)
    ensures a < c <==> Product(a, p) < Product(c, p)
  {
    if a <= c {
      MulMono(a, c, p);
    } else {
      MulStrict(c, a, p);
    }
    if a < c {
      MulStrict(a, c, p);
    }
  }

  lemma ProductAssoc(a: real, b: real, c: real)
    ensures Product(Product(a, b), c) == Product(a, Product(b, c))
    ensures Product(a, b) == Product(b, a)
  {
    MulAssoc(a, b, c);
  }

  lemma ProductUnit(p: real)
    ensures Product(1.0, p) == p && Product(0.0, p) == 0.0 && Product(p, 1.0) == p
  {
  }

  lemma ProductSum(a: real, b: real, p: real)
    ensures Product(a + b, p) == Product(a, p) + Product(b, p)
    ensures Product(a - b, p) == Product(a, p) - Product(b, p)
  {
  }

  lemma ProductCancel(a: real, c: real, p: real)
    requires p > 0.0 && Product(a, p) == Product(c, p)
    ensures a == c
  {
    if a < c {
      MulStrict(a, c, p);
    } else if c < a {
      MulStrict(c, a, p);
    }
  }

  /** b^e for an integer e. */
  ghost function RPow(b: Radix, e: int): (r: real)
    ensures r > 0.0
  {
    PowPositive(b, if e < 0 then 0 - e else e);
    if e >= 0 then Pow(b, e) as real else Reciprocal(Pow(b, 0 - e) as real)
  }

  ghost function Reciprocal(p: real): (r: real)
    requires p > 0.0
    ensures r > 0.0 && Product(r, p) == 1.0
  {
    1.0 / p
  }

  lemma RPowNat(b: Radix, n: nat)
    ensures RPow(b, n) == Pow(b, n) as real && Product(RPow(b, 0 - n), RPow(b, n)) == 1.0
  {
    PowPositive(b, n);
    if n == 0 {
      PowZero(b);
    }
    hide Pow;
  }

  lemma RPowSucc(b: Radix, e: int)
    ensures RPow(b, e + 1) == Product(b as real, RPow(b, e))
  {
    if e >= 0 {
      PowSucc(b, e);
      hide Pow;
      CastProduct(b, Pow(b, e));
    } else {
      RPowNegative(b, 0 - e);
    }
  }

  lemma RPowNegative(b: Radix, n: nat)
    requires n > 0
    ensures RPow(b, 1 - n) == Product(b as real, RPow(b, 0 - n))
  {
    hide *;
    PowSucc(b, n - 1);
    RPowNat(b, n);
    RPowNat(b, n - 1);
    var p, q := Pow(b, n) as real, Pow(b, n - 1) as real;
    PowPositive(b, n - 1);
    CastProduct(b, Pow(b, n - 1));
    NextReciprocal(RPow(b, 1 - n), RPow(b, 0 - n), b as real, p, q);
  }

  lemma NextReciprocal(r: real, s: real, b: real, p: real, q: real)
    requires Product(r, q) == 1.0 && Product(s, p) == 1.0 && p == b * q && q > 0.0
    ensures r == Product(b, s)
  {
    assert Product(b, q) == p;
    hide Product;
    ProductAssoc(s, b, q);
    ProductAssoc(b, s, q);
    ProductCancel(r, Product(b, s), q);
  }

  lemma {:induction false} RPowAddNat(b: Radix, e: int, n: nat)
    ensures RPow(b, e + n) == Product(RPow(b, e), RPow(b, n))
  {
    RPowNat(b, 0);
    PowZero(b);
    hide *;
    if n == 0 {
      ProductUnit(RPow(b, e));
    } else {
      RPowAddNat(b, e, n - 1);
      RPowSucc(b, e + (n - 1));
      RPowSucc(b, n - 1);
      var p, q := RPow(b, e), RPow(b, n - 1);
      ProductAssoc(b as real, p, q);
      ProductAssoc(p, b as real, q);
      assert e + (n - 1) + 1 == e + n;
    }
  }

  lemma RPowAdd(b: Radix, m: int, n: int)
    ensures RPow(b, m + n) == Product(RPow(b, m), RPow(b, n))
  {
    if n >= 0 {
      RPowAddNat(b, m, n);
    } else {
      var k: nat := 0 - n;
      RPowAddNat(b, m + n, k);
      RPowNat(b, k);
      hide *;
      var p, q, r := RPow(b, m + n), RPow(b, k), RPow(b, n);
      assert RPow(b, m) == Product(p, q);
      ProductAssoc(p, q, r);
      ProductAssoc(q, r, 1.0);
      ProductUnit(p);
    }
  }

  lemma RPowMonotone(b: Radix, m: int, n: int)
    requires m <= n
    ensures RPow(b, m) <= RPow(b, n)
  {
    RPowAdd(b, m, n - m);
    RPowNat(b, n - m);
    PowPositive(b, n - m);
    hide Pow, RPow, Product;
    var p := RPow(b, m);
    ProductUnit(p);
    ProductAssoc(p, RPow(b, n - m), 1.0);
    ProductMono(1.0, RPow(b, n - m), p);
  }

  lemma RPowStrict(b: Radix, m: int, n: int)
    requires RPow(b, m) < RPow(b, n)
    ensures m < n
  {
    if n <= m {
      RPowMonotone(b, n, m);
    }
  }

  /** RadixScaled says: multiplied by the power. */
  lemma RadixScaledProduct(x: real, v: real, b: Radix, f: int)
    ensures RadixScaled(x, v, b, f) <==> x == Product(v, RPow(b, f))
  {
    if f < 0 {
      RPowNat(b, 0 - f);
      var p, r := Pow(b, 0 - f) as real, RPow(b, f);
      PowPositive(b, 0 - f);
      assert RadixScaled(x, v, b, f) <==> Product(x, p) == v;
      hide Pow, RPow, Product, RadixScaled;
      if Product(x, p) == v {
        ProductAssoc(x, p, r);
        ProductAssoc(p, r, 1.0);
        ProductUnit(x);
      }
      if x == Product(v, r) {
        ProductAssoc(v, r, p);
        ProductUnit(v);
      }
    }
  }

  /** The number that a mantissa and an exponent of the radix stand for. */
  ghost function RadixValue(v: real, b: Radix, f: int): (x: real)
    ensures RadixScaled(x, v, b, f)
  {
    RadixScaledProduct(Product(v, RPow(b, f)), v, b, f);
    Product(v, RPow(b, f))
  }

  lemma RadixValueUnique(x: real, v: real, b: Radix, f: int)
    requires RadixScaled(x, v, b, f)
    ensures x == RadixValue(v, b, f)
  {
    RadixScaledProduct(x, v, b, f);
  }

  lemma RadixValueScale(v: real, b: Radix, f: int, g: int)
    ensures RadixValue(v, b, f + g) == RadixValue(RadixValue(v, b, f), b, g)
  {
    RPowAdd(b, f, g);
    ProductAssoc(v, RPow(b, f), RPow(b, g));
  }

  // ----- inverse powers -----

  lemma InverseBound(r: real, p: real, s: real, q: real)
    requires Product(r, p) == 1.0 && Product(s, q) == 1.0 && r > 0.0 && s > 0.0 && p > 0.0 && q > 0.0
    ensures p <= q <==> s <= r
  {
    hide Product;
    ProductMono(p, q, r);
    ProductMono(s, r, q);
    ProductAssoc(p, r, 1.0);
    ProductAssoc(q, r, 1.0);
  }

  lemma Exp2InverseProduct(k: nat)
    ensures Product(Exp2(0 - k), Exp2(k)) == 1.0 && Exp2(k) == Pow2(k) as real
  {
    Exp2Nat(k);
    Exp2Inverse(k);
  }

  lemma InversePowers(b: Radix, n: nat, k: nat)
    ensures Pow(b, n) >= Pow2(k) ==> RPow(b, 0 - n) <= Exp2(0 - k)
    ensures Pow(b, n) <= Pow2(k) ==> RPow(b, 0 - n) >= Exp2(0 - k)
  {
    hide *;
    RPowNat(b, n);
    Exp2InverseProduct(k);
    InverseBound(RPow(b, 0 - n), RPow(b, n), Exp2(0 - k), Exp2(k));
    InverseBound(Exp2(0 - k), Exp2(k), RPow(b, 0 - n), RPow(b, n));
  }
}
