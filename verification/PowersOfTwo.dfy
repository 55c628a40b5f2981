/** Powers of two: as naturals (shift counts and masks) and as positive reals
    with an integer exponent (the scale of a floating-point significand). */
module PowersOfTwo {

  function Pow2(n: nat): (p: nat)
    ensures p >= 1
  {
    if n == 0 then 1 else 2 * Pow2(n - 1)
  }

  lemma {:induction false} Pow2Add(m: nat, n: nat)
    ensures Pow2(m + n) == Pow2(m) * Pow2(n)
  {
    if m > 0 {
      Pow2Add(m - 1, n);
      assert Pow2(m + n) == 2 * Pow2(m + n - 1);
      assert 2 * (Pow2(m - 1) * Pow2(n)) == (2 * Pow2(m - 1)) * Pow2(n);
    }
  }

  lemma Pow2Monotone(m: nat, n: nat)
    requires m <= n
    ensures Pow2(m) <= Pow2(n)
    decreases n
  {
    if m < n {
      Pow2Monotone(m, n - 1);
    }
  }

  lemma Pow2StrictlyMonotone(m: nat, n: nat)
    requires m < n
    ensures 2 * Pow2(m) <= Pow2(n)
  {
    Pow2Monotone(m + 1, n);
  }

  /** The powers of two that the binary64 layout and the limb size mention. */
  lemma Pow2Values()
    ensures Pow2(0) == 1 && Pow2(1) == 2 && Pow2(2) == 4 && Pow2(3) == 8
    ensures Pow2(8) == 0x100 && Pow2(9) == 0x200 && Pow2(10) == 0x400 && Pow2(11) == 0x800
    ensures Pow2(31) == 0x8000_0000 && Pow2(32) == 0x1_0000_0000
    ensures Pow2(52) == 0x10_0000_0000_0000 && Pow2(53) == 0x20_0000_0000_0000
    ensures Pow2(61) == 0x2000_0000_0000_0000 && Pow2(62) == 0x4000_0000_0000_0000
    ensures Pow2(63) == 0x8000_0000_0000_0000 && Pow2(64) == 0x1_0000_0000_0000_0000
  {
    assert Pow2(16) == 0x1_0000;
    Pow2Add(16, 16);
    assert Pow2(20) == 0x10_0000;
    Pow2Add(32, 20);
    Pow2Add(32, 32);
    Pow2Add(11, 20);
    Pow2Add(53, 8);
  }

  /** The number of bits of a. */
  function BitLength(a: nat): (n: nat)
  {
    if a == 0 then 0 else 1 + BitLength(a / 2)
  }

  lemma {:induction false} BitLengthBounds(a: nat)
    ensures a < Pow2(BitLength(a))
    ensures if a == 0 then BitLength(a) == 0 else BitLength(a) > 0 && Pow2(BitLength(a) - 1) <= a
  {
    if a > 0 {
      BitLengthBounds(a / 2);
    }
  }

  /** Bounds pin the bit length. */
  lemma BitLengthUnique(a: nat, n: nat)
    requires n > 0 && Pow2(n - 1) <= a < Pow2(n)
    ensures BitLength(a) == n
  {
    BitLengthBounds(a);
    var b := BitLength(a);
    hide *;
    if b < n {
      Pow2Monotone(b, n - 1);
    } else if b > n {
      Pow2Monotone(n, b - 1);
    }
  }

  lemma BitLengthAtMost(a: nat, n: nat)
    requires a < Pow2(n)
    ensures BitLength(a) <= n
  {
    BitLengthBounds(a);
    var b := BitLength(a);
    hide *;
    if b > n {
      Pow2Monotone(n, b - 1);
    }
  }

  lemma BitLengthAtLeast(a: nat, n: nat)
    requires Pow2(n) <= a
    ensures BitLength(a) >= n + 1
  {
    BitLengthBounds(a);
    var b := BitLength(a);
    hide *;
    if b <= n {
      Pow2Monotone(b, n);
    }
  }

  /** 2^e for an integer e, as a real. */
  function Exp2(e: int): (r: real)
    ensures r > 0.0
    decreases if e < 0 then -e else e
  {
    if e == 0 then 1.0
    else if e > 0 then 2.0 * Exp2(e - 1)
    else Exp2(e + 1) / 2.0
  }

  /** x is v scaled by 2^e. */
  ghost predicate IsScaled(x: real, v: real, e: int) {
    x == v * Exp2(e)
  }

  ghost function ScaleBy(v: real, e: int): (x: real)
    ensures IsScaled(x, v, e)
  {
    v * Exp2(e)
  }

  lemma Exp2Succ(e: int)
    ensures Exp2(e + 1) == 2.0 * Exp2(e)
  {
  }

  lemma Exp2Zero()
    ensures Exp2(0) == 1.0 && Pow2(0) == 1
  {
  }

  lemma Pow2Succ(n: nat)
    ensures Pow2(n + 1) == 2 * Pow2(n)
  {
  }

  lemma {:induction false} Exp2AddNat(e: int, n: nat)
    ensures Exp2(e + n) == Exp2(e) * (Pow2(n) as real)
  {
    hide *;
    if n == 0 {
      Exp2Zero();
    } else {
      Pow2Succ(n - 1);
      Exp2Succ(e + n - 1);
      Exp2AddNat(e, n - 1);
      var p := Pow2(n - 1) as real;
      MulAssoc(2.0, Exp2(e), p);
      MulAssoc(Exp2(e), 2.0, p);
    }
  }

  lemma Exp2Add(a: int, b: int)
    ensures Exp2(a + b) == Exp2(a) * Exp2(b)
  {
    hide *;
    Exp2Zero();
    if b >= 0 {
      Exp2AddNat(a, b);
      Exp2Nat(b);
      MulEqual(Exp2(a), Pow2(b) as real, Exp2(b));
    } else {
      var n: nat := -b;
      Exp2AddNat(a + b, n);
      Exp2AddNat(b, n);
      CancelFactor(Exp2(a), Exp2(a + b), Pow2(n) as real, Exp2(b));
    }
  }

  lemma {:induction false} Exp2Nat(n: nat)
    ensures Exp2(n) == Pow2(n) as real
  {
    if n > 0 {
      Exp2Nat(n - 1);
    }
  }

  lemma Exp2Inverse(e: int)
    ensures Exp2(e) * Exp2(-e) == 1.0
  {
    Exp2Add(e, -e);
  }

  lemma Exp2Monotone(a: int, b: int)
    requires a <= b
    ensures Exp2(a) <= Exp2(b)
  {
    hide *;
    var p := Pow2(b - a) as real;
    Exp2AddNat(a, b - a);
    assert Exp2(b) == Exp2(a) * p;
    Pow2Monotone(0, b - a);
    Exp2Zero();
    MulMono(1.0, p, Exp2(a));
    assert Exp2(a) * 1.0 == Exp2(a);
  }

  // Facts about real products that the proofs use by name.
  lemma MulAssoc(a: real, b: real, c: real)
    ensures a * (b * c) == (a * b) * c
  {
  }

  lemma MulEqual(a: real, b: real, c: real)
    requires b == c
    ensures a * b == a * c
  {
  }

  lemma CancelFactor(a: real, b: real, p: real, q: real)
    requires a == b * p && q * p == 1.0
    ensures a * q == b
  {
    MulAssoc(b, p, q);
  }

  lemma MulMono(a: real, b: real, c: real)
    requires a <= b && c >= 0.0
    ensures a * c <= b * c && c * a <= c * b
  {
    assert (b - a) * c >= 0.0;
    assert (b - a) * c == b * c - a * c;
  }

  lemma MulStrict(a: real, b: real, c: real)
    requires a < b && c > 0.0
    ensures a * c < b * c && c * a < c * b
  {
    assert (b - a) * c > 0.0;
    assert (b - a) * c == b * c - a * c;
  }

  // ----- the algebra of scaling -----

  lemma ScaleTrans(x: real, y: real, z: real, e: int, f: int)
    requires IsScaled(x, y, e) && IsScaled(y, z, f)
    ensures IsScaled(x, z, e + f)
  {
    var p, q := Exp2(e), Exp2(f);
    Exp2Add(e, f);
    hide Exp2;
    MulAssoc(z, q, p);
  }

  lemma ScaleInverse(x: real, y: real, e: int)
    requires IsScaled(x, y, e)
    ensures IsScaled(y, x, 0 - e)
  {
    var p, q := Exp2(e), Exp2(0 - e);
    Exp2Inverse(e);
    hide Exp2;
    MulAssoc(y, p, q);
  }

  lemma ScaleProduct(a: real, m: real, e: int, b: real, n: real, f: int)
    requires IsScaled(a, m, e) && IsScaled(b, n, f)
    ensures IsScaled(a * b, m * n, e + f)
  {
    var p, q := Exp2(e), Exp2(f);
    Exp2Add(e, f);
    hide Exp2;
    MulShuffle(m, p, n, q);
  }

  lemma MulShuffle(m: real, p: real, n: real, q: real)
    ensures (m * p) * (n * q) == (m * n) * (p * q)
  {
    MulAssoc(m * p, n, q);
    MulAssoc(m, p, n);
    MulAssoc(m, n, p);
    MulAssoc(m * n, p, q);
  }

  lemma ScaleNat(v: real, n: nat)
    ensures IsScaled(v * (Pow2(n) as real), v, n)
  {
    Exp2Nat(n);
  }

  lemma ScaleNatOf(w: real, v: real, n: nat)
    requires w == v * (Pow2(n) as real)
    ensures IsScaled(w, v, n)
  {
    Exp2Nat(n);
  }

  lemma ScaledZero(k: int)
    ensures IsScaled(0.0, 0.0, k)
  {
  }

  lemma ScaleOrder(x: real, y: real, v: real, w: real, e: int)
    requires IsScaled(x, v, e) && IsScaled(y, w, e)
    ensures x < y <==> v < w
    ensures x == y <==> v == w
  {
    var p := Exp2(e);
    hide Exp2;
    if v < w {
      MulStrict(v, w, p);
    } else if w < v {
      MulStrict(w, v, p);
    }
  }

  lemma ScaleQuotient(a: real, m: real, e: int, b: real, n: real, f: int)
    requires IsScaled(a, m, e) && IsScaled(b, n, f) && b != 0.0 && n != 0.0
    ensures IsScaled(a / b, m / n, e - f)
  {
    hide *;
    IsScaledElim(a, m, e);
    IsScaledElim(b, n, f);
    Exp2Add(e - f, f);
    QuotientShuffle(a, m, Exp2(e), b, n, Exp2(f), Exp2(e - f));
    IsScaledIntro(a / b, m / n, e - f);
  }

  lemma IsScaledElim(x: real, v: real, e: int)
    requires IsScaled(x, v, e)
    ensures x == v * Exp2(e)
  {
  }

  lemma IsScaledIntro(x: real, v: real, e: int)
    requires x == v * Exp2(e)
    ensures IsScaled(x, v, e)
  {
  }

  lemma QuotientShuffle(a: real, m: real, p: real, b: real, n: real, q: real, s: real)
    requires a == m * p && b == n * q && p == s * q && b != 0.0 && n != 0.0
    ensures a / b == (m / n) * s
  {
    var k := m / n;
    assert m == k * n;
    assert a == (k * s) * b by {
      calc {
        a;
        (k * n) * (s * q);
        { MulShuffle(k, n, s, q); }
        (k * s) * (n * q);
      }
    }
    DivideProduct(a, k * s, b);
  }

  lemma DivideProduct(a: real, k: real, b: real)
    requires a == k * b && b != 0.0
    ensures a / b == k
  {
  }
}
