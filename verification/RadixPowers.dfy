/** Powers of a radix: pow_ui, with its table of powers of five, and pow_ui_inv,
    the normalised divisor with its inverse. */
module RadixPowers {
  import opened MachineWords
  import opened PowersOfTwo
  import opened Rounding
  import opened Binary64
  import opened StickyBits
  import opened Limbs
  import opened Reciprocal

  function Pow(b: nat, n: nat): nat {
    if n == 0 then 1 else b * Pow(b, n - 1)
  }

  lemma PowSucc(b: nat, n: nat)
    ensures Pow(b, n + 1) == b * Pow(b, n)
  {
  }

  lemma PowZero(b: nat)
    ensures Pow(b, 0) == 1 && Pow(b, 1) == b
  {
  }

  lemma {:induction false} PowAdd(b: nat, m: nat, n: nat)
    ensures Pow(b, m + n) == Pow(b, m) * Pow(b, n)
  {
    if m > 0 {
      PowAdd(b, m - 1, n);
      PowSucc(b, m + n - 1);
      MulAssocInt(b, Pow(b, m - 1), Pow(b, n));
    }
  }

  lemma {:induction false} PowPositive(b: nat, n: nat)
    requires b > 0
    ensures Pow(b, n) > 0
  {
    if n > 0 {
      PowPositive(b, n - 1);
      MulLower(1, b, Pow(b, n - 1), 1);
    }
  }

  lemma {:induction false} PowProduct(b: nat, c: nat, n: nat)
    ensures Pow(b * c, n) == Pow(b, n) * Pow(c, n)
  {
    if n > 0 {
      PowProduct(b, c, n - 1);
      PowSucc(b * c, n - 1);
      var x, y := Pow(b, n - 1), Pow(c, n - 1);
      calc {
        (b * c) * (x * y);
        { MulAssocInt(b * c, x, y); MulAssocInt(b, c, x); MulAssocInt(b, x, c); MulAssocInt(b * x, c, y); }
        (b * x) * (c * y);
      }
    }
  }

  lemma {:induction false} PowOfTwo(n: nat)
    ensures Pow(2, n) == Pow2(n)
  {
    if n > 0 {
      PowOfTwo(n - 1);
    }
  }

  lemma {:induction false} PowOfPow2(s: nat, n: nat)
    ensures Pow(Pow2(s), n) == Pow2(s * n)
  {
    if n == 0 {
      Exp2Zero();
    } else {
      PowOfPow2(s, n - 1);
      hide Pow2;
      PowSucc(Pow2(s), n - 1);
      assert s * n == s + s * (n - 1);
      Pow2Add(s, s * (n - 1));
    }
  }

  lemma {:induction false} PowMonotone(b: nat, m: nat, n: nat)
    requires b > 0 && m <= n
    ensures Pow(b, m) <= Pow(b, n)
    decreases n
  {
    if m < n {
      PowMonotone(b, m, n - 1);
      PowPositive(b, n - 1);
      MulLower(1, b, Pow(b, n - 1), Pow(b, n - 1));
    }
  }

  lemma {:induction false} PowBaseMonotone(a: nat, c: nat, n: nat)
    requires a <= c
    ensures Pow(a, n) <= Pow(c, n)
  {
    if n == 0 {
      PowZero(a);
      PowZero(c);
    } else {
      PowBaseMonotone(a, c, n - 1);
      PowSucc(a, n - 1);
      PowSucc(c, n - 1);
      hide Pow;
      MulLower(a, c, Pow(c, n - 1), Pow(a, n - 1));
    }
  }

  // ----- pow_ui -----

  const POW5_TABLE: seq<nat> := [
    0x00000005, 0x00000019, 0x0000007d, 0x00000271,
    0x00000c35, 0x00003d09, 0x0001312d, 0x0005f5e1,
    0x001dcd65, 0x009502f9, 0x02e90edd, 0x0e8d4a51,
    0x48c27395, 0x6bcc41e9, 0x1afd498d, 0x86f26fc1,
    0xa2bc2ec5]

  const POW5H_TABLE: seq<nat> := [0x00000001, 0x00000007, 0x00000023, 0x000000b1]

  const POW5_INV_TABLE: seq<nat> := [
    0x99999999, 0x47ae147a, 0x0624dd2f, 0xa36e2eb1,
    0x4f8b588e, 0x0c6f7a0b, 0xad7f29ab, 0x5798ee23,
    0x12e0be82, 0xb7cdfd9d, 0x5fd7fe17, 0x19799812,
    0xc25c2684]

  lemma Pow5Low()
    ensures Pow(5, 1) == 5 && Pow(5, 2) == 25 && Pow(5, 3) == 125 && Pow(5, 4) == 625
    ensures Pow(5, 5) == 3125 && Pow(5, 6) == 15625 && Pow(5, 7) == 78125 && Pow(5, 8) == 390625
    ensures Pow(5, 9) == 1953125
  {
  }

  lemma Pow5High()
    ensures Pow(5, 10) == 9765625 && Pow(5, 11) == 48828125 && Pow(5, 12) == 244140625
    ensures Pow(5, 13) == 1220703125 && Pow(5, 14) == 6103515625 && Pow(5, 15) == 30517578125
    ensures Pow(5, 16) == 152587890625 && Pow(5, 17) == 762939453125
  {
    Pow5Low();
    hide Pow;
    PowSucc(5, 9);
    PowSucc(5, 10);
    PowSucc(5, 11);
    PowSucc(5, 12);
    PowSucc(5, 13);
    PowSucc(5, 14);
    PowSucc(5, 15);
    PowSucc(5, 16);
  }

  lemma Pow5Table(b: nat)
    requires 1 <= b <= 17
    ensures POW5_TABLE[b - 1] + (if b >= 14 then POW5H_TABLE[b - 14] * BASE else 0) == Pow(5, b)
    ensures Pow(5, b) <= 762939453125
    ensures b <= 13 ==> POW5_TABLE[b - 1] < BASE
  {
    Pow5Low();
    Pow5High();
    hide Pow;
  }

  /** Multiplication modulo 2^64 only depends on the factors modulo 2^64. */
  lemma MulMod(x: nat, y: nat, m: nat)
    requires m > 0
    ensures ((x % m) * (y % m)) % m == (x * y) % m
  {
    var r, t := x % m, y % m;
    MulModLeft(x, y, m);
    MulModLeft(y, r, m);
    assert y * r == r * y && t * r == r * t;
  }

  lemma MulModLeft(x: nat, y: nat, m: nat)
    requires m > 0
    ensures ((x % m) * y) % m == (x * y) % m
  {
    var a, r := x / m, x % m;
    assert x == a * m + r;
    assert x * y == r * y + (a * y) * m by {
      assert (a * m + r) * y == (a * m) * y + r * y;
      assert (a * m) * y == (a * y) * m;
    }
    AddMultiple(r * y, a * y, m);
  }

  lemma AddMultiple(r: nat, c: nat, m: nat)
    requires m > 0
    ensures (r + c * m) % m == r % m
  {
    assert r == r / m * m + r % m;
    DivModUnique(r + c * m, m, r / m + c, r % m);
  }

  /** x * y in 64 bits. */
  function Mul64(x: nat, y: nat): Bits {
    x * y % TWO64
  }

  lemma Mul64Mod(x: nat, y: nat, z: nat)
    requires z == x * y
    ensures Mul64(x % TWO64, y % TWO64) == z % TWO64
  {
    MulMod(x, y, TWO64);
  }

  lemma SquareAndMultiply(a: nat, e: nat, bit: nat)
    requires bit <= 1
    ensures var r := Mul64(Pow(a, e) % TWO64, Pow(a, e) % TWO64);
            (if bit == 1 then Mul64(r, a % TWO64) else r) == Pow(a, 2 * e + bit) % TWO64
  {
    hide Pow, Mul64;
    PowAdd(a, e, e);
    PowSucc(a, 2 * e);
    var p, r := Pow(a, e), Pow(a, 2 * e);
    assert r == p * p;
    Mul64Mod(p, p, r);
    CommuteProduct(a, r);
    Mul64Mod(r, a, r * a);
  }

  lemma CommuteProduct(a: int, b: int)
    ensures a * b == b * a
  {
  }

  lemma NextBit(b: nat, i: nat)
    ensures Div(b, Pow2(i)) == 2 * Div(b, Pow2(i + 1)) + Div(b, Pow2(i)) % 2
  {
    Pow2Succ(i);
    hide Pow2;
    var p := Pow2(i);
    var h := Div(b, 2 * p);
    DivMod(b, 2 * p);
    var r := Mod(b, 2 * p);
    if r < p {
      DivModUnique(b, p, 2 * h, r);
    } else {
      DivModUnique(b, p, 2 * h + 1, r - p);
    }
  }

  lemma TopBit(b: nat)
    requires b > 0
    ensures BitLength(b) >= 1 && Div(b, Pow2(BitLength(b) - 1)) == 1
  {
    BitLengthBounds(b);
    var n := BitLength(b) - 1;
    Pow2Succ(n);
    hide Pow2, BitLength;
    DivModUnique(b, Pow2(n), 1, b - Pow2(n));
  }

  /** pow_ui: a^b modulo 2^64. */
  method PowUi(a: Limb, b: nat) returns (r: Bits)
    ensures r == Pow(a, b) % TWO64
  {
    hide Pow, Pow2, BitLength, POW5_TABLE, POW5H_TABLE;
    PowZero(a);
    if b == 0 {
      return 1;
    }
    if b == 1 {
      return a;
    }
    if (a == 5 || a == 10) && b <= 17 {
      r := PowOfFive(a, b);
      return;
    }
    r := a;
    TopBit(b);
    var i: int := BitLength(b) - 2;
    while i >= 0
      invariant -1 <= i && r == Pow(a, Div(b, Pow2(i + 1))) % TWO64
    {
      NextBit(b, i);
      SquareAndMultiply(a, Div(b, Pow2(i + 1)), Div(b, Pow2(i)) % 2);
      r := Mul64(r, r);
      if Div(b, Pow2(i)) % 2 == 1 {
        r := Mul64(r, a);
      }
      i := i - 1;
    }
    Exp2Zero();
    assert Div(b, 1) == b;
  }

  /** The tabulated powers of 5, shifted for those of 10. */
  method PowOfFive(a: Limb, b: nat) returns (r: Bits)
    requires (a == 5 || a == 10) && 1 <= b <= 17
    ensures r == Pow(a, b) % TWO64
  {
    hide Pow, Pow2;
    Pow5Table(b);
    r := POW5_TABLE[b - 1];
    if b >= 14 {
      r := r + POW5H_TABLE[b - 14] * BASE;
    }
    if a == 10 {
      PowProduct(5, 2, b);
      PowOfTwo(b);
      r := Mul64(r, Pow2(b));
    }
  }

  // ----- pow_ui_inv -----

  function Clz32(a: Limb): (n: nat)
    ensures n <= 32
  {
    Pow2Values();
    BitLengthAtMost(a, 32);
    32 - BitLength(a)
  }

  lemma NormalizeLimb(d: Limb)
    requires d > 0
    ensures Clz32(d) < 32 && HALF <= d * Pow2(Clz32(d)) < BASE
  {
    hide Pow2, BitLength;
    Pow2Values();
    var n := BitLength(d);
    BitLengthBounds(d);
    BitLengthAtMost(d, 32);
    Pow2Add(n - 1, 32 - n);
    Pow2Add(n, 32 - n);
    MulLower(Pow2(n - 1), d, Pow2(32 - n), Pow2(32 - n));
    ScaleBound(d, Pow2(n), Pow2(32 - n));
  }

  /** The shift that normalises a limb is unique. */
  lemma ClzUnique(d: Limb, n: nat)
    requires d > 0 && HALF <= d * Pow2(n) < BASE
    ensures Clz32(d) == n
  {
    var c := Clz32(d);
    NormalizeLimb(d);
    hide *;
    DoubledShift(d, Pow2(c), Pow2(n));
    DoubledShift(d, Pow2(n), Pow2(c));
    if c < n {
      Pow2StrictlyMonotone(c, n);
    } else if n < c {
      Pow2StrictlyMonotone(n, c);
    }
  }

  lemma DoubledShift(d: nat, p: nat, q: nat)
    ensures 2 * p <= q ==> 2 * (d * p) <= d * q
  {
    if 2 * p <= q {
      MulLower(d, d, q, 2 * p);
      assert d * (2 * p) == 2 * (d * p);
    }
  }

  lemma ShiftValues()
    ensures Pow2(1) == 0x2
    ensures Pow2(4) == 0x10
    ensures Pow2(6) == 0x40
    ensures Pow2(8) == 0x100
    ensures Pow2(11) == 0x800
    ensures Pow2(13) == 0x2000
    ensures Pow2(15) == 0x8000
    ensures Pow2(18) == 0x40000
    ensures Pow2(20) == 0x100000
    ensures Pow2(22) == 0x400000
    ensures Pow2(25) == 0x2000000
    ensures Pow2(27) == 0x8000000
    ensures Pow2(29) == 0x20000000
  {
    assert Pow2(4) == 16 && Pow2(6) == 64;
    Pow2Values();
    hide Pow2;
    Pow2Add(11, 2);
    Pow2Add(13, 2);
    Pow2Add(15, 3);
    Pow2Add(18, 2);
    Pow2Add(20, 2);
    Pow2Add(22, 3);
    Pow2Add(25, 2);
    Pow2Add(27, 2);
  }

  lemma Pow5InverseLow(b: nat, d: Limb)
    requires 1 <= b <= 5 && d == POW5_TABLE[b - 1]
    ensures d > 0 && d * Pow2(Clz32(d)) < BASE && POW5_INV_TABLE[b - 1] < BASE
    ensures InverseOf(POW5_INV_TABLE[b - 1], d * Pow2(Clz32(d)))
  {
    ShiftValues();
    hide Pow2, Clz32;
    match b
    case 1 => ClzUnique(d, 29);
    case 2 => ClzUnique(d, 27);
    case 3 => ClzUnique(d, 25);
    case 4 => ClzUnique(d, 22);
    case 5 => ClzUnique(d, 20);
  }

  lemma Pow5InverseMiddle(b: nat, d: Limb)
    requires 6 <= b <= 9 && d == POW5_TABLE[b - 1]
    ensures d > 0 && d * Pow2(Clz32(d)) < BASE && POW5_INV_TABLE[b - 1] < BASE
    ensures InverseOf(POW5_INV_TABLE[b - 1], d * Pow2(Clz32(d)))
  {
    ShiftValues();
    hide Pow2, Clz32;
    match b
    case 6 => ClzUnique(d, 18);
    case 7 => ClzUnique(d, 15);
    case 8 => ClzUnique(d, 13);
    case 9 => ClzUnique(d, 11);
  }

  lemma Pow5InverseHigh(b: nat, d: Limb)
    requires 10 <= b <= 13 && d == POW5_TABLE[b - 1]
    ensures d > 0 && d * Pow2(Clz32(d)) < BASE && POW5_INV_TABLE[b - 1] < BASE
    ensures InverseOf(POW5_INV_TABLE[b - 1], d * Pow2(Clz32(d)))
  {
    ShiftValues();
    hide Pow2, Clz32;
    match b
    case 10 => ClzUnique(d, 8);
    case 11 => ClzUnique(d, 6);
    case 12 => ClzUnique(d, 4);
    case 13 => ClzUnique(d, 1);
  }

  /** The tabulated inverses are those of the shifted powers. */
  lemma Pow5Inverse(b: nat, d: Limb)
    requires 1 <= b <= 13 && d == POW5_TABLE[b - 1]
    ensures d > 0 && d * Pow2(Clz32(d)) < BASE && POW5_INV_TABLE[b - 1] < BASE
    ensures InverseOf(POW5_INV_TABLE[b - 1], d * Pow2(Clz32(d)))
  {
    hide Pow2, Clz32, POW5_TABLE, POW5_INV_TABLE, InverseOf;
    if b <= 5 {
      Pow5InverseLow(b, d);
    } else if b <= 9 {
      Pow5InverseMiddle(b, d);
    } else {
      Pow5InverseHigh(b, d);
    }
  }

  /** pow_ui_inv: the divisor a^b shifted to its full width, the shift, and the
      inverse. */
  method PowUiInv(a: Limb, b: nat) returns (r: Limb, inv: Limb, shift: nat)
    requires 0 < Pow(a, b) < BASE
    ensures shift < 32 && r == Pow(a, b) * Pow2(shift) && r >= HALF && InverseOf(inv, r)
  {
    hide Pow, Pow2, BitLength, InverseOf, Clz32;
    if a == 5 && 1 <= b <= 13 {
      Pow5Table(b);
      r := POW5_TABLE[b - 1];
      hide POW5_TABLE, POW5_INV_TABLE;
      NormalizeLimb(r);
      Pow5Inverse(b, r);
      shift := Clz32(r);
      r := r * Pow2(shift);
      inv := POW5_INV_TABLE[b - 1];
    } else {
      var p := PowUi(a, b);
      r := p;
      NormalizeLimb(r);
      shift := Clz32(r);
      r := r * Pow2(shift);
      inv := Udiv1NormInit(r);
    }
  }
}
