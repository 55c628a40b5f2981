/** Rounding an exact nonnegative real to a 53-bit significand, as section 4.3
    of IEEE 754-2019 defines it: by comparison with every representable number,
    without any reference to an algorithm.  One unit is 2^-1074, so that every
    finite binary64 magnitude is a natural number. */
module Rounding {
  import opened PowersOfTwo

  const P52: nat := 0x10_0000_0000_0000
  const P53: nat := 0x20_0000_0000_0000

  /** The four ways to round a magnitude. */
  datatype Direction = Down | Up | NearEven | NearAway

  ghost predicate Scaled(f: nat, m: nat, k: nat) {
    f == m * Pow2(k)
  }

  /** A 53-bit significand times a power of two (no upper exponent limit). */
  ghost predicate Representable(f: nat) {
    exists m: nat, k: nat :: m < P53 && Scaled(f, m, k)
  }

  /** The normalised representation: a full significand, or no scale at all. */
  ghost predicate Canonical(f: nat, m: nat, k: nat) {
    m < P53 && (k == 0 || P52 <= m) && Scaled(f, m, k)
  }

  ghost predicate EvenSignificand(f: nat) {
    exists m: nat, k: nat :: m % 2 == 0 && Canonical(f, m, k)
  }

  ghost function Distance(x: real, f: nat): real {
    if x <= f as real then f as real - x else x - f as real
  }

  /** `y` is the representable number that `x` rounds to in direction `d`. */
  ghost predicate Rounds(x: real, y: nat, d: Direction) {
    && Representable(y)
    && match d
       case Down =>
         y as real <= x && forall f: nat :: Representable(f) && f as real <= x ==> f <= y
       case Up =>
         x <= y as real && forall f: nat :: Representable(f) && x <= f as real ==> y <= f
       case NearEven =>
         && (forall f: nat :: Representable(f) ==> Distance(x, y) <= Distance(x, f))
         && (forall f: nat :: Representable(f) && f != y && Distance(x, f) == Distance(x, y) ==> EvenSignificand(y))
       case NearAway =>
         && (forall f: nat :: Representable(f) ==> Distance(x, y) <= Distance(x, f))
         && (forall f: nat :: Representable(f) && f != y && Distance(x, f) == Distance(x, y) ==> f < y)
  }

  // ----- the gap between neighbours -----

  lemma CanonicalUnique(f: nat, m1: nat, k1: nat, m2: nat, k2: nat)
    requires Canonical(f, m1, k1) && Canonical(f, m2, k2)
    ensures m1 == m2 && k1 == k2
  {
    if k1 < k2 {
      CanonicalSmallerScale(f, m1, k1, m2, k2);
    } else if k2 < k1 {
      CanonicalSmallerScale(f, m2, k2, m1, k1);
    } else {
      var g := Pow2(k1);
      assert m1 * g == m2 * g;
      MulCancel(m1, m2, g);
    }
  }

  lemma CanonicalSmallerScale(f: nat, m1: nat, k1: nat, m2: nat, k2: nat)
    requires Canonical(f, m1, k1) && Canonical(f, m2, k2)
    ensures k1 >= k2
  {
    if k1 < k2 {
      Pow2StrictlyMonotone(k1, k2);
      ScaleBound(m1, P53, Pow2(k1));
      MulLower(P52, m2, Pow2(k2), 2 * Pow2(k1));
    }
  }

  lemma MulCancel(a: int, b: int, g: int)
    requires g > 0 && a * g == b * g
    ensures a == b
  {
  }

  lemma ScaleBound(m: int, n: int, g: int)
    requires m < n && g > 0
    ensures m * g < n * g && m * g <= n * g - g
  {
    assert (n - 1 - m) * g >= 0;
  }

  lemma MulLower(a: nat, b: nat, g: nat, h: nat)
    requires a <= b && h <= g
    ensures a * h <= b * g
  {
    assert b * (g - h) >= 0;
    assert (b - a) * h >= 0;
  }

  /** No representable number lies strictly between neighbouring grid points. */
  lemma GridGap(f: nat, a: nat, k: nat)
    requires Representable(f) && (k == 0 || P52 <= a)
    ensures f <= a * Pow2(k) || a * Pow2(k) + Pow2(k) <= f
  {
    var m: nat, j: nat :| m < P53 && Scaled(f, m, j);
    var g := Pow2(k);
    if j >= k {
      Pow2Add(j - k, k);
      var n := m * Pow2(j - k);
      assert f == n * g by { MulAssocInt(m, Pow2(j - k), g); }
      if n > a {
        ScaleBound(a, n, g);
      } else {
        MulLower(n, a, g, g);
      }
    } else {
      Pow2StrictlyMonotone(j, k);
      ScaleBound(m, P53, Pow2(j));
      MulLower(P52, a, g, 2 * Pow2(j));
    }
  }

  lemma MulAssocInt(a: int, b: int, c: int)
    ensures a * (b * c) == (a * b) * c
  {
  }

  lemma GridRepresentable(a: nat, k: nat)
    requires a <= P53
    ensures Representable(a * Pow2(k))
  {
    if a < P53 {
      assert Scaled(a * Pow2(k), a, k);
    } else {
      assert P53 * Pow2(k) == P52 * Pow2(k + 1);
      assert Scaled(a * Pow2(k), P52, k + 1);
    }
  }

  lemma GridEven(a: nat, k: nat)
    requires a <= P53 && (k == 0 || P52 <= a) && a % 2 == 0
    ensures EvenSignificand(a * Pow2(k))
  {
    if a < P53 {
      assert Canonical(a * Pow2(k), a, k);
    } else {
      assert P53 * Pow2(k) == P52 * Pow2(k + 1);
      assert Canonical(a * Pow2(k), P52, k + 1);
    }
  }

  // ----- rounding on a grid is rounding -----

  /** Whether direction `d` takes x, which lies between lo and lo + g, to lo + g. */
  ghost predicate Increments(x: real, lo: nat, g: nat, odd: bool, d: Direction) {
    match d
    case Down => false
    case Up => x > lo as real
    case NearEven => 2.0 * x > (2 * lo + g) as real || (2.0 * x == (2 * lo + g) as real && odd)
    case NearAway => 2.0 * x >= (2 * lo + g) as real
  }

  /** Choosing between two representable neighbours of x by `Increments` rounds
      x among all representable numbers. */
  lemma RoundsBetween(x: real, lo: nat, g: nat, odd: bool, y: nat, d: Direction)
    requires lo as real <= x < (lo + g) as real
    requires Representable(lo) && Representable(lo + g)
    requires forall f: nat :: Representable(f) ==> f <= lo || lo + g <= f
    requires EvenSignificand(if odd then lo + g else lo)
    requires y == lo + (if Increments(x, lo, g, odd, d) then g else 0)
    ensures Rounds(x, y, d)
  {
    hide Representable, EvenSignificand;
  }

  lemma RoundsOnGrid(x: real, a: nat, k: nat, y: nat, d: Direction)
    requires a < P53 && (k == 0 || P52 <= a)
    requires (a * Pow2(k)) as real <= x < (a * Pow2(k) + Pow2(k)) as real
    requires y == a * Pow2(k) + (if Increments(x, a * Pow2(k), Pow2(k), a % 2 == 1, d) then Pow2(k) else 0)
    ensures Rounds(x, y, d)
  {
    var lo, g := a * Pow2(k), Pow2(k);
    NextGridPoint(a, g);
    hide Pow2, Representable, EvenSignificand, Rounds, Increments;
    GridRepresentable(a, k);
    GridRepresentable(a + 1, k);
    forall f: nat | Representable(f)
      ensures f <= lo || lo + g <= f
    {
      GridGap(f, a, k);
    }
    if a % 2 == 1 {
      GridEven(a + 1, k);
    } else {
      GridEven(a, k);
    }
    RoundsBetween(x, lo, g, a % 2 == 1, y, d);
  }

  lemma NextGridPoint(a: int, g: int)
    ensures (a + 1) * g == a * g + g
  {
  }

  /** The definition determines the rounded value. */
  lemma RoundsUnique(x: real, y1: nat, y2: nat, d: Direction)
    requires Rounds(x, y1, d) && Rounds(x, y2, d)
    ensures y1 == y2
  {
    if y1 < y2 {
      RoundsNotLess(x, y1, y2, d);
    } else if y2 < y1 {
      RoundsNotLess(x, y2, y1, d);
    }
  }

  lemma RoundsNotLess(x: real, y1: nat, y2: nat, d: Direction)
    requires Rounds(x, y1, d) && Rounds(x, y2, d)
    ensures !(y1 < y2)
  {
    hide Pow2, Canonical;
    if y1 < y2 && d == NearEven {
      EvenNeighbours(x, y1, y2);
    }
  }

  lemma EvenNeighbours(x: real, y1: nat, y2: nat)
    requires Rounds(x, y1, NearEven) && Rounds(x, y2, NearEven) && EvenSignificand(y1) && EvenSignificand(y2)
    ensures !(y1 < y2)
  {
    hide Canonical, Rounds;
    var m1: nat, k1: nat :| m1 % 2 == 0 && Canonical(y1, m1, k1);
    var m2: nat, k2: nat :| m2 % 2 == 0 && Canonical(y2, m2, k2);
    hide *;
    if y1 < y2 {
      NextIsOther(x, y1, y2, m1, k1);
      CanonicalUnique(y2, m2, k2, m1 + 1, k1);
    }
  }

  /** The other nearest number is the next one, with an odd significand. */
  lemma NextIsOther(x: real, y1: nat, y2: nat, m: nat, k: nat)
    requires Rounds(x, y1, NearEven) && Rounds(x, y2, NearEven) && y1 < y2 && m % 2 == 0 && Canonical(y1, m, k)
    ensures Canonical(y2, m + 1, k)
  {
    RoundedRepresentable(x, y2);
    hide *;
    CanonicalNext(y1, m, k);
    GridGapOf(y2, y1, m, k);
    NearestBetween(x, y1, y2, y1 + Pow2(k));
  }

  lemma RoundedRepresentable(x: real, y: nat)
    requires Rounds(x, y, NearEven)
    ensures Representable(y)
  {
    hide Representable, EvenSignificand;
  }

  lemma CanonicalNext(y: nat, m: nat, k: nat)
    requires Canonical(y, m, k) && m % 2 == 0
    ensures Canonical(y + Pow2(k), m + 1, k) && Representable(y + Pow2(k))
  {
    NextGridPoint(m, Pow2(k));
    assert Scaled(y + Pow2(k), m + 1, k);
  }

  lemma GridGapOf(f: nat, y: nat, m: nat, k: nat)
    requires Representable(f) && Canonical(y, m, k)
    ensures f <= y || y + Pow2(k) <= f
  {
    GridGap(f, m, k);
  }

  /** Two different nearest numbers are neighbours. */
  lemma NearestBetween(x: real, y1: nat, y2: nat, f: nat)
    requires Rounds(x, y1, NearEven) && Rounds(x, y2, NearEven) && y1 < f <= y2 && Representable(f)
    ensures f == y2
  {
    hide Representable, EvenSignificand;
    assert Distance(x, y1) <= Distance(x, y2) <= Distance(x, f);
    assert Distance(x, y2) <= Distance(x, y1) <= Distance(x, f);
  }

  /** A representable number rounds to itself. */
  lemma RoundsExact(f: nat, d: Direction)
    requires Representable(f)
    ensures Rounds(f as real, f, d)
  {
  }

  /** Every nonnegative real has a rounded value. */
  lemma RoundingExists(x: real, d: Direction) returns (y: nat)
    requires x >= 0.0
    ensures Rounds(x, y, d)
  {
    var n: nat := x.Floor;
    var a, k := GridOf(n);
    hide *;
    var g := Pow2(k);
    FloorOnGrid(x, n, a, g);
    var inc := if Increments(x, a * g, g, a % 2 == 1, d) then g else 0;
    y := a * g + inc;
    RoundsOnGrid(x, a, k, y, d);
  }

  lemma FloorOnGrid(x: real, n: nat, a: nat, g: nat)
    requires n as real <= x < (n + 1) as real && a * g <= n < a * g + g
    ensures (a * g) as real <= x < (a * g + g) as real
  {
  }

  /** The grid point below n on the 53-bit grid that n lies on. */
  lemma GridOf(n: nat) returns (a: nat, k: nat)
    ensures a < P53 && (k == 0 || P52 <= a) && a * Pow2(k) <= n < a * Pow2(k) + Pow2(k)
  {
    Exp2Zero();
    Pow2Values();
    BitLengthBounds(n);
    hide Pow2, BitLength;
    if n < P53 {
      return n, 0;
    }
    BitLengthAtLeast(n, 53);
    k := BitLength(n) - 53;
    var g := Pow2(k);
    a := n / g;
    assert n == a * g + n % g;
    GridIndex(n, a, g, k);
  }

  lemma GridIndex(n: nat, a: nat, g: nat, k: nat)
    requires g == Pow2(k) && n == a * g + n % g
    requires Pow2(k + 52) <= n < Pow2(k + 53)
    ensures P52 <= a < P53 && n % g < g
  {
    Pow2Values();
    hide Pow2;
    Pow2Add(k, 52);
    Pow2Add(k, 53);
    if a >= P53 {
      MulLower(P53, a, g, g);
    }
    if a < P52 {
      ScaleBound(a, P52, g);
    }
  }

  // ----- rounding to an integer -----

  /** k is the integer that x >= 0 rounds to in direction d. */
  ghost predicate RoundsToInteger(x: real, k: nat, d: Direction) {
    match d
    case Down => k as real <= x < (k + 1) as real
    case Up => (k - 1) as real < x <= k as real
    case NearEven => (2 * k - 1) as real <= 2.0 * x <= (2 * k + 1) as real
                  && (2.0 * x == (2 * k - 1) as real || 2.0 * x == (2 * k + 1) as real ==> k % 2 == 0)
    case NearAway => (2 * k - 1) as real <= 2.0 * x < (2 * k + 1) as real
  }

  /** The choice between floor and floor + 1 rounds to an integer. */
  lemma IncrementRoundsToInteger(x: real, a: nat, k: nat, d: Direction)
    requires a as real <= x < (a + 1) as real
    requires k == a + (if Increments(x, a, 1, a % 2 == 1, d) then 1 else 0)
    ensures RoundsToInteger(x, k, d)
  {
  }

  lemma RoundsToIntegerUnique(x: real, k1: nat, k2: nat, d: Direction)
    requires RoundsToInteger(x, k1, d) && RoundsToInteger(x, k2, d)
    ensures k1 == k2
  {
  }
}
