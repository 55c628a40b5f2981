/** eq_quiet_sf, le_sf, lt_sf and cmp_sf of the soft-float library. */
module Compare {
  import opened MachineWords
  import opened Binary64

  /** (a | b) << 1 == 0: both operands are zeros. */
  predicate BothZero(a: Bits, b: Bits) {
    a % TWO63 == 0 && b % TWO63 == 0
  }

  predicate EqQuietSf(a: Bits, b: Bits) {
    if IsNaN(a) || IsNaN(b) then false
    else if BothZero(a, b) then true
    else a == b
  }

  predicate LeSf(a: Bits, b: Bits) {
    if IsNaN(a) || IsNaN(b) then false
    else if SignOf(a) != SignOf(b) then SignOf(a) == 1 || BothZero(a, b)
    else if SignOf(a) == 1 then a >= b
    else a <= b
  }

  predicate LtSf(a: Bits, b: Bits) {
    if IsNaN(a) || IsNaN(b) then false
    else if SignOf(a) != SignOf(b) then SignOf(a) == 1 && !BothZero(a, b)
    else if SignOf(a) == 1 then a > b
    else a < b
  }

  /** -1, 0 or 1 by order, 2 when unordered. */
  function CmpSf(a: Bits, b: Bits): int {
    if IsNaN(a) || IsNaN(b) then 2
    else if SignOf(a) != SignOf(b) then (if BothZero(a, b) then 0 else 1 - 2 * SignOf(a))
    else if a < b then 2 * SignOf(a) - 1
    else if a > b then 1 - 2 * SignOf(a)
    else 0
  }

  predicate Ordered(a: Bits, b: Bits) { !IsNaN(a) && !IsNaN(b) }

  /** Integer comparison of the bit patterns is the order of the values;
      infinities lie beyond every finite value, -0 equals +0, and NaN is not
      comparable to anything. */
  lemma ComparisonsOrderValues(a: Bits, b: Bits)
    ensures EqQuietSf(a, b) <==> Ordered(a, b) && SignedValue(a) == SignedValue(b)
    ensures LeSf(a, b) <==> Ordered(a, b) && SignedValue(a) <= SignedValue(b)
    ensures LtSf(a, b) <==> Ordered(a, b) && SignedValue(a) < SignedValue(b)
    ensures CmpSf(a, b) == if !Ordered(a, b) then 2
                           else if SignedValue(a) < SignedValue(b) then -1
                           else if SignedValue(a) == SignedValue(b) then 0 else 1
  {
    hide Magnitude, IsNaN;
    LowBitsOrder(a, b);
    LowBitsOrder(b, a);
    MagnitudeOfLowBits(a);
    MagnitudeOfLowBits(b);
  }

  lemma LowBitsOrder(a: Bits, b: Bits)
    ensures a % TWO63 < b % TWO63 ==> Magnitude(a) < Magnitude(b)
    ensures a % TWO63 == b % TWO63 ==> Magnitude(a) == Magnitude(b)
  {
    hide Magnitude;
    if a % TWO63 < b % TWO63 {
      MagnitudeStrictlyMonotone(a, b);
    } else if a % TWO63 == b % TWO63 {
      SameLowBits(a, b);
    }
  }

  lemma MagnitudeOfLowBits(a: Bits)
    ensures Magnitude(a) == 0 <==> a % TWO63 == 0
  {
    hide Magnitude;
    MagnitudeZero(a);
    PackFields(a);
  }
}
