/** Digit strings: their value in a radix, and the bignum that js_atod builds
    from them one limb of digits at a time. */
module Digits {
  import opened Rounding
  import opened StickyBits
  import opened Limbs
  import opened RadixPowers
  import opened RadixTables
  import opened Bignum
  import opened RadixScaling

  /** The number that digits, most significant first, stand for. */
  function DigitsValue(s: seq<nat>, b: nat): nat {
    if |s| == 0 then 0 else DigitsValue(s[..|s| - 1], b) * b + s[|s| - 1]
  }

  predicate AreDigits(s: seq<nat>, b: nat) {
    forall i :: 0 <= i < |s| ==> s[i] < b
  }

  lemma {:induction false} DigitsConcat(s: seq<nat>, t: seq<nat>, b: nat)
    ensures DigitsValue(s + t, b) == DigitsValue(s, b) * Pow(b, |t|) + DigitsValue(t, b)
  {
    if |t| == 0 {
      assert s + t == s;
      PowZero(b);
    } else {
      var n := |t| - 1;
      assert (s + t)[..|s + t| - 1] == s + t[..n];
      DigitsConcat(s, t[..n], b);
      PowSucc(b, n);
      hide Pow;
      ConcatStep(DigitsValue(s, b), Pow(b, n), b, DigitsValue(t[..n], b));
    }
  }

  lemma ConcatStep(v: int, p: int, b: int, w: int)
    ensures (v * p + w) * b == v * (b * p) + w * b
  {
    assert (v * p + w) * b == (v * p) * b + w * b;
    assert (v * p) * b == v * (p * b);
  }

  lemma {:induction false} DigitsBound(s: seq<nat>, b: nat)
    requires b >= 2 && AreDigits(s, b)
    ensures DigitsValue(s, b) < Pow(b, |s|)
  {
    if |s| > 0 {
      var n := |s| - 1;
      DigitsBound(s[..n], b);
      PowSucc(b, n);
      hide Pow;
      MulLower(DigitsValue(s[..n], b) + 1, Pow(b, n), b, b);
      NextGridPoint(DigitsValue(s[..n], b), b);
    }
  }

  /** A nonzero leading digit bounds the value from below. */
  lemma DigitsLower(s: seq<nat>, b: nat)
    requires b >= 2 && |s| > 0 && s[0] > 0
    ensures Pow(b, |s| - 1) <= DigitsValue(s, b)
  {
    assert s == s[..1] + s[1..];
    DigitsConcat(s[..1], s[1..], b);
    assert s[..1][..0] == [];
    assert DigitsValue(s[..1], b) == s[0];
    hide Pow;
    MulLower(1, s[0], Pow(b, |s| - 1), Pow(b, |s| - 1));
  }

  // ----- mpb_mul1_base -----

  /** r = r * base + a, base 0 standing for 2^32. */
  method MulBase(r: Mpb, base: Limb, a: Limb)
    requires r.Valid() && r.Normal() && r.len + 2 <= r.tab.Length
    modifies r, r.tab
    ensures r.Valid() && r.Normal()
    ensures r.V() == old(r.V()) * (if base == 0 then BASE else base) + a
    ensures r.len <= old(r.len) + (if old(r.V()) == 0 then 0 else 1)
  {
    hide Value, BasePow;
    ZeroLimbs(r.tab[..r.len]);
    ghost var s := r.tab[..r.len];
    if r.tab[0] == 0 && r.len == 1 {
      r.tab[0] := a;
      FewLimbs(r.tab[..1]);
    } else {
      if base == 0 {
        MakeRoom(r);
        r.tab[0] := a;
        r.len := r.len + 1;
        PushLow(s, r.tab[..r.len], a);
      } else {
        var h := MpMul1(r.tab, r.tab, r.len, base, a);
        r.Append(h);
      }
      r.Renorm();
    }
  }

  /** Moving all limbs up by one; one limb more than those in use is moved. */
  method MakeRoom(r: Mpb)
    requires r.Valid() && r.len + 2 <= r.tab.Length
    modifies r.tab
    ensures forall j :: 0 <= j < r.len ==> r.tab[j + 1] == old(r.tab[j])
  {
    ghost var s := r.tab[..];
    var i: int := r.len;
    while i >= 0
      invariant -1 <= i <= r.len
      invariant forall j :: 0 <= j <= i ==> r.tab[j] == s[j]
      invariant forall j :: i < j <= r.len ==> r.tab[j + 1] == s[j]
    {
      r.tab[i + 1] := r.tab[i];
      i := i - 1;
    }
  }

  lemma PushLow(s: seq<Limb>, t: seq<Limb>, a: Limb)
    requires |t| == |s| + 1 && t[0] == a && forall j :: 0 <= j < |s| ==> t[j + 1] == s[j]
    ensures Value(t) == Value(s) * BASE + a
  {
    assert t[1..] == s;
  }

  // ----- the digit loop of js_atod -----

  /** The digits in the bignum and in the current limb. */
  ghost predicate Collected(v: nat, cur: nat, n: nat, s: seq<nat>, b: Radix) {
    n <= |s| && v == DigitsValue(s[..|s| - n], b) && cur == DigitsValue(s[|s| - n..], b) && cur < Pow(b, n)
  }

  lemma CollectDigit(v: nat, cur: nat, n: nat, s: seq<nat>, b: Radix, c: nat)
    requires Collected(v, cur, n, s, b) && c < b
    ensures Collected(v, cur * b + c, n + 1, s + [c], b)
  {
    var t := s + [c];
    assert t[..|t| - (n + 1)] == s[..|s| - n];
    assert t[|t| - (n + 1)..] == s[|s| - n..] + [c];
    assert (s[|s| - n..] + [c])[..n] == s[|s| - n..];
    DigitBound(cur, b, n, c);
    hide Pow;
  }

  lemma DigitBound(cur: nat, b: Radix, n: nat, c: nat)
    requires cur < Pow(b, n) && c < b
    ensures cur * b + c < Pow(b, n + 1)
  {
    PowSucc(b, n);
    hide *;
    MulLower(cur + 1, Pow(b, n), b, b);
    NextGridPoint(cur, b);
  }

  lemma CollectLimb(v: nat, cur: nat, n: nat, s: seq<nat>, b: Radix)
    requires Collected(v, cur, n, s, b)
    ensures v * Pow(b, n) + cur == DigitsValue(s, b)
    ensures Collected(v * Pow(b, n) + cur, 0, 0, s, b)
  {
    var m := |s| - n;
    assert s == s[..m] + s[m..];
    assert s[..|s| - 0] == s && s[|s| - 0..] == [];
    PowZero(b);
    hide Pow;
    DigitsConcat(s[..m], s[m..], b);
    hide DigitsValue;
  }

  /** radix_base is the power of the radix that a full limb of digits needs. */
  lemma LimbPowerIs(b: Radix)
    ensures RadixBase(b) < BASE
    ensures Pow(b, DigitsPerLimb(b)) == if RadixBase(b) == 0 then BASE else RadixBase(b)
  {
    LimbPower(b);
    FastPowIsPow(b, DigitsPerLimb(b));
    TableWidths(b);
  }

  lemma PartialLimb(b: Radix, n: nat)
    requires n <= DigitsPerLimb(b)
    ensures Pow(b, n) <= BASE && (n < DigitsPerLimb(b) ==> Pow(b, n) < BASE) && Pow(b, n) > 0
  {
    LimbPowerIs(b);
    PowPositive(b, n);
    PowMonotone(b, n, DigitsPerLimb(b));
    if n < DigitsPerLimb(b) {
      PowMonotone(b, n + 1, DigitsPerLimb(b));
      PowSucc(b, n);
      hide Pow;
      MulLower(2, b, Pow(b, n), Pow(b, n));
    }
  }

  /** How many limbs collecting n digits can take. */
  function LimbsFor(n: nat, b: Radix): nat {
    TableWidths(b);
    Greatest(1, Groups(n, DigitsPerLimb(b)))
  }

  /** Whether a digit of s from position lo on is nonzero. */
  predicate AnyNonzero(s: seq<nat>, lo: nat) {
    exists i :: lo <= i < |s| && s[i] != 0
  }

  lemma AnyNonzeroStep(s: seq<nat>, lo: nat, i: nat)
    requires lo <= i < |s|
    ensures AnyNonzero(s[..i + 1], lo) <==> AnyNonzero(s[..i], lo) || s[i] != 0
  {
    if s[i] != 0 {
      assert s[..i + 1][i] != 0;
    }
    if AnyNonzero(s[..i], lo) {
      var j :| lo <= j < |s[..i]| && s[..i][j] != 0;
      assert s[..i + 1][j] != 0;
    }
    if AnyNonzero(s[..i + 1], lo) && s[i] == 0 {
      var j :| lo <= j < |s[..i + 1]| && s[..i + 1][j] != 0;
      assert s[..i][j] != 0;
    }
  }

  /** The loop state of js_atod: `groups` full limbs and n digits in the
      current one hold the digits s. */
  ghost predicate Collecting(v: nat, len: nat, cur: nat, n: nat, s: seq<nat>, b: Radix, groups: nat) {
    && Collected(v, cur, n, s, b) && n < DigitsPerLimb(b) && |s| == groups * DigitsPerLimb(b) + n
    && len <= Greatest(1, groups) && (groups == 0 ==> v == 0)
  }

  /** One more digit in the current limb, moved to the bignum when full. */
  method PushDigit(a: Mpb, cur0: Limb, n0: nat, c: nat, ghost s: seq<nat>, b: Radix, ghost groups0: nat)
    returns (cur: Limb, n: nat, ghost groups: nat)
    requires a.Valid() && a.Normal() && c < b && a.len + 2 <= a.tab.Length
    requires Collecting(a.V(), a.len, cur0, n0, s, b, groups0)
    modifies a, a.tab
    ensures a.Valid() && a.Normal() && Collecting(a.V(), a.len, cur, n, s + [c], b, groups)
  {
    hide Value, BasePow, Pow, DigitsValue, Collected, DigitsPerLimb, RadixBase;
    CollectDigit(a.V(), cur0, n0, s, b, c);
    PartialLimb(b, n0 + 1);
    CurrentBound(a.V(), cur0 * b + c, n0 + 1, s + [c], b);
    cur, n, groups := cur0 * b + c, n0 + 1, groups0;
    if n == DigitsPerLimb(b) {
      CollectLimb(a.V(), cur, n, s + [c], b);
      LimbPowerIs(b);
      MulBase(a, RadixBase(b), cur);
      cur, n := 0, 0;
      groups := groups + 1;
      NextGridPoint(groups0, DigitsPerLimb(b));
    }
  }

  /** The digits that do not fill a limb, at the end. */
  method PushRest(a: Mpb, cur: Limb, n: nat, ghost s: seq<nat>, b: Radix, ghost groups: nat)
    requires a.Valid() && a.Normal() && a.len + 2 <= a.tab.Length
    requires Collecting(a.V(), a.len, cur, n, s, b, groups)
    modifies a, a.tab
    ensures a.Valid() && a.Normal() && a.V() == DigitsValue(s, b) && a.len <= LimbsFor(|s|, b)
  {
    hide Value, BasePow, Pow, DigitsValue, Collected, DigitsPerLimb, Groups;
    CollectLimb(a.V(), cur, n, s, b);
    if n != 0 {
      PartialLimb(b, n);
      var p := PowUi(b, n);
      MulBase(a, p, cur);
    } else {
      PowZero(b);
      EmptyLimb(a.V(), cur, s, b);
    }
    GroupsOf(|s|, groups, n, DigitsPerLimb(b));
  }

  lemma EmptyLimb(v: nat, cur: nat, s: seq<nat>, b: Radix)
    requires Collected(v, cur, 0, s, b)
    ensures cur == 0
  {
    PowZero(b);
  }

  /** Collects the digits kept by js_atod; the flag says whether a nonzero digit
      was left out. */
  method CollectDigits(digits: seq<nat>, b: Radix, a: Mpb) returns (digitCount: nat, extra: bool)
    requires AreDigits(digits, b)
    requires a.Valid() && a.Normal() && a.V() == 0 && a.len == 1 && a.tab.Length >= 8
    modifies a, a.tab
    ensures a.Valid() && a.Normal()
    ensures digitCount == Least(|digits|, AtodMaxDigits(b)) && a.V() == DigitsValue(digits[..digitCount], b)
    ensures a.len <= LimbsFor(digitCount, b)
    ensures extra <==> AnyNonzero(digits, digitCount)
  {
    hide *;
    var maxDigits := AtodMaxDigits(b);
    var cur: Limb, n: nat := 0, 0;
    digitCount, extra := 0, false;
    var i := 0;
    ghost var groups := 0;
    NothingCollected(b);
    assert digits[..0] == [];
    NoneNonzero(digits[..0], 0);
    while i < |digits|
      invariant 0 <= i <= |digits| && digitCount == if i < maxDigits then i else maxDigits
      invariant a.Valid() && a.Normal()
      invariant Collecting(a.V(), a.len, cur, n, digits[..digitCount], b, groups)
      invariant extra <==> AnyNonzero(digits[..i], digitCount)
    {
      var c := digits[i];
      CollectingLength(a.V(), a.len, cur, n, digits[..digitCount], b, groups);
      if digitCount < maxDigits {
        NextDigit(digits, digitCount, b);
        cur, n, groups := PushDigit(a, cur, n, c, digits[..digitCount], b, groups);
        NoneNonzero(digits[..i], digitCount);
        digitCount := digitCount + 1;
        NoneNonzero(digits[..i + 1], digitCount);
      } else {
        AnyNonzeroStep(digits, digitCount, i);
        if c != 0 {
          extra := true;
        }
      }
      i := i + 1;
    }
    CollectingLength(a.V(), a.len, cur, n, digits[..digitCount], b, groups);
    PushRest(a, cur, n, digits[..digitCount], b, groups);
    assert digits[..i] == digits;
    LeastIs(|digits|, maxDigits);
  }

  lemma LeastIs(a: int, b: int)
    ensures Least(a, b) == if a < b then a else b
  {
  }

  lemma NextDigit(digits: seq<nat>, i: nat, b: nat)
    requires AreDigits(digits, b) && i < |digits|
    ensures digits[i] < b && digits[..i] + [digits[i]] == digits[..i + 1]
  {
  }

  lemma CollectingLength(v: nat, len: nat, cur: nat, n: nat, s: seq<nat>, b: Radix, groups: nat)
    requires Collecting(v, len, cur, n, s, b, groups) && |s| <= AtodMaxDigits(b)
    ensures len <= 5
  {
    TableWidths(b);
    ParsedDigits(b);
    hide DigitsPerLimb, AtodMaxDigits, Collected;
    GroupCount(|s|, groups, n, DigitsPerLimb(b), AtodMaxDigits(b));
  }

  lemma NoneNonzero(s: seq<nat>, lo: nat)
    requires |s| <= lo
    ensures !AnyNonzero(s, lo)
  {
  }

  lemma NothingCollected(b: Radix)
    ensures Collecting(0, 1, 0, 0, [], b, 0)
  {
    PowZero(b);
    TableWidths(b);
  }

  lemma CurrentBound(v: nat, cur: nat, n: nat, s: seq<nat>, b: Radix)
    requires Collected(v, cur, n, s, b)
    ensures cur < Pow(b, n)
  {
  }

  lemma GroupCount(count: nat, groups: nat, n: nat, d: nat, maxDigits: nat)
    requires d > 0 && count == groups * d + n && count <= maxDigits <= 5 * d
    ensures groups <= 5
  {
    if groups > 5 {
      MulLower(6, groups, d, d);
    }
  }

  lemma GroupsOf(count: nat, groups: nat, n: nat, d: nat)
    requires n < d && count == groups * d + n
    ensures Groups(count, d) == if n == 0 then groups else groups + 1
  {
    if n == 0 {
      DivModUnique(count + d - 1, d, groups, d - 1);
    } else {
      DivModUnique(count + d - 1, d, groups + 1, n - 1);
    }
  }
}
