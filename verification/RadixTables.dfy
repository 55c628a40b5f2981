/** The radix-indexed tables of dtoa.c, and what their entries guarantee. */
module RadixTables {
  import opened PowersOfTwo
  import opened Rounding
  import opened StickyBits
  import opened Limbs
  import opened RadixPowers

  type Radix = b: int | 2 <= b <= 36 witness 10

  const DIGITS_PER_LIMB: seq<nat> := [
    32, 20, 16, 13, 12, 11, 10, 10, 9, 9, 8, 8, 8, 8, 8, 7, 7, 7, 7, 7, 7, 7, 6, 6, 6, 6, 6, 6, 6, 6, 6, 6, 6, 6, 6]

  const RADIX_BASE: seq<nat> := [
    0x00000000, 0xcfd41b91, 0x00000000, 0x48c27395,
    0x81bf1000, 0x75db9c97, 0x40000000, 0xcfd41b91,
    0x3b9aca00, 0x8c8b6d2b, 0x19a10000, 0x309f1021,
    0x57f6c100, 0x98c29b81, 0x00000000, 0x18754571,
    0x247dbc80, 0x3547667b, 0x4c4b4000, 0x6b5a6e1d,
    0x94ace180, 0xcaf18367, 0x0b640000, 0x0e8d4a51,
    0x1269ae40, 0x17179149, 0x1cb91000, 0x23744899,
    0x2b73a840, 0x34e63b41, 0x40000000, 0x4cfa3cc1,
    0x5c13d840, 0x6d91b519, 0x81bf1000]

  const DTOA_MAX_DIGITS: seq<nat> := [
    54, 35, 28, 24, 22, 20, 19, 18, 17, 17, 16, 16,
    15, 15, 15, 14, 14, 14, 14, 14, 13, 13, 13, 13,
    13, 13, 13, 12, 12, 12, 12, 12, 12, 12, 12]

  const ATOD_MAX_DIGITS: seq<nat> := [
    64, 80, 32, 55, 49, 45, 21, 40, 38, 37, 35, 34,
    33, 32, 16, 31, 30, 30, 29, 29, 28, 28, 27, 27,
    27, 26, 26, 26, 26, 25, 12, 25, 25, 24, 24]

  const MAX_EXPONENT: seq<nat> := [
    1024, 647, 512, 442, 397, 365, 342, 324, 309, 297, 286, 277,
    269, 263, 256, 251, 246, 242, 237, 234, 230, 227, 224, 221,
    218, 216, 214, 211, 209, 207, 205, 203, 202, 200, 199]

  const MIN_EXPONENT: seq<int> := [
    -1075, -679, -538, -463, -416, -383, -359, -340, -324, -311, -300, -291,
    -283, -276, -269, -263, -258, -254, -249, -245, -242, -238, -235, -232,
    -229, -227, -224, -222, -220, -217, -215, -214, -212, -210, -208]

  function DigitsPerLimb(b: Radix): nat { DIGITS_PER_LIMB[b - 2] }

  function RadixBase(b: Radix): nat { RADIX_BASE[b - 2] }

  function DtoaMaxDigits(b: Radix): nat { DTOA_MAX_DIGITS[b - 2] }

  function AtodMaxDigits(b: Radix): nat { ATOD_MAX_DIGITS[b - 2] }

  function MaxExponent(b: Radix): nat { MAX_EXPONENT[b - 2] }

  function MinExponent(b: Radix): int { MIN_EXPONENT[b - 2] }

  // ----- the entries, computed by repeated squaring -----

  /** acc * x^n */
  function PowAcc(x: nat, n: nat, acc: nat): nat
    decreases n
  {
    if n == 0 then acc
    else if n % 2 == 0 then PowAcc(x * x, n / 2, acc)
    else PowAcc(x * x, n / 2, x * acc)
  }

  function FastPow(b: nat, n: nat): nat {
    PowAcc(b, n, 1)
  }

  lemma {:induction false} PowAccIsPow(x: nat, n: nat, acc: nat)
    ensures PowAcc(x, n, acc) == acc * Pow(x, n)
    decreases n
  {
    if n > 0 {
      var h := n / 2;
      PowProduct(x, x, h);
      PowAdd(x, h, h);
      if n % 2 == 0 {
        PowAccIsPow(x * x, h, acc);
      } else {
        PowAccIsPow(x * x, h, x * acc);
        PowSucc(x, 2 * h);
        MulAssocInt(acc, x, Pow(x, 2 * h));
        assert x * acc == acc * x;
      }
    }
  }

  lemma FastPowIsPow(b: nat, n: nat)
    ensures FastPow(b, n) == Pow(b, n)
  {
    PowAccIsPow(b, n, 1);
  }

  lemma LimbPower1()
    ensures FastPow(2, 32) == 0x100000000
    ensures FastPow(3, 20) == 0xcfd41b91
    ensures FastPow(4, 16) == 0x100000000
    ensures FastPow(5, 13) == 0x48c27395
    ensures FastPow(6, 12) == 0x81bf1000
    ensures FastPow(7, 11) == 0x75db9c97
    ensures FastPow(8, 10) == 0x40000000
    ensures FastPow(9, 10) == 0xcfd41b91
    ensures FastPow(10, 9) == 0x3b9aca00
    ensures FastPow(11, 9) == 0x8c8b6d2b
    ensures FastPow(12, 8) == 0x19a10000
    ensures FastPow(13, 8) == 0x309f1021
    ensures FastPow(14, 8) == 0x57f6c100
    ensures FastPow(15, 8) == 0x98c29b81
    ensures FastPow(16, 8) == 0x100000000
    ensures FastPow(17, 7) == 0x18754571
    ensures FastPow(18, 7) == 0x247dbc80
    ensures FastPow(19, 7) == 0x3547667b
  {
  }

  lemma LimbPower2()
    ensures FastPow(20, 7) == 0x4c4b4000
    ensures FastPow(21, 7) == 0x6b5a6e1d
    ensures FastPow(22, 7) == 0x94ace180
    ensures FastPow(23, 7) == 0xcaf18367
    ensures FastPow(24, 6) == 0xb640000
    ensures FastPow(25, 6) == 0xe8d4a51
    ensures FastPow(26, 6) == 0x1269ae40
    ensures FastPow(27, 6) == 0x17179149
    ensures FastPow(28, 6) == 0x1cb91000
    ensures FastPow(29, 6) == 0x23744899
    ensures FastPow(30, 6) == 0x2b73a840
    ensures FastPow(31, 6) == 0x34e63b41
    ensures FastPow(32, 6) == 0x40000000
    ensures FastPow(33, 6) == 0x4cfa3cc1
    ensures FastPow(34, 6) == 0x5c13d840
    ensures FastPow(35, 6) == 0x6d91b519
    ensures FastPow(36, 6) == 0x81bf1000
  {
  }

  lemma LimbPowerLow(b: Radix)
    requires 2 <= b <= 18
    ensures FastPow(b, DigitsPerLimb(b)) == if RadixBase(b) == 0 then BASE else RadixBase(b)
    ensures RadixBase(b) == 0 ==> b == 2 || b == 4 || b == 16
  {
    LimbPower1();
    LimbPower2();
    hide FastPow;
    match b {
      case 2 =>
      case 3 =>
      case 4 =>
      case 5 =>
      case 6 =>
      case 7 =>
      case 8 =>
      case 9 =>
      case 10 =>
      case 11 =>
      case 12 =>
      case 13 =>
      case 14 =>
      case 15 =>
      case 16 =>
      case 17 =>
      case 18 =>
    }
  }

  lemma LimbPowerHigh(b: Radix)
    requires 19 <= b <= 36
    ensures FastPow(b, DigitsPerLimb(b)) == if RadixBase(b) == 0 then BASE else RadixBase(b)
    ensures RadixBase(b) == 0 ==> b == 2 || b == 4 || b == 16
  {
    LimbPower1();
    LimbPower2();
    hide FastPow;
    match b {
      case 19 =>
      case 20 =>
      case 21 =>
      case 22 =>
      case 23 =>
      case 24 =>
      case 25 =>
      case 26 =>
      case 27 =>
      case 28 =>
      case 29 =>
      case 30 =>
      case 31 =>
      case 32 =>
      case 33 =>
      case 34 =>
      case 35 =>
      case 36 =>
    }
  }

  /** radix_base_table: the power of b that digits_per_limb digits need, 0 standing for 2^32. */
  lemma LimbPower(b: Radix)
    ensures FastPow(b, DigitsPerLimb(b)) == if RadixBase(b) == 0 then BASE else RadixBase(b)
    ensures RadixBase(b) == 0 ==> b == 2 || b == 4 || b == 16
  {
    hide *;
    if b <= 18 {
      LimbPowerLow(b);
    } else {
      LimbPowerHigh(b);
    }
  }

  lemma DigitsPower1()
    ensures FastPow(2, 53) >= FastPow(2, 53) && 2 * FastPow(2, 54) < FastPow(2, 64)
    ensures FastPow(3, 34) >= FastPow(2, 53) && 2 * FastPow(3, 35) < FastPow(2, 64)
    ensures FastPow(4, 27) >= FastPow(2, 53) && 2 * FastPow(4, 28) < FastPow(2, 64)
    ensures FastPow(5, 23) >= FastPow(2, 53) && 2 * FastPow(5, 24) < FastPow(2, 64)
    ensures FastPow(6, 21) >= FastPow(2, 53) && 2 * FastPow(6, 22) < FastPow(2, 64)
    ensures FastPow(7, 19) >= FastPow(2, 53) && 2 * FastPow(7, 20) < FastPow(2, 64)
    ensures FastPow(8, 18) >= FastPow(2, 53) && 2 * FastPow(8, 19) < FastPow(2, 64)
    ensures FastPow(9, 17) >= FastPow(2, 53) && 2 * FastPow(9, 18) < FastPow(2, 64)
    ensures FastPow(10, 16) >= FastPow(2, 53) && 2 * FastPow(10, 17) < FastPow(2, 64)
  {
  }

  lemma DigitsPower2()
    ensures FastPow(11, 16) >= FastPow(2, 53) && 2 * FastPow(11, 17) < FastPow(2, 64)
    ensures FastPow(12, 15) >= FastPow(2, 53) && 2 * FastPow(12, 16) < FastPow(2, 64)
    ensures FastPow(13, 15) >= FastPow(2, 53) && 2 * FastPow(13, 16) < FastPow(2, 64)
    ensures FastPow(14, 14) >= FastPow(2, 53) && 2 * FastPow(14, 15) < FastPow(2, 64)
    ensures FastPow(15, 14) >= FastPow(2, 53) && 2 * FastPow(15, 15) < FastPow(2, 64)
    ensures FastPow(16, 14) >= FastPow(2, 53) && 2 * FastPow(16, 15) < FastPow(2, 64)
    ensures FastPow(17, 13) >= FastPow(2, 53) && 2 * FastPow(17, 14) < FastPow(2, 64)
    ensures FastPow(18, 13) >= FastPow(2, 53) && 2 * FastPow(18, 14) < FastPow(2, 64)
    ensures FastPow(19, 13) >= FastPow(2, 53) && 2 * FastPow(19, 14) < FastPow(2, 64)
  {
  }

  lemma DigitsPower3()
    ensures FastPow(20, 13) >= FastPow(2, 53) && 2 * FastPow(20, 14) < FastPow(2, 64)
    ensures FastPow(21, 13) >= FastPow(2, 53) && 2 * FastPow(21, 14) < FastPow(2, 64)
    ensures FastPow(22, 12) >= FastPow(2, 53) && 2 * FastPow(22, 13) < FastPow(2, 64)
    ensures FastPow(23, 12) >= FastPow(2, 53) && 2 * FastPow(23, 13) < FastPow(2, 64)
    ensures FastPow(24, 12) >= FastPow(2, 53) && 2 * FastPow(24, 13) < FastPow(2, 64)
    ensures FastPow(25, 12) >= FastPow(2, 53) && 2 * FastPow(25, 13) < FastPow(2, 64)
    ensures FastPow(26, 12) >= FastPow(2, 53) && 2 * FastPow(26, 13) < FastPow(2, 64)
    ensures FastPow(27, 12) >= FastPow(2, 53) && 2 * FastPow(27, 13) < FastPow(2, 64)
    ensures FastPow(28, 12) >= FastPow(2, 53) && 2 * FastPow(28, 13) < FastPow(2, 64)
  {
  }

  lemma DigitsPower4()
    ensures FastPow(29, 11) >= FastPow(2, 53) && 2 * FastPow(29, 12) < FastPow(2, 64)
    ensures FastPow(30, 11) >= FastPow(2, 53) && 2 * FastPow(30, 12) < FastPow(2, 64)
    ensures FastPow(31, 11) >= FastPow(2, 53) && 2 * FastPow(31, 12) < FastPow(2, 64)
    ensures FastPow(32, 11) >= FastPow(2, 53) && 2 * FastPow(32, 12) < FastPow(2, 64)
    ensures FastPow(33, 11) >= FastPow(2, 53) && 2 * FastPow(33, 12) < FastPow(2, 64)
    ensures FastPow(34, 11) >= FastPow(2, 53) && 2 * FastPow(34, 12) < FastPow(2, 64)
    ensures FastPow(35, 11) >= FastPow(2, 53) && 2 * FastPow(35, 12) < FastPow(2, 64)
    ensures FastPow(36, 11) >= FastPow(2, 53) && 2 * FastPow(36, 12) < FastPow(2, 64)
  {
  }

  lemma DigitsPowerLow(b: Radix)
    requires 2 <= b <= 18
    ensures DtoaMaxDigits(b) >= 2 && FastPow(b, DtoaMaxDigits(b) - 1) >= FastPow(2, 53)
    ensures 2 * FastPow(b, DtoaMaxDigits(b)) < FastPow(2, 64)
  {
    DigitsPower1();
    DigitsPower2();
    hide FastPow;
    match b {
      case 2 =>
      case 3 =>
      case 4 =>
      case 5 =>
      case 6 =>
      case 7 =>
      case 8 =>
      case 9 =>
      case 10 =>
      case 11 =>
      case 12 =>
      case 13 =>
      case 14 =>
      case 15 =>
      case 16 =>
      case 17 =>
      case 18 =>
    }
  }

  lemma DigitsPowerHigh(b: Radix)
    requires 19 <= b <= 36
    ensures DtoaMaxDigits(b) >= 2 && FastPow(b, DtoaMaxDigits(b) - 1) >= FastPow(2, 53)
    ensures 2 * FastPow(b, DtoaMaxDigits(b)) < FastPow(2, 64)
  {
    DigitsPower2();
    DigitsPower3();
    DigitsPower4();
    hide FastPow;
    match b {
      case 19 =>
      case 20 =>
      case 21 =>
      case 22 =>
      case 23 =>
      case 24 =>
      case 25 =>
      case 26 =>
      case 27 =>
      case 28 =>
      case 29 =>
      case 30 =>
      case 31 =>
      case 32 =>
      case 33 =>
      case 34 =>
      case 35 =>
      case 36 =>
    }
  }

  /** dtoa_max_digits_table: that many digits separate all binary64 numbers and fit 64 bits. */
  lemma DigitsPower(b: Radix)
    ensures DtoaMaxDigits(b) >= 2 && FastPow(b, DtoaMaxDigits(b) - 1) >= FastPow(2, 53)
    ensures 2 * FastPow(b, DtoaMaxDigits(b)) < FastPow(2, 64)
  {
    hide *;
    if b <= 18 {
      DigitsPowerLow(b);
    } else {
      DigitsPowerHigh(b);
    }
  }

  lemma SmallerPowers1()
    ensures FastPow(2, 52) < FastPow(2, 53)
    ensures FastPow(3, 33) < FastPow(2, 53)
    ensures FastPow(4, 26) < FastPow(2, 53)
    ensures FastPow(5, 22) < FastPow(2, 53)
    ensures FastPow(6, 20) < FastPow(2, 53)
    ensures FastPow(7, 18) < FastPow(2, 53)
    ensures FastPow(8, 17) < FastPow(2, 53)
    ensures FastPow(9, 16) < FastPow(2, 53)
    ensures FastPow(10, 15) < FastPow(2, 53)
  {
  }

  lemma FewestDigits1(b: Radix)
    requires 2 <= b <= 10
    ensures DtoaMaxDigits(b) >= 2 && FastPow(b, DtoaMaxDigits(b) - 2) < FastPow(2, 53)
  {
    SmallerPowers1();
    hide FastPow;
    match b {
      case 2 =>
      case 3 =>
      case 4 =>
      case 5 =>
      case 6 =>
      case 7 =>
      case 8 =>
      case 9 =>
      case 10 =>
    }
  }

  lemma SmallerPowers2()
    ensures FastPow(11, 15) < FastPow(2, 53)
    ensures FastPow(12, 14) < FastPow(2, 53)
    ensures FastPow(13, 14) < FastPow(2, 53)
    ensures FastPow(14, 13) < FastPow(2, 53)
    ensures FastPow(15, 13) < FastPow(2, 53)
    ensures FastPow(16, 13) < FastPow(2, 53)
    ensures FastPow(17, 12) < FastPow(2, 53)
    ensures FastPow(18, 12) < FastPow(2, 53)
    ensures FastPow(19, 12) < FastPow(2, 53)
  {
  }

  lemma FewestDigits2(b: Radix)
    requires 11 <= b <= 19
    ensures DtoaMaxDigits(b) >= 2 && FastPow(b, DtoaMaxDigits(b) - 2) < FastPow(2, 53)
  {
    SmallerPowers2();
    hide FastPow;
    match b {
      case 11 =>
      case 12 =>
      case 13 =>
      case 14 =>
      case 15 =>
      case 16 =>
      case 17 =>
      case 18 =>
      case 19 =>
    }
  }

  lemma SmallerPowers3()
    ensures FastPow(20, 12) < FastPow(2, 53)
    ensures FastPow(21, 12) < FastPow(2, 53)
    ensures FastPow(22, 11) < FastPow(2, 53)
    ensures FastPow(23, 11) < FastPow(2, 53)
    ensures FastPow(24, 11) < FastPow(2, 53)
    ensures FastPow(25, 11) < FastPow(2, 53)
    ensures FastPow(26, 11) < FastPow(2, 53)
    ensures FastPow(27, 11) < FastPow(2, 53)
    ensures FastPow(28, 11) < FastPow(2, 53)
  {
  }

  lemma FewestDigits3(b: Radix)
    requires 20 <= b <= 28
    ensures DtoaMaxDigits(b) >= 2 && FastPow(b, DtoaMaxDigits(b) - 2) < FastPow(2, 53)
  {
    SmallerPowers3();
    hide FastPow;
    match b {
      case 20 =>
      case 21 =>
      case 22 =>
      case 23 =>
      case 24 =>
      case 25 =>
      case 26 =>
      case 27 =>
      case 28 =>
    }
  }

  lemma SmallerPowers4()
    ensures FastPow(29, 10) < FastPow(2, 53)
    ensures FastPow(30, 10) < FastPow(2, 53)
    ensures FastPow(31, 10) < FastPow(2, 53)
    ensures FastPow(32, 10) < FastPow(2, 53)
    ensures FastPow(33, 10) < FastPow(2, 53)
    ensures FastPow(34, 10) < FastPow(2, 53)
    ensures FastPow(35, 10) < FastPow(2, 53)
    ensures FastPow(36, 10) < FastPow(2, 53)
  {
  }

  lemma FewestDigits4(b: Radix)
    requires 29 <= b <= 36
    ensures DtoaMaxDigits(b) >= 2 && FastPow(b, DtoaMaxDigits(b) - 2) < FastPow(2, 53)
  {
    SmallerPowers4();
    hide FastPow;
    match b {
      case 29 =>
      case 30 =>
      case 31 =>
      case 32 =>
      case 33 =>
      case 34 =>
      case 35 =>
      case 36 =>
    }
  }

  lemma ParsedPowers()
    ensures FastPow(2, 64) == 0x10000000000000000 && FastPow(2, 128) == 0x100000000000000000000000000000000
  {
  }

  lemma ParsedPowers2()
    ensures FastPow(2, 64) == 0x10000000000000000
    ensures FastPow(2, 65) == 0x20000000000000000
    ensures FastPow(3, 80) == 0x6f32f1ef8b18a2bc3cea59789c79d441
    ensures FastPow(3, 81) == 0x14d98d5cea149e834b6bf0c69d56d7cc3
  {
  }

  lemma ParsedPowers4()
    ensures FastPow(4, 32) == 0x10000000000000000
    ensures FastPow(4, 33) == 0x40000000000000000
    ensures FastPow(5, 55) == 0xd0cf4b50cfe20765fff4b4e3f741cf6d
    ensures FastPow(5, 56) == 0x4140c78940f6a24fdffc78873d4490d21
  {
  }

  lemma ParsedPowers6()
    ensures FastPow(6, 49) == 0x6558e2a0921fe0694286000000000000
    ensures FastPow(6, 50) == 0x260154fc36cbf42778f24000000000000
  {
  }

  lemma ParsedBits1(b: Radix)
    requires 2 <= b <= 6
    ensures FastPow(b, AtodMaxDigits(b)) <= FastPow(2, ParsedBits(b)) < FastPow(b, AtodMaxDigits(b) + 1)
  {
    ParsedPowers();
    ParsedPowers2();
    ParsedPowers4();
    ParsedPowers6();
    hide FastPow;
    match b {
      case 2 =>
      case 3 =>
      case 4 =>
      case 5 =>
      case 6 =>
    }
  }

  lemma ParsedPowers7()
    ensures FastPow(7, 45) == 0x5080c7b7d0e31ba75911a67ddd3d35e7
    ensures FastPow(7, 46) == 0x233857606b635c1936f7b8d710cac7951
    ensures FastPow(8, 21) == 0x8000000000000000
    ensures FastPow(8, 22) == 0x40000000000000000
  {
  }

  lemma ParsedPowers9()
    ensures FastPow(9, 40) == 0x6f32f1ef8b18a2bc3cea59789c79d441
    ensures FastPow(9, 41) == 0x3e8ca816be3ddb89e243d253d80487649
    ensures FastPow(10, 38) == 0x4b3b4ca85a86c47a098a224000000000
    ensures FastPow(10, 39) == 0x2f050fe938943acc45f65568000000000
  {
  }

  lemma ParsedPowers11()
    ensures FastPow(11, 37) == 0xffd1390a0adc2fb8dabbb8174d95c99b
    ensures FastPow(11, 38) == 0xafdfd736e77760cf16610e900556fa9a9
  {
  }

  lemma ParsedBits2(b: Radix)
    requires 7 <= b <= 11
    ensures FastPow(b, AtodMaxDigits(b)) <= FastPow(2, ParsedBits(b)) < FastPow(b, AtodMaxDigits(b) + 1)
  {
    ParsedPowers();
    ParsedPowers7();
    ParsedPowers9();
    ParsedPowers11();
    hide FastPow;
    match b {
      case 7 =>
      case 8 =>
      case 9 =>
      case 10 =>
      case 11 =>
    }
  }

  lemma ParsedPowers12()
    ensures FastPow(12, 35) == 0x2c6fdb364c25e6c00000000000000000
    ensures FastPow(12, 36) == 0x2153e468b91c6d1000000000000000000
    ensures FastPow(13, 34) == 0x384bacd642c343b4e90c427213506d29
    ensures FastPow(13, 35) == 0x2dbd7c6e163ea702fd59f5fcafb158b15
  {
  }

  lemma ParsedPowers14()
    ensures FastPow(14, 33) == 0x31f5db32a34aced60bf13a0e00000000
    ensures FastPow(14, 34) == 0x2bb71fcc4ee174fb4a7312cc400000000
    ensures FastPow(15, 32) == 0x20753adafd1e839f53686d013143ee01
    ensures FastPow(15, 33) == 0x1e6de72d4d4c9b655e31e6311e2faf20f
  {
  }

  lemma ParsedPowers16()
    ensures FastPow(16, 16) == 0x10000000000000000
    ensures FastPow(16, 17) == 0x100000000000000000
  {
  }

  lemma ParsedBits3(b: Radix)
    requires 12 <= b <= 16
    ensures FastPow(b, AtodMaxDigits(b)) <= FastPow(2, ParsedBits(b)) < FastPow(b, AtodMaxDigits(b) + 1)
  {
    ParsedPowers();
    ParsedPowers12();
    ParsedPowers14();
    ParsedPowers16();
    hide FastPow;
    match b {
      case 12 =>
      case 13 =>
      case 14 =>
      case 15 =>
      case 16 =>
    }
  }

  lemma ParsedPowers17()
    ensures FastPow(17, 31) == 0x68ca11d6b4f6d1d1faa826678073c2f1
    ensures FastPow(17, 32) == 0x6f56b2f420463eef1a52a8cdf87aff201
    ensures FastPow(18, 30) == 0x223e493bb3bb69ffa4b87d6c40000000
    ensures FastPow(18, 31) == 0x268612632a32d73f994f8d19c80000000
  {
  }

  lemma ParsedPowers19()
    ensures FastPow(19, 30) == 0xad62418d14ea824701c4b4886cc66f59
    ensures FastPow(19, 31) == 0xcde4add788d67ab452199662012ba439b
    ensures FastPow(20, 29) == 0x2863c1f5cdae42f95400000000000000
    ensures FastPow(20, 30) == 0x327cb2734119d3b7a9000000000000000
  {
  }

  lemma ParsedPowers21()
    ensures FastPow(21, 29) == 0xa63fd833b9386b0736039e82be651b25
    ensures FastPow(21, 30) == 0xda33cbc3e31a0c7976e4c00b99e4b3a09
  {
  }

  lemma ParsedBits4(b: Radix)
    requires 17 <= b <= 21
    ensures FastPow(b, AtodMaxDigits(b)) <= FastPow(2, ParsedBits(b)) < FastPow(b, AtodMaxDigits(b) + 1)
  {
    ParsedPowers();
    ParsedPowers17();
    ParsedPowers19();
    ParsedPowers21();
    hide FastPow;
    match b {
      case 17 =>
      case 18 =>
      case 19 =>
      case 20 =>
      case 21 =>
    }
  }

  lemma ParsedPowers22()
    ensures FastPow(22, 28) == 0x1d1f7a9cd087a14d28cdf3d510000000
    ensures FastPow(22, 29) == 0x280b48979eba7dca181b2f44f60000000
    ensures FastPow(23, 28) == 0x651b5095c2ea8fc1b30e2c5777aaf7e1
    ensures FastPow(23, 29) == 0x915743d748312ea671645fbdbc05c4537
  {
  }

  lemma ParsedPowers24()
    ensures FastPow(24, 27) == 0xddef20eff7600000000000000000000
    ensures FastPow(24, 28) == 0x14ce6b167f31000000000000000000000
    ensures FastPow(25, 27) == 0x29c30f1029939b146664242d97d9f649
    ensures FastPow(25, 28) == 0x4140c78940f6a24fdffc78873d4490d21
  {
  }

  lemma ParsedPowers26()
    ensures FastPow(26, 27) == 0x786a435ae9558b0e6aaf6d63a8000000
    ensures FastPow(26, 28) == 0xc3acad73bb2b01f76d5d11c1f10000000
  {
  }

  lemma ParsedBits5(b: Radix)
    requires 22 <= b <= 26
    ensures FastPow(b, AtodMaxDigits(b)) <= FastPow(2, ParsedBits(b)) < FastPow(b, AtodMaxDigits(b) + 1)
  {
    ParsedPowers();
    ParsedPowers22();
    ParsedPowers24();
    ParsedPowers26();
    hide FastPow;
    match b {
      case 22 =>
      case 23 =>
      case 24 =>
      case 25 =>
      case 26 =>
    }
  }

  lemma ParsedPowers27()
    ensures FastPow(27, 26) == 0xc5afe6ff302bcbf94fd9829d87f5079
    ensures FastPow(27, 27) == 0x14d98d5cea149e834b6bf0c69d56d7cc3
    ensures FastPow(28, 26) == 0x1fce575ce16927060710000000000000
    ensures FastPow(28, 27) == 0x37a918e28a78044a8c5c0000000000000
  {
  }

  lemma ParsedPowers29()
    ensures FastPow(29, 26) == 0x4f34497c8597e14436e9180200528229
    ensures FastPow(29, 27) == 0x8f8ec531b223484ba3867b83a0958bea5
    ensures FastPow(30, 26) == 0xbf3a8e1d41ef21707802130d84000000
    ensures FastPow(30, 27) == 0x1668dca76dba05eb2e103e3b9578000000
  {
  }

  lemma ParsedPowers31()
    ensures FastPow(31, 25) == 0xe7819e17f1eb0fb6ee4fb8901d9531f
    ensures FastPow(31, 26) == 0x1c08b224e64b76e726dba7597395110c1
  {
  }

  lemma ParsedBits6(b: Radix)
    requires 27 <= b <= 31
    ensures FastPow(b, AtodMaxDigits(b)) <= FastPow(2, ParsedBits(b)) < FastPow(b, AtodMaxDigits(b) + 1)
  {
    ParsedPowers();
    ParsedPowers27();
    ParsedPowers29();
    ParsedPowers31();
    hide FastPow;
    match b {
      case 27 =>
      case 28 =>
      case 29 =>
      case 30 =>
      case 31 =>
    }
  }

  lemma ParsedPowers32()
    ensures FastPow(32, 12) == 0x1000000000000000
    ensures FastPow(32, 13) == 0x20000000000000000
    ensures FastPow(33, 25) == 0x4510460dd9e879c014a823752f22b321
    ensures FastPow(33, 26) == 0x8e71907c916f7b1c2a9ac921b13791741
  {
  }

  lemma ParsedPowers34()
    ensures FastPow(34, 25) == 0x91abce3c4b4117ade76d35db22000000
    ensures FastPow(34, 26) == 0x1358d16401fea52518bc81271a84000000
    ensures FastPow(35, 24) == 0x8973ea355d75bc22e42c391727d69e1
    ensures FastPow(35, 25) == 0x12cad9054bc718b8c5320bce2a72579c3
  {
  }

  lemma ParsedPowers36()
    ensures FastPow(36, 24) == 0x10e425c56daffabc35c1000000000000
    ensures FastPow(36, 25) == 0x260154fc36cbf42778f24000000000000
  {
  }

  lemma ParsedBits7(b: Radix)
    requires 32 <= b <= 36
    ensures FastPow(b, AtodMaxDigits(b)) <= FastPow(2, ParsedBits(b)) < FastPow(b, AtodMaxDigits(b) + 1)
  {
    ParsedPowers();
    ParsedPowers32();
    ParsedPowers34();
    ParsedPowers36();
    hide FastPow;
    match b {
      case 32 =>
      case 33 =>
      case 34 =>
      case 35 =>
      case 36 =>
    }
  }

  /** And with one digit less they would not: the table holds the least such
      numbers. */
  lemma FewestDigits(b: Radix)
    ensures DtoaMaxDigits(b) >= 2 && FastPow(b, DtoaMaxDigits(b) - 2) < FastPow(2, 53)
  {
    hide *;
    if b <= 10 {
      FewestDigits1(b);
    } else if b <= 19 {
      FewestDigits2(b);
    } else if b <= 28 {
      FewestDigits3(b);
    } else {
      FewestDigits4(b);
    }
  }

  /** The bits that atod keeps: 128, or 64 when the radix is a power of two. */
  function ParsedBits(b: Radix): nat {
    if b == 2 || b == 4 || b == 8 || b == 16 || b == 32 then 64 else 128
  }

  /** atod_max_digits_table: as many digits as fit those bits, and no fewer. */
  lemma AllParsedBits(b: Radix)
    ensures FastPow(b, AtodMaxDigits(b)) <= FastPow(2, ParsedBits(b)) < FastPow(b, AtodMaxDigits(b) + 1)
    ensures b == 10 ==> AtodMaxDigits(b) >= 20
  {
    hide FastPow, ParsedBits;
    if b <= 16 {
      if b <= 6 {
        ParsedBits1(b);
      } else if b <= 11 {
        ParsedBits2(b);
      } else {
        ParsedBits3(b);
      }
    } else if b <= 26 {
      if b <= 21 {
        ParsedBits4(b);
      } else {
        ParsedBits5(b);
      }
    } else if b <= 31 {
      ParsedBits6(b);
    } else {
      ParsedBits7(b);
    }
  }

  lemma ParsedDigits2To3(b: Radix)
    requires 2 <= b <= 3
    ensures DtoaMaxDigits(b) <= AtodMaxDigits(b) <= 5 * DigitsPerLimb(b)
  {
    match b {
      case 2 =>
      case 3 =>
    }
  }

  lemma ParsedDigits4To6(b: Radix)
    requires 4 <= b <= 6
    ensures DtoaMaxDigits(b) <= AtodMaxDigits(b) <= 5 * DigitsPerLimb(b)
  {
    match b {
      case 4 =>
      case 5 =>
      case 6 =>
    }
  }

  lemma ParsedDigits1(b: Radix)
    requires 7 <= b <= 10
    ensures DtoaMaxDigits(b) <= AtodMaxDigits(b) <= 5 * DigitsPerLimb(b)
  {
    match b {
      case 7 =>
      case 8 =>
      case 9 =>
      case 10 =>
    }
  }

  lemma ParsedDigits2(b: Radix)
    requires 11 <= b <= 19
    ensures DtoaMaxDigits(b) <= AtodMaxDigits(b) <= 5 * DigitsPerLimb(b)
  {
    match b {
      case 11 =>
      case 12 =>
      case 13 =>
      case 14 =>
      case 15 =>
      case 16 =>
      case 17 =>
      case 18 =>
      case 19 =>
    }
  }

  lemma ParsedDigits3(b: Radix)
    requires 20 <= b <= 28
    ensures DtoaMaxDigits(b) <= AtodMaxDigits(b) <= 5 * DigitsPerLimb(b)
  {
    match b {
      case 20 =>
      case 21 =>
      case 22 =>
      case 23 =>
      case 24 =>
      case 25 =>
      case 26 =>
      case 27 =>
      case 28 =>
    }
  }

  lemma ParsedDigits4(b: Radix)
    requires 29 <= b <= 36
    ensures DtoaMaxDigits(b) <= AtodMaxDigits(b) <= 5 * DigitsPerLimb(b)
  {
    match b {
      case 29 =>
      case 30 =>
      case 31 =>
      case 32 =>
      case 33 =>
      case 34 =>
      case 35 =>
      case 36 =>
    }
  }

  /** atod_max_digits_table keeps all the digits dtoa prints, in at most five
      limbs. */
  lemma ParsedDigits(b: Radix)
    ensures DtoaMaxDigits(b) <= AtodMaxDigits(b) <= 5 * DigitsPerLimb(b)
  {
    hide *;
    if b <= 3 {
      ParsedDigits2To3(b);
    } else if b <= 6 {
      ParsedDigits4To6(b);
    } else if b <= 10 {
      ParsedDigits1(b);
    } else if b <= 19 {
      ParsedDigits2(b);
    } else if b <= 28 {
      ParsedDigits3(b);
    } else {
      ParsedDigits4(b);
    }
  }

  // ----- the odd part and the power of two of a radix -----

  /** ctz32 of a nonzero word */
  function Ctz32(b: nat): (n: nat)
    requires b > 0
    ensures b == Div(b, Pow2(n)) * Pow2(n) && Div(b, Pow2(n)) % 2 == 1
  {
    if b % 2 == 1 then
      Exp2Zero();
      0
    else
      var n := Ctz32(b / 2);
      CtzStep(b, n);
      1 + n
  }

  lemma CtzStep(b: nat, n: nat)
    requires b % 2 == 0 && b / 2 == Div(b / 2, Pow2(n)) * Pow2(n)
    ensures Div(b, Pow2(1 + n)) == Div(b / 2, Pow2(n))
    ensures b == Div(b, Pow2(1 + n)) * Pow2(1 + n)
  {
    Pow2Succ(n);
    hide Pow2, Div, Mod;
    var q, p := Div(b / 2, Pow2(n)), Pow2(n);
    assert b == q * (2 * p) by {
      MulAssocInt(q, 2, p);
      MulAssocInt(2, q, p);
    }
    DivModIs(b, 2 * p, q, 0);
  }

  /** radix1 in the source: the radix without its factors of two. */
  function OddPart(b: Radix): nat {
    Div(b, Pow2(Ctz32(b)))
  }

  lemma RadixParts(b: Radix)
    ensures b == OddPart(b) * Pow2(Ctz32(b))
    ensures 1 <= OddPart(b) <= 36 && OddPart(b) % 2 == 1 && Ctz32(b) <= 5
  {
    var n, q := Ctz32(b), OddPart(b);
    assert Pow2(6) == 64;
    hide Pow2, Div, Ctz32;
    MulLower(1, q, Pow2(n), Pow2(n));
    MulLower(q, q, Pow2(n), 1);
    if n >= 6 {
      Pow2Monotone(6, n);
    }
  }

  /** n digits of an odd radix multiply by less than one limb. */
  lemma OddPowerFits(b: Radix, n: nat)
    requires b % 2 == 1 && n <= DigitsPerLimb(b)
    ensures 0 < Pow(b, n) < BASE
  {
    LimbPower(b);
    FastPowIsPow(b, DigitsPerLimb(b));
    TableWidths(b);
    PowMonotone(b, n, DigitsPerLimb(b));
    PowPositive(b, n);
  }

  lemma LimbDigitsLow(b: Radix)
    requires 2 <= b <= 18
    ensures 6 <= DigitsPerLimb(b) <= 32
  {
    match b {
      case 2 =>
      case 3 =>
      case 4 =>
      case 5 =>
      case 6 =>
      case 7 =>
      case 8 =>
      case 9 =>
      case 10 =>
      case 11 =>
      case 12 =>
      case 13 =>
      case 14 =>
      case 15 =>
      case 16 =>
      case 17 =>
      case 18 =>
    }
  }

  lemma LimbDigitsHigh(b: Radix)
    requires 19 <= b <= 36
    ensures 6 <= DigitsPerLimb(b) <= 32
  {
    match b {
      case 19 =>
      case 20 =>
      case 21 =>
      case 22 =>
      case 23 =>
      case 24 =>
      case 25 =>
      case 26 =>
      case 27 =>
      case 28 =>
      case 29 =>
      case 30 =>
      case 31 =>
      case 32 =>
      case 33 =>
      case 34 =>
      case 35 =>
      case 36 =>
    }
  }

  lemma LimbBaseLow(b: Radix)
    requires 2 <= b <= 18
    ensures RadixBase(b) < BASE
  {
    match b {
      case 2 =>
      case 3 =>
      case 4 =>
      case 5 =>
      case 6 =>
      case 7 =>
      case 8 =>
      case 9 =>
      case 10 =>
      case 11 =>
      case 12 =>
      case 13 =>
      case 14 =>
      case 15 =>
      case 16 =>
      case 17 =>
      case 18 =>
    }
  }

  lemma LimbBaseHigh(b: Radix)
    requires 19 <= b <= 36
    ensures RadixBase(b) < BASE
  {
    match b {
      case 19 =>
      case 20 =>
      case 21 =>
      case 22 =>
      case 23 =>
      case 24 =>
      case 25 =>
      case 26 =>
      case 27 =>
      case 28 =>
      case 29 =>
      case 30 =>
      case 31 =>
      case 32 =>
      case 33 =>
      case 34 =>
      case 35 =>
      case 36 =>
    }
  }

  lemma TableWidths(b: Radix)
    ensures 6 <= DigitsPerLimb(b) <= 32 && RadixBase(b) < BASE
  {
    hide DigitsPerLimb, RadixBase;
    if b <= 18 {
      LimbDigitsLow(b);
      LimbBaseLow(b);
    } else {
      LimbDigitsHigh(b);
      LimbBaseHigh(b);
    }
  }

  // ----- room for the quotients of js_atod and the products of js_dtoa -----

  /** The digits and the cut-off exponents fit 44 limbs. */
  ghost predicate DigitsFit(b: Radix) {
    && MaxExponent(b) <= 44 * DigitsPerLimb(b)
    && AtodMaxDigits(b) - MinExponent(b) <= 44 * DigitsPerLimb(b)
  }

  lemma DigitsFit2(b: Radix)
    requires 2 <= b <= 7
    ensures b != 2 && b != 4 && b != 8 ==> DigitsFit(b)
  {
    match b {
      case 2 =>
      case 3 =>
      case 4 =>
      case 5 =>
      case 6 =>
      case 7 =>
    }
  }

  lemma DigitsFit8(b: Radix)
    requires 8 <= b <= 10
    ensures b != 2 && b != 4 && b != 8 ==> DigitsFit(b)
  {
    match b {
      case 8 =>
      case 9 =>
      case 10 =>
    }
  }

  lemma DigitsFit11(b: Radix)
    requires 11 <= b <= 13
    ensures DigitsFit(b)
  {
    match b {
      case 11 =>
      case 12 =>
      case 13 =>
    }
  }

  lemma DigitsFit14(b: Radix)
    requires 14 <= b <= 19
    ensures b != 2 && b != 4 && b != 8 ==> DigitsFit(b)
  {
    match b {
      case 14 =>
      case 15 =>
      case 16 =>
      case 17 =>
      case 18 =>
      case 19 =>
    }
  }

  lemma DigitsFit20(b: Radix)
    requires 20 <= b <= 25
    ensures b != 2 && b != 4 && b != 8 ==> DigitsFit(b)
  {
    match b {
      case 20 =>
      case 21 =>
      case 22 =>
      case 23 =>
      case 24 =>
      case 25 =>
    }
  }

  lemma DigitsFit26(b: Radix)
    requires 26 <= b <= 31
    ensures b != 2 && b != 4 && b != 8 ==> DigitsFit(b)
  {
    match b {
      case 26 =>
      case 27 =>
      case 28 =>
      case 29 =>
      case 30 =>
      case 31 =>
    }
  }

  lemma DigitsFit32(b: Radix)
    requires 32 <= b <= 36
    ensures b != 2 && b != 4 && b != 8 ==> DigitsFit(b)
  {
    match b {
      case 32 =>
      case 33 =>
      case 34 =>
      case 35 =>
      case 36 =>
    }
  }

  lemma RadixDigitsFit(b: Radix)
    requires b != 2 && b != 4 && b != 8
    ensures DigitsFit(b)
  {
    hide DigitsFit;
    if b <= 7 {
      DigitsFit2(b);
    } else if b <= 10 {
      DigitsFit8(b);
    } else if b <= 13 {
      DigitsFit11(b);
    } else if b <= 19 {
      DigitsFit14(b);
    } else if b <= 25 {
      DigitsFit20(b);
    } else if b <= 31 {
      DigitsFit26(b);
    } else {
      DigitsFit32(b);
    }
  }

  lemma DigitsPerLimbStep2(b: Radix)
    requires 2 <= b <= 9
    ensures DigitsPerLimb(b + 1) <= DigitsPerLimb(b)
  {
    match b {
      case 2 =>
      case 3 =>
      case 4 =>
      case 5 =>
      case 6 =>
      case 7 =>
      case 8 =>
      case 9 =>
    }
  }

  lemma DigitsPerLimbStep10(b: Radix)
    requires 10 <= b <= 18
    ensures DigitsPerLimb(b + 1) <= DigitsPerLimb(b)
  {
    match b {
      case 10 =>
      case 11 =>
      case 12 =>
      case 13 =>
      case 14 =>
      case 15 =>
      case 16 =>
      case 17 =>
      case 18 =>
    }
  }

  lemma DigitsPerLimbStep19(b: Radix)
    requires 19 <= b <= 27
    ensures DigitsPerLimb(b + 1) <= DigitsPerLimb(b)
  {
    match b {
      case 19 =>
      case 20 =>
      case 21 =>
      case 22 =>
      case 23 =>
      case 24 =>
      case 25 =>
      case 26 =>
      case 27 =>
    }
  }

  lemma DigitsPerLimbStep28(b: Radix)
    requires 28 <= b <= 35
    ensures DigitsPerLimb(b + 1) <= DigitsPerLimb(b)
  {
    match b {
      case 28 =>
      case 29 =>
      case 30 =>
      case 31 =>
      case 32 =>
      case 33 =>
      case 34 =>
      case 35 =>
    }
  }

  lemma DigitsPerLimbStep(b: Radix)
    requires b < 36
    ensures DigitsPerLimb(b + 1) <= DigitsPerLimb(b)
  {
    hide DigitsPerLimb;
    if b <= 9 {
      DigitsPerLimbStep2(b);
    } else if b <= 18 {
      DigitsPerLimbStep10(b);
    } else if b <= 27 {
      DigitsPerLimbStep19(b);
    } else {
      DigitsPerLimbStep28(b);
    }
  }

  /** A smaller radix packs no fewer digits in a limb. */
  lemma DigitsPerLimbMonotone(r: Radix, b: Radix)
    requires r <= b
    ensures DigitsPerLimb(b) <= DigitsPerLimb(r)
    decreases b - r
  {
    hide DigitsPerLimb;
    if r < b {
      DigitsPerLimbStep(r);
      DigitsPerLimbMonotone(r + 1, b);
    }
  }
}
