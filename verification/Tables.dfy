/** The constant tables of the float conversions, and what their entries are.
    Entries are checked by evaluating powers of literals. */
module Tables {
  import opened Arith
  import opened Limbs

  predicate IsRadix(radix: int) { 2 <= radix <= 36 }

  /** digits_per_limb_table: how many digits a limb holds. */
  function DigitsPerLimb(radix: nat): nat
    requires IsRadix(radix)
  {
    if radix == 2 then 32 else if radix == 3 then 20 else if radix == 4 then 16
    else if radix == 5 then 13 else if radix == 6 then 12 else if radix == 7 then 11
    else if radix <= 9 then 10 else if radix <= 11 then 9 else if radix <= 16 then 8
    else if radix <= 23 then 7 else 6
  }

  /** dtoa_max_digits_table: 1 + ceil(53 / log2(radix)). */
  function DtoaMaxDigits(radix: nat): nat
    requires IsRadix(radix)
  {
    if radix == 2 then 54 else if radix == 3 then 35 else if radix == 4 then 28
    else if radix == 5 then 24 else if radix == 6 then 22 else if radix == 7 then 20
    else if radix == 8 then 19 else if radix == 9 then 18 else if radix <= 11 then 17
    else if radix <= 13 then 16 else if radix <= 16 then 15 else if radix <= 21 then 14
    else if radix <= 28 then 13 else 12
  }

  /** A power bounded at the top of a run of radices is bounded on all of it. */
  lemma PowBelow(radix: nat, top: nat, n: nat, bound: nat)
    requires radix <= top && FastPow(top, n) <= bound
    ensures Pow(radix, n) <= bound
  {
    FastPowIsPow(top, n);
    PowMonoBase(radix, top, n);
  }

  lemma PowAbove(radix: nat, bottom: nat, n: nat, bound: nat)
    requires bottom <= radix && FastPow(bottom, n) >= bound
    ensures Pow(radix, n) >= bound
  {
    FastPowIsPow(bottom, n);
    PowMonoBase(bottom, radix, n);
  }

  const BASE_MINUS_1: nat := 0xffff_ffff

  /** The powers of the odd part of a radix that mul_pow uses fit a limb. */
  lemma LimbFits(radix: nat)
    requires 3 <= radix <= 35 && radix % 2 == 1
    ensures DigitsPerLimb(radix) >= 1 && Pow(radix, DigitsPerLimb(radix)) < BASE
  {
    if radix == 3 { PowBelow(radix, 3, 20, BASE_MINUS_1); }
    else if radix == 5 { PowBelow(radix, 5, 13, BASE_MINUS_1); }
    else if radix == 7 { PowBelow(radix, 7, 11, BASE_MINUS_1); }
    else if radix == 9 { PowBelow(radix, 9, 10, BASE_MINUS_1); }
    else if radix == 11 { PowBelow(radix, 11, 9, BASE_MINUS_1); }
    else if radix <= 15 { PowBelow(radix, 15, 8, BASE_MINUS_1); }
    else if radix <= 23 { PowBelow(radix, 23, 7, BASE_MINUS_1); }
    else { PowBelow(radix, 35, 6, BASE_MINUS_1); }
  }

  const TWO53: nat := 0x20_0000_0000_0000

  /** One digit fewer than DtoaMaxDigits already exceeds 2^53. */
  lemma MaxDigitsSuffice(radix: nat)
    requires IsRadix(radix)
    ensures DtoaMaxDigits(radix) >= 1
    ensures Pow(radix, DtoaMaxDigits(radix) - 1) >= TWO53
    ensures radix != 2 ==> Pow(radix, DtoaMaxDigits(radix) - 1) > TWO53
  {
    if radix == 2 { PowAbove(radix, 2, 53, TWO53); }
    else if radix == 3 { PowAbove(radix, 3, 34, TWO53 + 1); }
    else if radix == 4 { PowAbove(radix, 4, 27, TWO53 + 1); }
    else if radix == 5 { PowAbove(radix, 5, 23, TWO53 + 1); }
    else if radix == 6 { PowAbove(radix, 6, 21, TWO53 + 1); }
    else if radix == 7 { PowAbove(radix, 7, 19, TWO53 + 1); }
    else if radix == 8 { PowAbove(radix, 8, 18, TWO53 + 1); }
    else if radix == 9 { PowAbove(radix, 9, 17, TWO53 + 1); }
    else if radix <= 11 { PowAbove(radix, 10, 16, TWO53 + 1); }
    else if radix <= 13 { PowAbove(radix, 12, 15, TWO53 + 1); }
    else if radix <= 16 { PowAbove(radix, 14, 14, TWO53 + 1); }
    else if radix <= 21 { PowAbove(radix, 17, 13, TWO53 + 1); }
    else if radix <= 28 { PowAbove(radix, 22, 12, TWO53 + 1); }
    else { PowAbove(radix, 29, 11, TWO53 + 1); }
  }

  const HALF64: nat := 0x8000_0000_0000_0000

  /** Twice the range of mantissas fits 64 bits. */
  lemma MaxDigitsFit(radix: nat)
    requires IsRadix(radix)
    ensures Pow(radix, DtoaMaxDigits(radix)) < HALF64
  {
    if radix == 2 { PowBelow(radix, 2, 54, HALF64 - 1); }
    else if radix == 3 { PowBelow(radix, 3, 35, HALF64 - 1); }
    else if radix == 4 { PowBelow(radix, 4, 28, HALF64 - 1); }
    else if radix == 5 { PowBelow(radix, 5, 24, HALF64 - 1); }
    else if radix == 6 { PowBelow(radix, 6, 22, HALF64 - 1); }
    else if radix == 7 { PowBelow(radix, 7, 20, HALF64 - 1); }
    else if radix == 8 { PowBelow(radix, 8, 19, HALF64 - 1); }
    else if radix == 9 { PowBelow(radix, 9, 18, HALF64 - 1); }
    else if radix <= 11 { PowBelow(radix, 11, 17, HALF64 - 1); }
    else if radix <= 13 { PowBelow(radix, 13, 16, HALF64 - 1); }
    else if radix <= 16 { PowBelow(radix, 16, 15, HALF64 - 1); }
    else if radix <= 21 { PowBelow(radix, 21, 14, HALF64 - 1); }
    else if radix <= 28 { PowBelow(radix, 28, 13, HALF64 - 1); }
    else { PowBelow(radix, 36, 12, HALF64 - 1); }
  }

  // ---- powers of five --------------------------------------------------------

  const POW5: seq<Limb> :=
    [0x00000005, 0x00000019, 0x0000007d, 0x00000271,
     0x00000c35, 0x00003d09, 0x0001312d, 0x0005f5e1,
     0x001dcd65, 0x009502f9, 0x02e90edd, 0x0e8d4a51,
     0x48c27395, 0x6bcc41e9, 0x1afd498d, 0x86f26fc1,
     0xa2bc2ec5]

  const POW5_HIGH: seq<nat> := [0x01, 0x07, 0x23, 0xb1]

  const POW5_INV: seq<Limb> :=
    [0x99999999, 0x47ae147a, 0x0624dd2f, 0xa36e2eb1,
     0x4f8b588e, 0x0c6f7a0b, 0xad7f29ab, 0x5798ee23,
     0x12e0be82, 0xb7cdfd9d, 0x5fd7fe17, 0x19799812,
     0xc25c2684]

  /** 5^b as the tables store it: a low limb, and for b >= 14 a high part. */
  function Pow5Entry(b: nat): nat
    requires 1 <= b <= 17
  {
    POW5[b - 1] + if b >= 14 then POW5_HIGH[b - 14] * BASE else 0
  }

  lemma {:induction false} Pow5Table(b: nat)
    requires 1 <= b <= 17
    ensures Pow5Entry(b) == Pow(5, b)
  {
    if b == 1 {
      assert Pow(5, 1) == 5;
    } else {
      Pow5Table(b - 1);
      assert Pow5Entry(b) == 5 * Pow5Entry(b - 1);
    }
  }

  /** Only one shift brings v to the top bit of a limb. */
  lemma NormalizingShift(v: nat, shift: nat, k: nat)
    requires 0x8000_0000 <= v * Pow(2, shift) < BASE
    requires 0x8000_0000 <= v * Pow(2, k) < BASE
    ensures shift == k
  {
    if shift < k {
      ShiftDoubles(v, shift, k);
    } else if shift > k {
      ShiftDoubles(v, k, shift);
    }
  }

  lemma ShiftDoubles(v: nat, i: nat, j: nat)
    requires i < j
    ensures v * Pow(2, j) >= 2 * (v * Pow(2, i))
  {
    PowMonoExp(2, i + 1, j);
    MulMono(2 * Pow(2, i), Pow(2, j), v);
    MulAssoc(2, v, Pow(2, i));
    MulAssoc(v, 2, Pow(2, i));
  }

  /** The table inverse of v, normalized by k bits to r. */
  lemma InverseAt(v: nat, k: nat, inv: Limb, shift: nat, r: Limb, r': Limb)
    requires r == v * Pow(2, shift) && Normalized(r)
    requires v * FastPow(2, k) == r' && Normalized(r') && IsInverse(inv, r')
    ensures IsInverse(inv, r)
  {
    FastPowIsPow(2, k);
    NormalizingShift(v, shift, k);
  }

  lemma Pow5InverseLow(b: nat, shift: nat, r: Limb)
    requires 1 <= b <= 3 && Normalized(r) && r == POW5[b - 1] * Pow(2, shift)
    ensures IsInverse(POW5_INV[b - 1], r)
  {
    match b {
      case 1 => InverseAt(0x5, 29, 0x99999999, shift, r, 0xa0000000);
      case 2 => InverseAt(0x19, 27, 0x47ae147a, shift, r, 0xc8000000);
      case 3 => InverseAt(0x7d, 25, 0x624dd2f, shift, r, 0xfa000000);
    }
  }

  lemma Pow5InverseMid(b: nat, shift: nat, r: Limb)
    requires 4 <= b <= 6 && Normalized(r) && r == POW5[b - 1] * Pow(2, shift)
    ensures IsInverse(POW5_INV[b - 1], r)
  {
    match b {
      case 4 => InverseAt(0x271, 22, 0xa36e2eb1, shift, r, 0x9c400000);
      case 5 => InverseAt(0xc35, 20, 0x4f8b588e, shift, r, 0xc3500000);
      case 6 => InverseAt(0x3d09, 18, 0xc6f7a0b, shift, r, 0xf4240000);
    }
  }

  lemma Pow5InverseHigh(b: nat, shift: nat, r: Limb)
    requires 7 <= b <= 9 && Normalized(r) && r == POW5[b - 1] * Pow(2, shift)
    ensures IsInverse(POW5_INV[b - 1], r)
  {
    match b {
      case 7 => InverseAt(0x1312d, 15, 0xad7f29ab, shift, r, 0x98968000);
      case 8 => InverseAt(0x5f5e1, 13, 0x5798ee23, shift, r, 0xbebc2000);
      case 9 => InverseAt(0x1dcd65, 11, 0x12e0be82, shift, r, 0xee6b2800);
    }
  }

  lemma Pow5InverseTop(b: nat, shift: nat, r: Limb)
    requires 10 <= b <= 13 && Normalized(r) && r == POW5[b - 1] * Pow(2, shift)
    ensures IsInverse(POW5_INV[b - 1], r)
  {
    match b {
      case 10 => InverseAt(0x9502f9, 8, 0xb7cdfd9d, shift, r, 0x9502f900);
      case 11 => InverseAt(0x2e90edd, 6, 0x5fd7fe17, shift, r, 0xba43b740);
      case 12 => InverseAt(0xe8d4a51, 4, 0x19799812, shift, r, 0xe8d4a510);
      case 13 => InverseAt(0x48c27395, 1, 0xc25c2684, shift, r, 0x9184e72a);
    }
  }

  /** Each POW5_INV entry is the inverse of 5^b shifted up to the top bit. */
  lemma Pow5Inverse(b: nat, shift: nat, r: Limb)
    requires 1 <= b <= 13 && Normalized(r) && r == Pow(5, b) * Pow(2, shift)
    ensures IsInverse(POW5_INV[b - 1], r)
  {
    Pow5Table(b);
    if b <= 3 {
      Pow5InverseLow(b, shift, r);
    } else if b <= 6 {
      Pow5InverseMid(b, shift, r);
    } else if b <= 9 {
      Pow5InverseHigh(b, shift, r);
    } else {
      Pow5InverseTop(b, shift, r);
    }
  }
}
