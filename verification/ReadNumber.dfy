/** From significant digits and an exponent to the nearest float64: the conversion
    part of js_atod, with its exact fast path. */
module ReadNumber {
  import opened Arith
  import opened Limbs
  import opened Rounding
  import opened Reals
  import opened Bignum
  import opened Tables
  import opened Scaling
  import opened Float64
  import opened Log2Radix
  import opened FreeFormat
  import opened DigitSearch
  import opened Bits
  import opened Digits
  import opened Mantissa

  // ---- the exponent tables -------------------------------------------------------------

  /** max_exponent, for the radices whose entry is used. */
  function MaxExponent(radix: nat): int
    requires IsRadix(radix) && !IsPowerOfTwo(radix)
  {
    match radix
    case 3 => 647 case 5 => 442 case 6 => 397 case 7 => 365 case 9 => 324
    case 10 => 309 case 11 => 297 case 12 => 286 case 13 => 277 case 14 => 269
    case 15 => 263 case 17 => 251 case 18 => 246 case 19 => 242 case 20 => 237
    case 21 => 234 case 22 => 230 case 23 => 227 case 24 => 224 case 25 => 221
    case 26 => 218 case 27 => 216 case 28 => 214 case 29 => 211 case 30 => 209
    case 31 => 207 case 33 => 203 case 34 => 202 case 35 => 200 case _ => 199
  }

  /** min_exponent, for the radices whose entry is used. */
  function MinExponent(radix: nat): int
    requires IsRadix(radix) && !IsPowerOfTwo(radix)
  {
    match radix
    case 3 => -679 case 5 => -463 case 6 => -416 case 7 => -383 case 9 => -340
    case 10 => -324 case 11 => -311 case 12 => -300 case 13 => -291 case 14 => -283
    case 15 => -276 case 17 => -263 case 18 => -258 case 19 => -254 case 20 => -249
    case 21 => -245 case 22 => -242 case 23 => -238 case 24 => -235 case 25 => -232
    case 26 => -229 case 27 => -227 case 28 => -224 case 29 => -222 case 30 => -220
    case 31 => -217 case 33 => -214 case 34 => -212 case 35 => -210 case _ => -208
  }

  lemma ExponentEntries(radix: nat)
    requires IsRadix(radix) && !IsPowerOfTwo(radix)
    ensures MaxExponent(radix) == MulLog2Radix(1024, radix) + 1
    ensures MinExponent(radix) == MulLog2Radix(-1075, radix)
  {
  }

  /** radix^max_exponent overflows and radix^min_exponent underflows. */
  lemma ExponentLimits(radix: nat)
    requires IsRadix(radix) && !IsPowerOfTwo(radix)
    ensures PowR(radix, MaxExponent(radix)) > PowR(2, 1024)
    ensures PowR(radix, MinExponent(radix)) <= PowR(2, -1075)
  {
    hide PowR, MaxExponent, MinExponent, MulLog2Radix, IsPowerOfTwo;
    ExponentEntries(radix);
    MulLog2RadixIsFloor(1024, radix);
    MulLog2RadixIsFloor(-1075, radix);
  }

  // ---- the fast path ---------------------------------------------------------------------

  /** A positive number that a float64 holds exactly. */
  ghost predicate IsFloat(x: real)
  {
    exists m: nat, e: int :: IsDouble(m, e) && x == DoubleValue(m, e)
  }

  /** The two floating-point operations of the fast path. */
  datatype Fpu = Fpu(mul: (real, real) -> nat, div: (real, real) -> nat)

  /** Section 4 of IEEE 754: each operation rounds the exact result to nearest. */
  ghost predicate CorrectlyRounded(fpu: Fpu)
  {
    forall x: real, y: real :: IsFloat(x) && IsFloat(y) && y > 0.0 ==>
      fpu.mul(x, y) == NearestBits(x * y) && fpu.div(x, y) == NearestBits(x / y)
  }

  /** js_atod_pow10 */
  const POW10: seq<real> :=
    [1.0, 10.0, 100.0, 1000.0, 10000.0, 100000.0, 1000000.0, 10000000.0,
     100000000.0, 1000000000.0, 10000000000.0, 100000000000.0, 1000000000000.0,
     10000000000000.0, 100000000000000.0, 1000000000000000.0, 10000000000000000.0,
     100000000000000000.0, 1000000000000000000.0, 10000000000000000000.0,
     100000000000000000000.0, 1000000000000000000000.0, 10000000000000000000000.0]

  lemma {:induction false} Pow10Entry(k: nat)
    requires k <= 22
    ensures POW10[k] == PowR(10, k)
  {
    hide PowR;
    if k == 0 {
      PowRZero(10);
    } else {
      Pow10Entry(k - 1);
      PowRStep(10, k - 1);
      assert POW10[k] == 10.0 * POW10[k - 1];
    }
  }

  /** n * 2^k with n below 2^53 is a float. */
  lemma ShiftedIsFloat(n: nat, k: nat, x: real)
    requires 0 < n < TWO53 && k <= 900 && x == (n as real) * PowR(2, k)
    ensures IsFloat(x)
  {
    hide PowR, Pow, Log2;
    var t := Log2(n);
    TwoTo53();
    if t >= 53 { PowMonoExp(2, 53, t); }
    var m, e := n * Pow(2, 52 - t), t + 1 + k;
    PowAdd(2, t, 52 - t);
    PowAdd(2, t + 1, 52 - t);
    PowHalf52();
    MulMono(Pow(2, t), n, Pow(2, 52 - t));
    MulStrict(n, Pow(2, t + 1), Pow(2, 52 - t));
    assert IsDouble(m, e);
    RealProduct(n, Pow(2, 52 - t));
    PowRNat(2, 52 - t);
    PowRAdd(2, 52 - t, e - 53);
    RAssoc(n as real, PowR(2, 52 - t), PowR(2, e - 53));
    assert x == DoubleValue(m, e);
  }

  lemma IntegerIsFloat(n: nat)
    requires 0 < n < TWO53
    ensures IsFloat(n as real)
  {
    hide PowR, IsFloat;
    PowRZero(2);
    ShiftedIsFloat(n, 0, n as real);
  }

  /** 10^k == 5^k * 2^k, and 5^22 is below 2^53. */
  lemma Pow10IsFloat(k: nat)
    requires k <= 22
    ensures IsFloat(PowR(10, k))
  {
    hide PowR, IsFloat, Pow;
    PowRMulBase(5, 2, k);
    PowRNat(5, k);
    FivesFit(k);
    ShiftedIsFloat(Pow(5, k), k, PowR(10, k));
  }

  lemma FivesFit(k: nat)
    requires k <= 22
    ensures 0 < Pow(5, k) < TWO53
  {
    hide Pow;
    PowMonoExp(5, k, 22);
    PowMonoExp(5, 0, k);
    FastPowIsPow(5, 22);
    FastPowIsPow(5, 0);
  }

  /** One multiplication or division of exact floats rounds the number read. */
  lemma FastPathRounds(fpu: Fpu, v: nat, expn: int, t: real)
    requires CorrectlyRounded(fpu) && 0 < v < TWO53 && -22 <= expn <= 22 && t == POW10[Abs(expn)]
    ensures expn >= 0 ==> fpu.mul(v as real, t) == NearestBits(Decimal(v, 10, expn))
    ensures expn < 0 ==> fpu.div(v as real, t) == NearestBits(Decimal(v, 10, expn))
  {
    hide PowR, IsFloat, NearestBits, Decimal, Pow, POW10, CorrectlyRounded;
    var k, x, y := Abs(expn), v as real, Decimal(v, 10, expn);
    Pow10Entry(k);
    Pow10IsFloat(k);
    PowRPos(10, k);
    IntegerIsFloat(v);
    DecimalValue(v, 10, expn);
    if expn < 0 {
      PowRInverse(10, k, expn);
      QuotientIsProduct(x, t, PowR(10, expn));
      OneDivision(fpu, x, t, y);
    } else {
      OneMultiplication(fpu, x, t, y);
    }
  }

  lemma OneMultiplication(fpu: Fpu, x: real, t: real, y: real)
    requires CorrectlyRounded(fpu) && IsFloat(x) && IsFloat(t) && t > 0.0 && y == x * t
    ensures fpu.mul(x, t) == NearestBits(y)
  {
  }

  lemma OneDivision(fpu: Fpu, x: real, t: real, y: real)
    requires CorrectlyRounded(fpu) && IsFloat(x) && IsFloat(t) && t > 0.0 && y == x / t
    ensures fpu.div(x, t) == NearestBits(y)
  {
  }

  lemma QuotientIsProduct(v: real, p: real, q: real)
    requires p > 0.0 && p * q == 1.0
    ensures v / p == v * q
  {
  }

  // ---- radices other than powers of two -----------------------------------------------------

  /** Digits of n digits' length, scaled, against the exponent limits. */
  lemma ScaledRange(v: nat, n: nat, radix: nat, expn: int, y: real)
    requires radix > 0 && n > 0 && Pow(radix, n - 1) <= v < Pow(radix, n)
    requires y == (v as real) * PowR(radix, expn)
    ensures PowR(radix, expn + n - 1) <= y < PowR(radix, expn + n)
  {
    hide PowR, Pow;
    PowRPos(radix, expn);
    PowRNat(radix, n);
    PowRNat(radix, n - 1);
    RMulMono(PowR(radix, expn), PowR(radix, n - 1), v as real);
    RMulStrict(PowR(radix, expn), v as real, PowR(radix, n));
    assert PowR(radix, n - 1) * PowR(radix, expn) <= y < PowR(radix, n) * PowR(radix, expn);
    PowRAdd(radix, n - 1, expn);
    PowRAdd(radix, n, expn);
  }

  lemma RangeShortcuts(v: nat, n: nat, radix: nat, expn: int)
    requires IsRadix(radix) && !IsPowerOfTwo(radix) && n > 0 && Pow(radix, n - 1) <= v < Pow(radix, n)
    ensures expn + n >= MaxExponent(radix) + 1 ==> NearestBits(Decimal(v, radix, expn)) == INFINITY
    ensures expn + n <= MinExponent(radix) ==> NearestBits(Decimal(v, radix, expn)) == 0
  {
    hide PowR, Pow, NearestBits, MaxExponent, MinExponent, Decimal, IsPowerOfTwo;
    var y := Decimal(v, radix, expn);
    DecimalValue(v, radix, expn);
    ScaledRange(v, n, radix, expn, y);
    ExponentLimits(radix);
    if expn + n >= MaxExponent(radix) + 1 {
      PowRMono(radix, MaxExponent(radix), expn + n - 1);
      Overflows(y);
    }
    if expn + n <= MinExponent(radix) {
      PowRMono(radix, expn + n, MinExponent(radix));
      Underflows(y);
    }
  }

  /** The number the kept digits stand for, with the radix point scale digits
      after the start of the digits. */
  ghost function KeptValue(digits: seq<nat>, radix: nat, scale: int): real
    requires IsRadix(radix)
  {
    var kept := Min(|digits|, AtodMaxDigits(radix));
    Decimal(DigitsVal(digits[..kept], radix), radix, scale - kept)
  }

  /** js_atod for a radix that is not a power of two. */
  method ConvertRadix(fpu: Fpu, digits: seq<nat>, radix: nat, scale: int) returns (a: nat)
    requires CorrectlyRounded(fpu) && IsRadix(radix) && !IsPowerOfTwo(radix)
    requires AreDigits(digits, radix) && (|digits| > 0 ==> digits[0] > 0)
    ensures a == NearestBits(KeptValue(digits, radix, scale))
  {
    hide CorrectlyRounded, NearestBits, Decimal, Pow, MaxExponent, MinExponent, RoundToDouble, IsPowerOfTwo,
         AtodMaxDigits, DigitsVal, Float64Bits, Scaled;
    var tmp := new Mpb();
    var digitCount, fastOk, fastM, extra := ReadMantissa(tmp, digits, radix);
    ghost var v := DigitsVal(digits[..digitCount], radix);
    KeptDigits(digits, radix, digitCount);
    if digitCount == 0 {
      NoDigitsIsZero(radix, scale);
      return 0;
    }
    var expn := scale - digitCount;
    ghost var y := Decimal(v, radix, expn);
    if fastOk { FastMantissa(digits, digitCount); }
    if fastOk && fastM < TWO53 && -22 <= expn <= 22 {
      FastPathRounds(fpu, fastM, expn, POW10[Abs(expn)]);
      if expn >= 0 {
        a := fpu.mul(fastM as real, POW10[expn]);
      } else {
        a := fpu.div(fastM as real, POW10[-expn]);
      }
      return;
    }
    var expn1 := expn + digitCount;
    RangeShortcuts(v, digitCount, radix, expn);
    if expn1 >= MaxExponent(radix) + 1 {
      return INFINITY;
    } else if expn1 <= MinExponent(radix) {
      return 0;
    }
    if fastOk {
      tmp.SetU64(fastM);
    }
    var radixShift := TrailingZeros(radix);
    var radix1 := radix / Pow(2, radixShift);
    RadixSplit(radix, radixShift, radix1);
    var m, e := MulPowRoundToD(tmp, radix1, radixShift, expn, RNDN);
    ScaledIsDecimal(v, radix, expn);
    NearestOf(y, m, e);
    a := Float64Bits(m, e);
  }

  lemma ScaledIsDecimal(v: nat, radix: nat, k: int)
    requires radix > 0
    ensures Scaled(v, 0, radix, k) == Decimal(v, radix, k)
  {
  }

  lemma NoDigitsIsZero(radix: nat, scale: int)
    requires radix > 0
    ensures NearestBits(Decimal(DigitsVal([], radix), radix, scale)) == 0
  {
  }

  lemma FastMantissa(digits: seq<nat>, digitCount: nat)
    requires |digits| <= 16 && digitCount == Min(|digits|, AtodMaxDigits(10))
    ensures digits[..digitCount] == digits
  {
  }

  lemma KeptDigits(digits: seq<nat>, radix: nat, kept: nat)
    requires IsRadix(radix) && AreDigits(digits, radix) && (|digits| > 0 ==> digits[0] > 0)
    requires kept == Min(|digits|, AtodMaxDigits(radix))
    ensures kept == 0 ==> digits[..kept] == []
    ensures kept > 0 ==> Pow(radix, kept - 1) <= DigitsVal(digits[..kept], radix) < Pow(radix, kept)
    ensures kept > 0 ==> DigitsVal(digits[..kept], radix) > 0
  {
    DigitsBound(digits[..kept], radix);
    if kept > 0 { PowMonoExp(radix, 0, kept - 1); }
  }

  // ---- powers of two ----------------------------------------------------------------------------

  /** The number all the digits stand for, with the radix point scaleBits bits
      after the start of the digits. */
  ghost function BinaryValue(digits: seq<nat>, radix: nat, scaleBits: int): real
    requires IsRadix(radix) && IsPowerOfTwo(radix)
  {
    (DigitsVal(digits, radix) as real) * PowR(2, scaleBits - |digits| * RadixBits(radix))
  }

  lemma RadixPower(radix: nat, bits: nat, n: nat)
    requires IsRadix(radix) && IsPowerOfTwo(radix) && bits == RadixBits(radix)
    ensures Pow(radix, n) == Pow(2, bits * n)
  {
    PowPow(2, bits, n);
  }

  lemma BinaryShortcuts(digits: seq<nat>, radix: nat, bits: nat, scaleBits: int)
    requires IsRadix(radix) && IsPowerOfTwo(radix) && bits == RadixBits(radix)
    requires AreDigits(digits, radix) && |digits| > 0 && digits[0] > 0
    ensures scaleBits >= 1024 + bits ==> NearestBits(BinaryValue(digits, radix, scaleBits)) == INFINITY
    ensures scaleBits <= -1075 ==> NearestBits(BinaryValue(digits, radix, scaleBits)) == 0
  {
    hide PowR, Pow, NearestBits, RadixBits, IsPowerOfTwo, DigitsVal;
    var n, y := |digits|, BinaryValue(digits, radix, scaleBits);
    var v, q := DigitsVal(digits, radix), PowR(2, scaleBits - n * bits);
    DigitsBound(digits, radix);
    RadixPower(radix, bits, n);
    RadixPower(radix, bits, n - 1);
    BitRange(v, bits * (n - 1), bits * n, scaleBits - n * bits, y);
    assert bits * (n - 1) + (scaleBits - n * bits) == scaleBits - bits by { MulDist(bits, n, 1); }
    assert bits * n == n * bits;
    if scaleBits >= 1024 + bits {
      PowRMono(2, 1024, scaleBits - bits);
      Overflows(y);
    }
    if scaleBits <= -1075 {
      PowRMono(2, scaleBits, -1075);
      Underflows(y);
    }
  }

  lemma BitRange(v: nat, lo: nat, hi: nat, k: int, y: real)
    requires Pow(2, lo) <= v < Pow(2, hi) && y == (v as real) * PowR(2, k)
    ensures PowR(2, lo + k) <= y < PowR(2, hi + k)
  {
    hide PowR, Pow;
    PowRPos(2, k);
    PowRNat(2, lo);
    PowRNat(2, hi);
    RMulMono(PowR(2, k), PowR(2, lo), v as real);
    RMulStrict(PowR(2, k), v as real, PowR(2, hi));
    assert PowR(2, lo) * PowR(2, k) <= y < PowR(2, hi) * PowR(2, k);
    PowRAdd(2, lo, k);
    PowRAdd(2, hi, k);
  }

  /** A full mantissa has at least 56 bits. */
  lemma FullMantissa(radix: nat, bits: nat, v: nat)
    requires IsRadix(radix) && IsPowerOfTwo(radix) && bits == RadixBits(radix)
    requires AtodMaxDigits(radix) >= 1 ==> v >= Pow(radix, AtodMaxDigits(radix) - 1)
    ensures v >= Pow(2, 55)
  {
    var n := AtodMaxDigits(radix);
    RadixPower(radix, bits, n - 1);
    assert bits * (n - 1) >= 55;
    PowMonoExp(2, 55, bits * (n - 1));
  }

  /** The kept digits with the sticky bit round as all the digits do. */
  lemma BinaryRounds(digits: seq<nat>, radix: nat, bits: nat, kept: nat, scaleBits: int, v: nat, w: nat, extra: bool)
    requires IsRadix(radix) && IsPowerOfTwo(radix) && bits == RadixBits(radix)
    requires AreDigits(digits, radix) && |digits| > 0 && digits[0] > 0
    requires kept == Min(|digits|, AtodMaxDigits(radix)) && v == DigitsVal(digits[..kept], radix) > 0
    requires (extra <==> DigitsVal(digits[kept..], radix) != 0) && w == SetSticky(v, extra)
    ensures w > 0 && BinaryValue(digits, radix, scaleBits) > 0.0
    ensures RoundCode(w, -(scaleBits - kept * bits), RNDN) == RoundToDouble(BinaryValue(digits, radix, scaleBits), RNDN)
  {
    hide PowR, Pow, RadixBits, IsPowerOfTwo, DigitsVal, RoundCode, RoundToDouble, AtodMaxDigits;
    var n, off, y := DigitsVal(digits, radix), -(scaleBits - kept * bits), BinaryValue(digits, radix, scaleBits);
    if kept == |digits| {
      WholeMantissa(digits, radix);
      assert -off == scaleBits - |digits| * bits;
      RoundCodeExact(v, off, y, RNDN);
    } else {
      var k := |digits| - kept;
      var d := Pow(radix, k);
      TailDigits(digits, kept, radix);
      var x := (n as real) / (d as real);
      DigitsBound(digits[..kept], radix);
      FullMantissa(radix, bits, v);
      TailScale(n, radix, bits, k, d, x, scaleBits - kept * bits);
      assert (scaleBits - kept * bits) - bits * k == scaleBits - |digits| * bits by { MulDist(bits, kept, k); }
      RoundCodeSticky(n, d, x, w, off, y, RNDN);
    }
  }

  lemma WholeMantissa(digits: seq<nat>, radix: nat)
    ensures digits[..|digits|] == digits && digits[|digits|..] == [] && DigitsVal([], radix) == 0
  {
  }

  lemma TailDigits(digits: seq<nat>, kept: nat, radix: nat)
    requires kept <= |digits| && radix > 0 && AreDigits(digits, radix)
    ensures Pow(radix, |digits| - kept) > 0
    ensures DigitsVal(digits, radix) / Pow(radix, |digits| - kept) == DigitsVal(digits[..kept], radix)
    ensures DigitsVal(digits, radix) % Pow(radix, |digits| - kept) == DigitsVal(digits[kept..], radix)
  {
    DigitsSplit(digits, kept, radix);
    DigitsBound(digits[kept..], radix);
    DivModUnique(DigitsVal(digits, radix), Pow(radix, |digits| - kept),
                 DigitsVal(digits[..kept], radix), DigitsVal(digits[kept..], radix));
  }

  lemma TailScale(n: nat, radix: nat, bits: nat, k: nat, d: nat, x: real, e: int)
    requires IsRadix(radix) && IsPowerOfTwo(radix) && bits == RadixBits(radix)
    requires d == Pow(radix, k) && d > 0 && x == (n as real) / (d as real)
    ensures (n as real) * PowR(2, e - bits * k) == x * PowR(2, e)
  {
    hide PowR, Pow, RadixBits, IsPowerOfTwo;
    RadixPower(radix, bits, k);
    PowRNat(2, bits * k);
    PowRAdd(2, bits * k, e - bits * k);
    var q := PowR(2, e - bits * k);
    assert x * (d as real) == n as real;
    RAssoc(x, d as real, q);
  }

  /** js_atod for a power of two: exact, however many digits there are. */
  method ConvertBinary(digits: seq<nat>, radix: nat, scaleBits: int) returns (a: nat)
    requires IsRadix(radix) && IsPowerOfTwo(radix)
    requires AreDigits(digits, radix) && (|digits| > 0 ==> digits[0] > 0)
    ensures a == NearestBits(BinaryValue(digits, radix, scaleBits))
  {
    hide NearestBits, Pow, PowR, RoundToDouble, RoundCode, AtodMaxDigits, DigitsVal, Float64Bits, BinaryValue,
         RadixBits, Val;
    var bits := RadixBits(radix);
    var tmp := new Mpb();
    var digitCount, fastOk, fastM, extra := ReadMantissa(tmp, digits, radix);
    ghost var v := DigitsVal(digits[..digitCount], radix);
    KeptDigits(digits, radix, digitCount);
    MaxPositive(radix);
    if digitCount == 0 {
      NoBinaryDigits(radix, scaleBits);
      return 0;
    }
    LowBitOf(tmp.tab);
    if extra && tmp.tab[0] % 2 == 0 {
      BumpLowLimb(tmp.tab);
      tmp.tab := tmp.tab[0 := tmp.tab[0] + 1];
    }
    assert tmp.Value() == SetSticky(v, extra);
    var expn := scaleBits - digitCount * bits;
    var expn1 := expn + digitCount * bits;
    BinaryShortcuts(digits, radix, bits, scaleBits);
    if expn1 >= 1024 + bits {
      return INFINITY;
    } else if expn1 <= -1075 {
      return 0;
    }
    BinaryRounds(digits, radix, bits, digitCount, scaleBits, v, tmp.Value(), extra);
    var m, e := RoundToD(tmp, -expn, RNDN);
    NearestOf(BinaryValue(digits, radix, scaleBits), m, e);
    a := Float64Bits(m, e);
  }

  lemma MaxPositive(radix: nat)
    requires IsRadix(radix)
    ensures AtodMaxDigits(radix) > 0
  {
  }

  lemma NoBinaryDigits(radix: nat, scaleBits: int)
    requires IsRadix(radix) && IsPowerOfTwo(radix)
    ensures NearestBits(BinaryValue([], radix, scaleBits)) == 0
  {
  }
}
