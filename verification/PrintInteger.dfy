/** Printing integers, and the whole of free format: js_dtoa prints a double that is
    an integer below 2^53 directly, and any other through the digit search. */
module PrintInteger {
  import opened Arith
  import opened Limbs
  import opened Rounding
  import opened Reals
  import opened Tables
  import opened Float64
  import opened Log2Radix
  import opened FreeFormat
  import opened DigitSearch
  import opened Bits
  import opened Digits
  import opened Mantissa
  import opened ReadNumber
  import opened PrintNumber

  /** s is n in the given radix, without leading zeros. */
  ghost predicate IsNumeral(s: seq<nat>, n: nat, radix: nat)
  {
    AreDigits(s, radix) && DigitsVal(s, radix) == n && |s| > 0 && (n > 0 ==> s[0] > 0)
  }

  lemma TwoDigits(y: nat)
    requires y < 100
    ensures AreDigits([y / 10, y % 10], 10) && DigitsVal([y / 10, y % 10], 10) == y && Pow(10, 2) == 100
  {
    DigitsAppend([], 10, y / 10);
    DigitsAppend([y / 10], 10, y % 10);
    assert [y / 10] + [y % 10] == [y / 10, y % 10] && [] + [y / 10] == [y / 10];
    assert Pow(10, 2) == 10 * Pow(10, 1);
  }

  lemma NumeralDone(n: nat, y: nat, s: seq<nat>, t: seq<nat>, radix: nat)
    requires radix > 0 && Printed(n, y, s, radix) && AreDigits(t, radix) && DigitsVal(t, radix) == y && |t| > 0
    requires n > 0 ==> t[0] > 0
    ensures IsNumeral(t + s, n, radix)
  {
    DigitsJoin(t, s, radix);
  }

  /** u32toa: two digits per step, then the leading one or two. */
  method U32Toa(n: nat) returns (s: seq<nat>)
    ensures IsNumeral(s, n, 10)
  {
    hide Pow, DigitsVal, Printed;
    var y: nat := n;
    s := [];
    NothingPrinted(n, 10);
    while y >= 100
      invariant Printed(n, y, s, 10) && (n > 0 ==> y > 0)
    {
      var r := y % 100;
      TwoDigits(r);
      PrintMore(n, y, s, 10, [r / 10, r % 10], 100);
      s := [r / 10, r % 10] + s;
      y := y / 100;
    }
    OneOrTwo(y);
    var t := if y >= 10 then [y / 10, y % 10] else [y];
    NumeralDone(n, y, s, t, 10);
    s := t + s;
  }

  lemma NumeralJoin(t: seq<nat>, s: seq<nat>, a: nat, b: nat, radix: nat)
    requires radix > 0 && IsNumeral(t, a, radix) && AreDigits(s, radix) && DigitsVal(s, radix) == b && a > 0
    ensures IsNumeral(t + s, a * Pow(radix, |s|) + b, radix)
  {
    DigitsJoin(t, s, radix);
  }

  lemma Billion()
    ensures Pow(10, 9) == 1000000000
  {
    FastPowIsPow(10, 9);
  }

  /** Nine more digits at the low end. */
  method NineMore(t: seq<nat>, a: nat, b: nat) returns (s: seq<nat>)
    requires IsNumeral(t, a, 10) && a > 0 && b < 1000000000
    ensures IsNumeral(s, a * 1000000000 + b, 10)
  {
    hide Pow, DigitsVal, IsNumeral;
    Billion();
    var low := LimbDigits(b, 10, 9);
    NumeralJoin(t, low, a, b, 10);
    s := t + low;
  }

  lemma OneOrTwo(n: nat)
    requires n < 100
    ensures IsNumeral(if n >= 10 then [n / 10, n % 10] else [n], n, 10)
  {
    TwoDigits(n);
    OneDigit(n, 10);
    if n < 10 { assert [n % 10] == [n]; }
  }

  /** u64toa: in pieces of nine digits. */
  method U64Toa(n: nat) returns (s: seq<nat>)
    requires n < BASE2
    ensures IsNumeral(s, n, 10)
  {
    hide IsNumeral;
    if n < 0x1_0000_0000 {
      s := U32Toa(n);
      return;
    }
    var n1, low := n / 1000000000, n % 1000000000;
    if n1 >= 0x1_0000_0000 {
      var n2 := n1 / 1000000000;
      OneOrTwo(n2);
      var top := if n2 >= 10 then [n2 / 10, n2 % 10] else [n2];
      s := NineMore(top, n2, n1 % 1000000000);
    } else {
      s := U32Toa(n1);
    }
    s := NineMore(s, n1, low);
  }

  lemma CeilDiv(x: nat, b: nat, l: nat)
    requires b > 0 && l == (x + b) / b
    ensures l > 0 && b * (l - 1) <= x < b * l
  {
    DivModEq(x + b, b);
    var r := (x + b) % b;
    assert x + b == l * b + r;
    if l == 0 { assert false; }
    MulDist(b, l, -1);
  }

  lemma BinaryLength(n: nat, radix: nat, bits: nat, l: nat)
    requires IsRadix(radix) && IsPowerOfTwo(radix) && bits == RadixBits(radix)
    requires l == if n == 0 then 1 else (Log2(n) + bits) / bits
    ensures l > 0 && n < Pow(radix, l) && (n > 0 ==> Pow(radix, l - 1) <= n)
  {
    hide Pow, IsPowerOfTwo, RadixBits;
    if n == 0 {
      PowMonoExp(radix, 0, l);
    } else {
      CeilDiv(Log2(n), bits, l);
      RadixPower(radix, bits, l);
      RadixPower(radix, bits, l - 1);
      PowMonoExp(2, Log2(n) + 1, bits * l);
      PowMonoExp(2, bits * (l - 1), Log2(n));
    }
  }

  lemma NumeralOfLength(s: seq<nat>, n: nat, radix: nat)
    requires radix > 0 && |s| > 0 && AreDigits(s, radix) && n < Pow(radix, |s|)
    requires n > 0 ==> Pow(radix, |s| - 1) <= n
    requires DigitsVal(s, radix) == n % Pow(radix, |s|)
    ensures IsNumeral(s, n, radix)
  {
    SmallRemainder(n, Pow(radix, |s|));
    if n > 0 { FirstDigit(s, radix); }
  }

  /** u64toa_radix */
  method U64ToaRadix(n: nat, radix: nat) returns (s: seq<nat>)
    requires n < BASE2 && IsRadix(radix)
    ensures IsNumeral(s, n, radix)
  {
    hide Pow, DigitsVal, Printed, AreDigits, IsNumeral;
    if radix == 10 {
      s := U64Toa(n);
    } else if IsPowerOfTwo(radix) {
      var bits := RadixBits(radix);
      var l := if n == 0 then 1 else (Log2(n) + bits) / bits;
      BinaryLength(n, radix, bits, l);
      s := LimbDigits(n, radix, l);
      NumeralOfLength(s, n, radix);
    } else {
      s := DigitsUp(n, radix);
    }
  }

  lemma TopDigit(y: nat, radix: nat)
    requires y > 0 && radix >= 2
    ensures 0 <= y / radix < y && (y / radix == 0 ==> y % radix == y)
  {
    DivModEq(y, radix);
    if y / radix > 0 { MulMono(2, radix, y / radix); }
  }

  /** The loop for the other radices, run at least once. */
  method DigitsUp(n: nat, radix: nat) returns (s: seq<nat>)
    requires radix >= 2
    ensures IsNumeral(s, n, radix)
  {
    hide Pow, DigitsVal, Printed, AreDigits;
    NothingPrinted(n, radix);
    OneDigit(n, radix);
    PrintMore(n, n, [], radix, [n % radix], radix);
    var y: nat := n / radix;
    s := [n % radix] + [];
    if n > 0 { TopDigit(n, radix); }
    while y != 0
      invariant Printed(n, y, s, radix) && |s| > 0 && (n > 0 && y == 0 ==> s[0] > 0)
    {
      OneDigit(y, radix);
      TopDigit(y, radix);
      PrintMore(n, y, s, radix, [y % radix], radix);
      s := [y % radix] + s;
      y := y / radix;
    }
    AllPrinted(n, s, radix);
  }

  lemma AllPrinted(n: nat, s: seq<nat>, radix: nat)
    requires Printed(n, 0, s, radix)
    ensures AreDigits(s, radix) && DigitsVal(s, radix) == n
  {
  }

  /** The digits of an integer double read back as it. */
  lemma IntegerReadsBack(a: nat, m: nat, e: int, n: nat, radix: nat, s: seq<nat>)
    requires 0 < a < INFINITY && (m, e) == Decompose(a) && IsRadix(radix)
    requires 1 <= e <= 53 && n * Pow(2, 53 - e) == m && IsNumeral(s, n, radix)
    ensures n > 0 && |s| <= AtodMaxDigits(radix)
    ensures KeptValue(s, radix, |s|) == Decimal(n, radix, 0) && NearestBits(Decimal(n, radix, 0)) == a
    ensures n as real == DoubleValue(m, e)
  {
    hide Decompose, Decimal, RoundToDouble, Float64Bits, DtoaMaxDigits, AtodMaxDigits, Pow, PowR, DigitsVal, IsDouble,
         NearestBits;
    DecomposeInverse(a);
    IntegerValue(m, e, n, radix);
    IntegerLength(s, n, m, e, radix);
    assert s[..|s|] == s;
    NearestOf(Decimal(n, radix, 0), m, e);
  }

  lemma IntegerLength(s: seq<nat>, n: nat, m: nat, e: int, radix: nat)
    requires IsRadix(radix) && IsDouble(m, e) && 1 <= e <= 53 && n * Pow(2, 53 - e) == m && IsNumeral(s, n, radix)
    ensures n > 0 && |s| <= AtodMaxDigits(radix)
  {
    hide DigitsVal, AtodMaxDigits, DtoaMaxDigits;
    if n == 0 { assert false; }
    MulMono(1, Pow(2, 53 - e), n);
    DigitsBound(s, radix);
    MaxDigitsSuffice(radix);
    PrintedLength(radix);
    if |s| > DtoaMaxDigits(radix) { PowMonoExp(radix, DtoaMaxDigits(radix) - 1, |s| - 1); }
  }

  lemma IntegerValue(m: nat, e: int, n: nat, radix: nat)
    requires IsRadix(radix) && IsDouble(m, e) && 1 <= e <= 53 && n * Pow(2, 53 - e) == m
    ensures Decimal(n, radix, 0) > 0.0 && RoundToDouble(Decimal(n, radix, 0), RNDN) == (m, e)
    ensures n as real == DoubleValue(m, e)
  {
    hide RoundToDouble, PowR;
    DecimalValue(n, radix, 0);
    PowRZero(radix);
    var u := PowR(2, e - 53);
    PowRPos(2, e - 53);
    assert (m as real) * u == n as real by {
      PowRNeg(2, 53 - e);
      PowRInv(2, 53 - e);
      PowRNat(2, 53 - e);
    }
    CloseRoundsTo(m, e, u, n as real);
  }

  /** The double (m, e) is an integer below 2^53. */
  predicate IsWhole(m: nat, e: int)
  {
    1 <= e <= 53 && m % Pow(2, 53 - e) == 0
  }

  lemma FreeDigits(m: nat, e: int, radix: nat, s: seq<nat>, scale: int)
    requires IsRadix(radix) && IsFreeFormat(m, e, radix, s, scale)
    ensures AreDigits(s, radix) && |s| > 0 && s[0] > 0
  {
  }

  /** js_dtoa in free format followed by js_atod, for every finite positive float64
      and every radix: an integer is printed as its own digits and any other number in the
      digits of the search, the float64 is nearest to what is printed, and reading that
      gives its pattern. exponent says that the exponent form was asked for. */
  method PrintThenRead(fpu: Fpu, a: nat, radix: nat, exponent: bool) returns (s: seq<nat>, scale: int, b: nat)
    requires CorrectlyRounded(fpu) && 0 < a < INFINITY && IsRadix(radix)
    ensures var (m, e) := Decompose(a);
            if IsWhole(m, e) && !exponent then
              IsNumeral(s, DigitsVal(s, radix), radix) && scale == |s|
              && DigitsVal(s, radix) as real == DoubleValue(m, e)
            else IsFreeFormat(m, e, radix, s, scale)
    ensures NearestBits(Decimal(DigitsVal(s, radix), radix, scale - |s|)) == a
    ensures b == a
  {
    hide CorrectlyRounded, Decompose, IsDouble, Pow, DigitsVal, NearestBits, RadixBits, KeptValue, BinaryValue, Decimal,
         IsFreeFormat, DoubleValue;
    var (m, e) := Decompose(a);
    if IsWhole(m, e) && !exponent {
      var n := m / Pow(2, 53 - e);
      Whole(a, m, e, n);
      s := U64ToaRadix(n, radix);
      scale := |s|;
      IntegerReadsBack(a, m, e, n, radix, s);
      if IsPowerOfTwo(radix) { BinaryIsDecimal(s, radix, RadixBits(radix), scale); }
    } else {
      s, scale := Search(a, m, e, radix);
      FreeDigits(m, e, radix, s, scale);
    }
    if IsPowerOfTwo(radix) {
      b := ConvertBinary(s, radix, scale * RadixBits(radix));
    } else {
      b := ConvertRadix(fpu, s, radix, scale);
    }
  }

  lemma Whole(a: nat, m: nat, e: int, n: nat)
    requires 0 < a < INFINITY && (m, e) == Decompose(a) && 1 <= e <= 53
    requires m % Pow(2, 53 - e) == 0 && n == m / Pow(2, 53 - e)
    ensures n * Pow(2, 53 - e) == m && 0 < n < BASE2
  {
    hide Decompose;
    DecomposeInverse(a);
    DivModEq(m, Pow(2, 53 - e));
    if n == 0 { assert false; }
    MulMono(1, Pow(2, 53 - e), n);
  }
}
