/** The digits of a number, and the way from a float64 to its digits and back. */
module PrintNumber {
  import opened Arith
  import opened Limbs
  import opened Rounding
  import opened Reals
  import opened Bignum
  import opened Tables
  import opened Float64
  import opened Log2Radix
  import opened FreeFormat
  import opened DigitSearch
  import opened ShortestSearch
  import opened Bits
  import opened Digits
  import opened Mantissa
  import opened ReadNumber

  lemma DigitsJoin(t: seq<nat>, s: seq<nat>, radix: nat)
    ensures DigitsVal(t + s, radix) == DigitsVal(t, radix) * Pow(radix, |s|) + DigitsVal(s, radix)
  {
    DigitsSplit(t + s, |t|, radix);
    assert (t + s)[..|t|] == t && (t + s)[|t|..] == s;
  }

  /** s is the low end of v0, and rest what is above it. */
  ghost predicate Printed(v0: nat, rest: nat, s: seq<nat>, radix: nat)
  {
    AreDigits(s, radix) && v0 == rest * Pow(radix, |s|) + DigitsVal(s, radix)
  }

  lemma PrintMore(v0: nat, rest: nat, s: seq<nat>, radix: nat, t: seq<nat>, q: nat)
    requires radix > 0 && Printed(v0, rest, s, radix) && AreDigits(t, radix)
    requires 0 < q == Pow(radix, |t|) && DigitsVal(t, radix) == rest % q
    ensures Printed(v0, rest / q, t + s, radix)
  {
    hide Pow, DigitsVal;
    DigitsJoin(t, s, radix);
    DivModEq(rest, q);
    PowAdd(radix, |t|, |s|);
    Regroup(rest, rest / q, q, rest % q, Pow(radix, |s|));
  }

  lemma Regroup(r: nat, a: nat, q: nat, b: nat, p: nat)
    requires r == a * q + b
    ensures r * p == a * (q * p) + b * p
  {
  }

  lemma PrintedAll(v0: nat, rest: nat, s: seq<nat>, radix: nat)
    requires radix > 0 && Printed(v0, rest, s, radix)
    ensures Pow(radix, |s|) > 0 && DigitsVal(s, radix) == v0 % Pow(radix, |s|)
  {
    DigitsBound(s, radix);
    DivModUnique(v0, Pow(radix, |s|), rest, DigitsVal(s, radix));
  }

  /** limb_to_a and u64toa_bin_len: the n low digits of x, from the back. */
  method LimbDigits(x: nat, radix: nat, n: nat) returns (s: seq<nat>)
    requires radix >= 2
    ensures |s| == n && AreDigits(s, radix)
    ensures Pow(radix, n) > 0 && DigitsVal(s, radix) == x % Pow(radix, n)
  {
    hide Pow, DigitsVal, AreDigits, Printed;
    var y: nat := x;
    s := [];
    var i := n;
    NothingPrinted(x, radix);
    while i > 0
      invariant 0 <= i <= n && |s| == n - i && Printed(x, y, s, radix)
    {
      i := i - 1;
      OneDigit(y, radix);
      PrintMore(x, y, s, radix, [y % radix], radix);
      s := [y % radix] + s;
      y := y / radix;
    }
    PrintedAll(x, y, s, radix);
    PrintedDigits(x, y, s, radix);
  }

  lemma OneDigit(y: nat, radix: nat)
    requires radix >= 2
    ensures Pow(radix, 1) == radix
    ensures DigitsVal([y % radix], radix) == y % radix && AreDigits([y % radix], radix)
  {
  }

  /** The low digits of a low part. */
  lemma LowDigits(v: nat, q: nat, p: nat, k: nat)
    requires p > 0 && q == p * k && q > 0
    ensures (v % q) % p == v % p
  {
    DivModEq(v, q);
    MulAssoc(p, k, v / q);
    DivAddMultiple(v % q, p, k * (v / q));
  }

  lemma LowPower(v: nat, radix: nat, n: nat, d: nat, q: nat)
    requires radix > 0 && n <= d && q == Pow(radix, d)
    ensures q > 0 && Pow(radix, n) > 0 && (v % q) % Pow(radix, n) == v % Pow(radix, n)
  {
    PowAdd(radix, n, d - n);
    LowDigits(v, q, Pow(radix, n), Pow(radix, d - n));
  }

  /** A limb holds the low digits of a power-of-two radix. */
  lemma LowLimbDigits(t: seq<Limb>, radix: nat, bits: nat, n: nat)
    requires |t| >= 1 && IsRadix(radix) && IsPowerOfTwo(radix) && bits == RadixBits(radix)
    requires n <= DigitsPerLimb(radix)
    ensures Pow(radix, n) > 0 && t[0] % Pow(radix, n) == Val(t) % Pow(radix, n)
  {
    hide Pow, Val;
    assert bits * n <= 32 by { MulMono(n, DigitsPerLimb(radix), bits); LimbBits(radix); }
    RadixPower(radix, bits, n);
    Pow32();
    FirstLimb(t);
    LowPower(Val(t), 2, bits * n, 32, BASE);
  }

  lemma LimbBits(radix: nat)
    requires IsRadix(radix) && IsPowerOfTwo(radix)
    ensures DigitsPerLimb(radix) * RadixBits(radix) <= 32
  {
  }

  lemma FirstLimb(t: seq<Limb>)
    requires |t| >= 1
    ensures t[0] == Val(t) % BASE
  {
  }

  /** output_digits: the nDigits low digits of a. */
  method OutputDigits(a: Mpb, radix: nat, nDigits: nat) returns (s: seq<nat>)
    requires a.Normal() && IsRadix(radix) && nDigits >= 1
    modifies a
    ensures |s| == nDigits && AreDigits(s, radix)
    ensures Pow(radix, nDigits) > 0 && DigitsVal(s, radix) == old(a.Value()) % Pow(radix, nDigits)
  {
    hide Pow, Val, DigitsPerLimb, RadixBaseEntry, Printed, AreDigits, RadixBits, DigitsVal;
    var left, digitsPerLimb := nDigits, DigitsPerLimb(radix);
    ghost var rest: nat := a.Value();
    s := [];
    NothingPrinted(rest, radix);
    ChunkPositive(radix);
    while left != 0
      invariant 0 <= left <= nDigits && |s| == nDigits - left
      invariant Printed(old(a.Value()), rest, s, radix) && (left != 0 ==> a.Normal() && a.Value() == rest)
    {
      var n := Min(left, digitsPerLimb);
      left := left - n;
      var t := OutputChunk(a, radix, n, left);
      PrintMore(old(a.Value()), rest, s, radix, t, Pow(radix, n));
      rest := rest / Pow(radix, n);
      s := t + s;
    }
    PrintedAll(old(a.Value()), rest, s, radix);
    PrintedDigits(old(a.Value()), rest, s, radix);
  }

  lemma NothingPrinted(v: nat, radix: nat)
    ensures Printed(v, v, [], radix)
  {
  }

  lemma PrintedDigits(v0: nat, rest: nat, s: seq<nat>, radix: nat)
    requires Printed(v0, rest, s, radix)
    ensures AreDigits(s, radix)
  {
  }

  lemma ChunkPositive(radix: nat)
    requires IsRadix(radix)
    ensures DigitsPerLimb(radix) > 0
  {
  }

  /** One round of output_digits: take n digits off the low end. */
  method OutputChunk(a: Mpb, radix: nat, n: nat, left: nat) returns (t: seq<nat>)
    requires a.Normal() && IsRadix(radix) && n <= DigitsPerLimb(radix)
    requires left != 0 ==> n == DigitsPerLimb(radix)
    modifies a
    ensures |t| == n && AreDigits(t, radix)
    ensures Pow(radix, n) > 0 && DigitsVal(t, radix) == old(a.Value()) % Pow(radix, n)
    ensures left != 0 ==> a.Normal() && a.Value() == old(a.Value()) / Pow(radix, n)
  {
    hide Pow, Val, DigitsPerLimb, RadixBaseEntry, AreDigits, RadixBits, DigitsVal, IsPowerOfTwo, RoundShift;
    ghost var v := a.Value();
    if IsPowerOfTwo(radix) {
      var bits := RadixBits(radix);
      LowLimbDigits(a.tab, radix, bits, n);
      t := LimbDigits(a.tab[0], radix, n);
      if left != 0 {
        RadixPower(radix, bits, n);
        TruncatingShift(v, bits * n);
        a.ShrRound(bits * n, RNDZ);
      }
    } else {
      OddBase(radix);
      var b := RadixBaseEntry(radix);
      var r := a.Div1(b, 0);
      DivModUnique(v, b, a.Value(), r);
      a.Renorm();
      LowPower(v, radix, n, DigitsPerLimb(radix), b);
      t := LimbDigits(r, radix, n);
    }
  }

  lemma TruncatingShift(v: nat, k: nat)
    ensures Pow(2, k) > 0 && RoundShift(v, k, RNDZ) == v / Pow(2, k)
  {
  }

  lemma OddBase(radix: nat)
    requires IsRadix(radix) && !IsPowerOfTwo(radix)
    ensures 0 < RadixBaseEntry(radix) == Pow(radix, DigitsPerLimb(radix))
  {
    RadixBaseIsPower(radix);
    BaseNonzero(radix);
  }

  lemma BaseNonzero(radix: nat)
    requires IsRadix(radix) && !IsPowerOfTwo(radix)
    ensures RadixBaseEntry(radix) > 0
  {
  }

  // ---- print, then read ---------------------------------------------------------------------

  lemma FirstDigit(s: seq<nat>, radix: nat)
    requires |s| > 0 && radix > 0 && AreDigits(s, radix) && DigitsVal(s, radix) >= Pow(radix, |s| - 1)
    ensures s[0] > 0
  {
    DigitsSplit(s, 1, radix);
    DigitsBound(s[1..], radix);
    assert s[..1] == [s[0]] && s[..1][..0] == [];
    assert DigitsVal(s[..1], radix) == s[0];
  }

  lemma PrintedLength(radix: nat)
    requires IsRadix(radix)
    ensures DtoaMaxDigits(radix) <= AtodMaxDigits(radix)
  {
  }

  /** Every digit string of a found mantissa reads back as the same pattern. */
  lemma FoundReadsBack(a: nat, m: nat, e: int, radix: nat, mant: nat, p: nat, e1: int, s: seq<nat>)
    requires 0 < a < INFINITY && (m, e) == Decompose(a) && IsRadix(radix)
    requires IsFound(m, e, radix, mant, p, e1)
    requires |s| == p && AreDigits(s, radix) && DigitsVal(s, radix) == mant
    ensures s[0] > 0 && KeptValue(s, radix, e1) == Decimal(mant, radix, e1 - p)
    ensures NearestBits(Decimal(mant, radix, e1 - p)) == a
  {
    hide Decompose, ClosestOf, Decimal, RoundToDouble, Float64Bits, DtoaMaxDigits, AtodMaxDigits, IsDouble;
    FirstDigit(s, radix);
    PrintedLength(radix);
    assert s[..p] == s;
    DecomposeInverse(a);
    NearestOf(Decimal(mant, radix, e1 - p), m, e);
  }

  lemma BinaryIsDecimal(s: seq<nat>, radix: nat, bits: nat, e1: int)
    requires IsRadix(radix) && IsPowerOfTwo(radix) && bits == RadixBits(radix)
    ensures BinaryValue(s, radix, e1 * bits) == Decimal(DigitsVal(s, radix), radix, e1 - |s|)
  {
    hide PowR;
    DecimalValue(DigitsVal(s, radix), radix, e1 - |s|);
    PowRPow(2, bits, e1 - |s|);
    assert bits * (e1 - |s|) == e1 * bits - |s| * bits by { MulDist(bits, e1, -|s|); }
  }

  /** The digits of free format for the double (m, e): the value rounded to as many digits
      as the search stops at, which are the fewest that read back exactly when no length is
      passed over. No number of up to that many digits is closer, and the last digit is not
      zero. */
  ghost predicate IsFreeFormat(m: nat, e: int, radix: nat, s: seq<nat>, scale: int)
    requires IsRadix(radix)
  {
    && AreDigits(s, radix) && |s| > 0 && s[0] > 0 && s[|s| - 1] > 0
    && IsTry(m, e, radix, FirstExponent(e, radix), |s|, DigitsVal(s, radix), scale) && StopsAt(m, e, radix, |s|)
    && (NoneReadsBack(radix, |s| - 1, m, e) <==> NonePassedOver(m, e, radix))
    && ClosestOf(DigitsVal(s, radix), radix, scale - |s|, |s|, m, e)
  }

  /** The digits the search finds, as digits. */
  method Search(a: nat, m: nat, e: int, radix: nat) returns (s: seq<nat>, e1: int)
    requires 0 < a < INFINITY && (m, e) == Decompose(a) && IsRadix(radix)
    ensures IsFreeFormat(m, e, radix, s, e1)
    ensures NearestBits(Decimal(DigitsVal(s, radix), radix, e1 - |s|)) == a
    ensures IsPowerOfTwo(radix) ==> NearestBits(BinaryValue(s, radix, e1 * RadixBits(radix))) == a
    ensures !IsPowerOfTwo(radix) ==> NearestBits(KeptValue(s, radix, e1)) == a
  {
    hide Decompose, IsDouble, IsFound, Pow, DigitsVal, NearestBits, RadixBits, KeptValue, BinaryValue, Decimal,
         IsFreeFormat, IsTry, StopsAt, NoneReadsBack, NonePassedOver;
    DecomposeInverse(a);
    var mant, p;
    mant, p, e1 := FindDigits(m, e, radix);
    FoundFits(m, e, radix, mant, p, e1);
    var tmp := new Mpb();
    tmp.SetU64(mant);
    s := OutputDigits(tmp, radix, p);
    SmallRemainder(mant, Pow(radix, p));
    FoundReadsBack(a, m, e, radix, mant, p, e1, s);
    FoundIsFree(m, e, radix, mant, p, e1, s);
    if IsPowerOfTwo(radix) { BinaryIsDecimal(s, radix, RadixBits(radix), e1); }
  }

  lemma FoundIsFree(m: nat, e: int, radix: nat, mant: nat, p: nat, e1: int, s: seq<nat>)
    requires IsRadix(radix) && IsFound(m, e, radix, mant, p, e1)
    requires IsTry(m, e, radix, FirstExponent(e, radix), p, mant, e1) && StopsAt(m, e, radix, p)
    requires NoneReadsBack(radix, p - 1, m, e) <==> NonePassedOver(m, e, radix)
    requires |s| == p && AreDigits(s, radix) && DigitsVal(s, radix) == mant
    ensures IsFreeFormat(m, e, radix, s, e1)
  {
    hide ReadsBack, ClosestOf, IsTry, StopsAt, NoneReadsBack, NonePassedOver, FirstExponent, DtoaMaxDigits, Pow;
    FirstDigit(s, radix);
    var n := |s| - 1;
    DivModUnique(mant, radix, DigitsVal(s[..n], radix), s[n]);
  }

  lemma FoundFits(m: nat, e: int, radix: nat, mant: nat, p: nat, e1: int)
    requires IsRadix(radix) && IsFound(m, e, radix, mant, p, e1)
    ensures p >= 1 && mant < Pow(radix, p) && mant < BASE2
  {
    MantissaFits(radix, p, mant);
  }

  lemma SmallRemainder(x: nat, y: nat)
    requires x < y
    ensures x % y == x
  {
  }
}
