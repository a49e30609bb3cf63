/** Printing a float64 with as few digits as still identify it: the free-format
    digit search of js_dtoa. */
module FreeFormat {
  import opened Arith
  import opened Limbs
  import opened Rounding
  import opened Reals
  import opened Bignum
  import opened Tables
  import opened Scaling
  import opened Float64
  import opened Log2Radix

  /** A finite nonzero float64, normalized: m * 2^(e - 53). A subnormal keeps
      zero bits below 2^-1074. */
  ghost predicate IsDouble(m: nat, e: int)
  {
    && TWO52 <= m < TWO53
    && -1073 <= e <= 1024
    && (e < E_MIN ==> m % Pow(2, E_MIN - e) == 0)
  }

  /** The value of the pair (m, e). */
  ghost function DoubleValue(m: nat, e: int): real
  {
    (m as real) * PowR(2, e - 53)
  }

  // ---- numbers close to a double round to it -----------------------------------

  /** Powers of two around a binade, in units of its last place. */
  lemma UlpPowers(e: int, u: real)
    requires u == PowR(2, e - 53)
    ensures PowR(2, e - 1) == (TWO52 as real) * u
    ensures PowR(2, e) == (TWO53 as real) * u
    ensures 2.0 * PowR(2, e - 2) == (TWO52 as real) * u
  {
    hide PowR;
    TwoTo53();
    PowRNat(2, 53);
    PowRAdd(2, 53, e - 53);
    PowRStep(2, e - 1);
    PowRStep(2, e - 2);
  }

  /** A number in the binade of (m, e), off by less than half a unit. */
  lemma RoundsInBinade(m: nat, e: int, u: real, y: real)
    requires IsDouble(m, e) && u == PowR(2, e - 53)
    requires InBinade(y, e) && -u < 2.0 * (y - (m as real) * u) < u
    ensures y > 0.0 && RoundToDouble(y, RNDN) == (m, e)
  {
    hide PowR, RoundReal, RoundToDouble, Pow;
    var prec := Precision(e);
    var t, c := PowR(2, prec - 53), PowR(2, prec - e);
    assert u * c == t by { PowRAdd(2, e - 53, prec - e); }
    var n := MantissaAtPrecision(m, e, prec, t);
    assert t <= 1.0 by { PowRMono(2, prec - 53, 0); PowRZero(2); }
    ScaledError(m as real, u, c, t, y);
    RoundRealIs(y * c, RNDN, n);
    RoundToDoubleIs(y, e, y * c, RNDN, n);
  }

  lemma ScaledError(m: real, u: real, c: real, t: real, y: real)
    requires u > 0.0 && c > 0.0 && u * c == t && 0.0 < t <= 1.0
    requires -u < 2.0 * (y - m * u) < u
    ensures -0.5 < m * t - y * c < 0.5
  {
  }

  /** The mantissa with the bits the binade has no room for dropped; they are
      zero. */
  lemma MantissaAtPrecision(m: nat, e: int, prec: int, t: real) returns (n: nat)
    requires IsDouble(m, e) && prec == Precision(e) && t == PowR(2, prec - 53)
    ensures n as real == (m as real) * t
    ensures n * Pow(2, 53 - prec) == m && Normalize53(n, prec, e) == (m, e)
  {
    hide PowR;
    var k := 53 - prec;
    var p := Pow(2, k);
    assert m % p == 0 by {
      if e >= E_MIN { assert p == 1; }
    }
    DivModEq(m, p);
    n := m / p;
    assert n * p == m;
    RealProduct(n, p);
    PowRNat(2, k);
    PowRInv(2, k);
    assert t == PowR(2, -k);
    RAssoc(n as real, PowR(2, k), t);
  }

  /** A number just below the power of two 2^(e - 1), off by less than a quarter
      of a unit, where the spacing of floats halves. */
  lemma RoundsUpToPower(e: int, u: real, y: real)
    requires -1073 <= e && u == PowR(2, e - 53)
    requires y < (TWO52 as real) * u && -u < 4.0 * (y - (TWO52 as real) * u)
    ensures y > 0.0 && RoundToDouble(y, RNDN) == (TWO52, e)
  {
    hide PowR, RoundReal, RoundToDouble, Pow;
    UlpPowers(e, u);
    assert InBinade(y, e - 1);
    var prec := Precision(e - 1);
    assert prec >= 0;
    var c, t := PowR(2, prec - (e - 1)), PowR(2, prec - 53);
    assert u * c == 2.0 * t by {
      PowRAdd(2, e - 53, prec - (e - 1));
      PowRStep(2, prec - 53);
    }
    assert t <= 1.0 by { PowRMono(2, prec - 53, 0); PowRZero(2); }
    PowRNat(2, prec);
    assert (TWO53 as real) * t == PowR(2, prec) by {
      TwoTo53();
      PowRNat(2, 53);
      PowRAdd(2, 53, prec - 53);
    }
    QuarterError(TWO52 as real, u, c, t, y);
    RoundRealIs(y * c, RNDN, Pow(2, prec));
    RoundToDoubleIs(y, e - 1, y * c, RNDN, Pow(2, prec));
    PowAdd(2, prec, 53 - prec);
    TwoTo53();
  }

  lemma QuarterError(m: real, u: real, c: real, t: real, y: real)
    requires u > 0.0 && c > 0.0 && u * c == 2.0 * t && 0.0 < t <= 1.0
    requires y < m * u && -u < 4.0 * (y - m * u)
    ensures -0.5 < 2.0 * m * t - y * c < 0.5
  {
  }

  /** Any number within half a unit of a double rounds to it, provided it is
      within a quarter of a unit when it lies below a power of two. */
  lemma CloseRoundsTo(m: nat, e: int, u: real, y: real)
    requires IsDouble(m, e) && u == PowR(2, e - 53)
    requires -u < 2.0 * (y - (m as real) * u) < u
    requires m == TWO52 ==> -u < 4.0 * (y - (m as real) * u)
    ensures y > 0.0 && RoundToDouble(y, RNDN) == (m, e)
  {
    hide PowR, RoundToDouble, Pow;
    PowRPos(2, e - 53);
    UlpPowers(e, u);
    BelowNext(m, TWO53, u, y);
    if y >= (TWO52 as real) * u {
      RoundsInBinade(m, e, u, y);
    } else {
      if m > TWO52 { AboveFloor(m, TWO52, u, y); }
      RoundsUpToPower(e, u, y);
    }
  }

  lemma BelowNext(m: nat, next: nat, u: real, y: real)
    requires m < next && u > 0.0 && 2.0 * (y - (m as real) * u) < u
    ensures y < (next as real) * u
  {
    RMulMono(u, (m + 1) as real, next as real);
    assert ((m + 1) as real) * u == (m as real) * u + u;
  }

  lemma AboveFloor(m: nat, floor: nat, u: real, y: real)
    requires floor < m && u > 0.0 && -u < 2.0 * (y - (m as real) * u)
    ensures y > (floor as real) * u
  {
    RMulMono(u, (floor + 1) as real, m as real);
    assert ((floor + 1) as real) * u == (floor as real) * u + u;
  }

  // ---- the mantissa tried for a given number of digits ---------------------------

  lemma DoubleInBinade(m: nat, e: int, u: real, d: real)
    requires TWO52 <= m < TWO53 && u == PowR(2, e - 53) && d == (m as real) * u
    ensures InBinade(d, e)
  {
    hide PowR;
    PowRPos(2, e - 53);
    UlpPowers(e, u);
    RMulMono(u, TWO52 as real, m as real);
    RMulStrict(u, m as real, TWO53 as real);
    assert PowR(2, e - 1) <= d;
    assert d < PowR(2, e);
  }

  /** With p digits and the exponent e0, the scaled value d * radix^(p - e0) lies
      between radix^(p - 1) and 2 * radix^p. */
  lemma FirstScale(d: real, e: int, radix: nat, e0: int, p: int, g: real, x: real)
    requires radix >= 2 && InBinade(d, e) && IsFloorLog(radix, e - 1, e0 - 1)
    requires g == PowR(radix, p - e0) && x == d * g
    ensures PowR(radix, p - 1) <= x < 2.0 * PowR(radix, p)
    ensures radix == 2 ==> x < PowR(radix, p)
  {
    hide PowR;
    PowRPos(radix, p - e0);
    PowRAdd(radix, e0 - 1, p - e0);
    PowRAdd(radix, e0, p - e0);
    PowRStep(2, e - 1);
    assert PowR(radix, p) == PowR(radix, e0) * g;
    assert d < 2.0 * PowR(radix, e0);
    if radix == 2 { SameFloorLog(e - 1, e0 - 1); }
    RMulMono(g, PowR(radix, e0 - 1), d);
    ScaleBound(d, g, PowR(radix, e0));
    if radix == 2 { RMulStrict(g, d, PowR(2, e)); }
  }

  lemma ScaleBound(d: real, g: real, a: real)
    requires g > 0.0 && d < 2.0 * a
    ensures d * g < 2.0 * (a * g)
  {
  }

  lemma SameFloorLog(a: int, k: int)
    requires IsFloorLog(2, a, k)
    ensures a == k
  {
    if k < a { PowRMono(2, k + 1, a); }
    if a < k { PowRStrict(2, a, k); }
  }

  /** So the first mantissa has at least p digits and fits 64 bits. */
  lemma FirstTry(radix: nat, p: nat, x: real, f: int)
    requires radix >= 2 && p >= 1 && f == RoundReal(x, RNDN)
    requires PowR(radix, p - 1) <= x < 2.0 * PowR(radix, p)
    ensures Pow(radix, p - 1) <= f <= 2 * Pow(radix, p)
  {
  }

  /** A first mantissa of more than p digits: dividing by the radix once more
      gives exactly p digits. */
  lemma SecondTry(radix: nat, p: nat, x: real, f: int, x': real, f': int)
    requires radix >= 2 && p >= 1 && f == RoundReal(x, RNDN) && f' == RoundReal(x', RNDN)
    requires x == (radix as real) * x' && x < 2.0 * PowR(radix, p)
    requires radix == 2 ==> x < PowR(radix, p)
    requires f >= Pow(radix, p)
    ensures Pow(radix, p - 1) <= f' < Pow(radix, p)
  {
    hide RoundReal, PowR;
    var q := Pow(radix, p - 1);
    PowRNat(radix, p);
    RealProduct(radix, q);
    assert Pow(radix, p) == radix * q;
    RoundRealNearest(x, RNDN);
    SecondLower(radix as real, q as real, x');
    if q > 0 { RoundRealMonoFrom(x', q); }
    SecondUpper(radix, q, x');
    RoundRealMono(x', ((radix * q - 1) as real), RNDN);
    RoundRealInt(radix * q - 1, RNDN);
  }

  lemma SecondLower(r: real, q: real, x': real)
    requires r >= 2.0 && r * x' >= r * q - 0.5
    ensures x' >= q - 0.25
  {
  }

  lemma RoundRealMonoFrom(x: real, n: int)
    requires x >= n as real - 0.25
    ensures RoundReal(x, RNDN) >= n
  {
  }

  lemma SecondUpper(radix: nat, q: nat, x': real)
    requires radix >= 2 && q >= 1
    requires (radix as real) * x' < 2.0 * ((radix * q) as real)
    requires radix == 2 ==> (radix as real) * x' < (radix * q) as real
    ensures x' <= (radix * q - 1) as real
  {
    RealProduct(radix, q);
    if radix == 2 {
      assert x' < q as real;
    } else {
      RMulCancel(radix as real, x', 2.0 * (q as real));
      MulMono(3, radix, q);
    }
  }

  lemma RMulCancel(r: real, x: real, y: real)
    requires r > 0.0 && r * x < r * y
    ensures x < y
  {
  }

  // ---- the first try, with the most digits, always identifies the double ---------

  /** Rounding to an integer multiple of gi is off by at most gi / 2. */
  lemma BackError(d: real, g: real, gi: real, x: real, f: int, y: real)
    requires g > 0.0 && gi > 0.0 && g * gi == 1.0 && x == d * g && y == (f as real) * gi
    requires -0.5 <= (f as real) - x <= 0.5
    ensures -gi <= 2.0 * (y - d) <= gi
  {
  }

  /** With the most digits the last digit counts for less than half a unit. */
  lemma DigitUnit(radix: nat, e: int, e0: int, p: nat, q: nat, u: real, gi: real)
    requires radix > 0 && p >= 1 && IsFloorLog(radix, e - 1, e0 - 1) && q == Pow(radix, p - 1)
    requires u == PowR(2, e - 53) && gi == PowR(radix, e0 - p) && q > TWO53
    ensures 2.0 * gi < u
  {
    hide PowR;
    PowRPos(radix, e0 - p);
    PowRNat(radix, p - 1);
    PowRAdd(radix, e0 - p, p - 1);
    UlpPowers(e, u);
    assert gi * (q as real) == PowR(radix, e0 - 1);
    assert gi * (q as real) <= (TWO52 as real) * u;
    HalfUnit(gi, q, u);
  }

  lemma HalfUnit(gi: real, q: nat, u: real)
    requires gi > 0.0 && q > TWO53 && gi * (q as real) <= (TWO52 as real) * u
    ensures 2.0 * gi < u
  {
  }

  /** The mantissa kept at the estimated exponent. */
  lemma MaxDigitsFirst(m: nat, e: int, radix: nat, u: real, gi: real, y: real)
    requires IsDouble(m, e) && u == PowR(2, e - 53) && 2.0 * gi < u
    requires -gi <= 2.0 * (y - (m as real) * u) <= gi
    ensures y > 0.0 && RoundToDouble(y, RNDN) == (m, e)
  {
    hide PowR, RoundToDouble;
    CloseRoundsTo(m, e, u, y);
  }

  /** For radix 2 the scaled value is the integer 2 * m. */
  lemma MaxDigitsBinary(m: nat, e: int, e0: int, x: real)
    requires IsFloorLog(2, e - 1, e0 - 1)
    requires x == (m as real) * PowR(2, e - 53) * PowR(2, 54 - e0)
    ensures e0 == e && x == (2 * m) as real && RoundReal(x, RNDN) == 2 * m
  {
    hide PowR;
    SameFloorLog(e - 1, e0 - 1);
    PowRAdd(2, e - 53, 54 - e);
    PowRZero(2);
    RAssoc(m as real, PowR(2, e - 53), PowR(2, 54 - e));
    RoundRealInt(2 * m, RNDN);
  }

  /** After one more division by the radix the last digit counts for less than a
      unit, and for less than half a unit at a power of two. */
  lemma SecondUnit(m: nat, radix: nat, e0: int, p: nat, u: real, d: real, g: real, gi: real, x: real, f: int, gi2: real)
    requires radix > 0 && p >= 1 && Pow(radix, p - 1) > TWO53
    requires m < TWO53 && u > 0.0 && d == (m as real) * u
    requires gi == PowR(radix, e0 - p) && g * gi == 1.0 && x == d * g && 2.0 * gi < u
    requires gi2 == PowR(radix, e0 + 1 - p)
    requires -0.5 <= (f as real) - x <= 0.5 && f >= Pow(radix, p)
    ensures gi2 > 0.0 && gi2 < u
    ensures m == TWO52 ==> 2.0 * gi2 < u
  {
    hide PowR, Pow;
    PowRPos(radix, e0 - p);
    PowRPos(radix, e0 + 1 - p);
    var q := Pow(radix, p - 1) as real;
    assert gi2 * q <= d + 0.5 * gi by {
      LargeValue(d, g, gi, x, f, Pow(radix, p));
      PowRNat(radix, p);
      PowRNat(radix, p - 1);
      PowRAdd(radix, e0 - p, p);
      PowRAdd(radix, e0 + 1 - p, p - 1);
    }
    assert gi2 < u by { UnitBelow(gi2, q, m, TWO53, u, gi); }
    if m == TWO52 { UnitBelowHalf(gi2, q, u, gi); }
  }

  lemma LargeValue(d: real, g: real, gi: real, x: real, f: int, n: nat)
    requires gi > 0.0 && g * gi == 1.0 && x == d * g
    requires (f as real) - x <= 0.5 && f >= n
    ensures gi * (n as real) <= d + 0.5 * gi
  {
  }

  lemma UnitBelow(gi2: real, q: real, m: nat, top: nat, u: real, gi: real)
    requires gi2 > 0.0 && u > 0.0 && 2.0 * gi < u && m < top && q >= top as real
    requires gi2 * q <= (m as real) * u + 0.5 * gi
    ensures gi2 < u
  {
    assert ((m + 1) as real) * u == (m as real) * u + u;
    if gi2 >= u {
      RMulMono(q, u, gi2);
      RMulMono(u, (m + 1) as real, q);
    }
  }

  lemma UnitBelowHalf(gi2: real, q: real, u: real, gi: real)
    requires gi2 > 0.0 && u > 0.0 && 2.0 * gi < u && q >= (TWO53 + 1) as real
    requires gi2 * q <= (TWO52 as real) * u + 0.5 * gi
    ensures 2.0 * gi2 < u
  {
  }

  // ---- the search ------------------------------------------------------------------

  /** Trailing zero bits of a radix (ctz32). */
  function TrailingZeros(n: nat): (k: nat)
    requires n > 0
    ensures n / Pow(2, k) % 2 == 1 && n == n / Pow(2, k) * Pow(2, k)
  {
    if n % 2 == 1 then
      0
    else
      var k := TrailingZeros(n / 2);
      HalvedQuotient(n, k);
      k + 1
  }

  lemma HalvedQuotient(n: nat, k: nat)
    requires n % 2 == 0 && n / 2 == n / 2 / Pow(2, k) * Pow(2, k)
    ensures n / Pow(2, k + 1) == n / 2 / Pow(2, k)
    ensures n == n / Pow(2, k + 1) * Pow(2, k + 1)
  {
    DivTwice(n, 2, Pow(2, k));
    var a, p := n / 2 / Pow(2, k), Pow(2, k);
    assert Pow(2, k + 1) == 2 * p;
    MulSwap3(a, 2, p);
    MulAssoc(a, 2, p);
  }

  lemma PowPositive(k: nat)
    ensures Pow(2, k) >= 1
  {
  }

  lemma RadixSplit(radix: nat, shift: nat, radix1: nat)
    requires IsRadix(radix) && shift == TrailingZeros(radix) && radix1 == radix / Pow(2, shift)
    ensures IsOddPart(radix1) && RadixOf(radix1, shift) == radix
  {
    hide Pow;
    PowPositive(shift);
    MulMono(1, Pow(2, shift), radix1);
  }

  /** mant with exponent e1 is what the search tries for p digits: the value
      rounded at the estimated exponent e0, or at e0 + 1 when that gives too many
      digits. */
  ghost predicate IsTry(m: nat, e: int, radix: nat, e0: int, p: nat, mant: nat, e1: int)
    requires radix > 0 && p >= 1
  {
    && Pow(radix, p - 1) <= mant < Pow(radix, p)
    && mant == RoundReal(Scaled(m, e - 53, radix, p - e1), RNDN)
    && (e1 == e0
        || (e1 == e0 + 1 && RoundReal(Scaled(m, e - 53, radix, p - e0), RNDN) >= Pow(radix, p)))
  }

  /** The number mant * radix^k. */
  ghost function Decimal(mant: nat, radix: nat, k: int): real
    requires radix > 0
  {
    Scaled(mant, 0, radix, k)
  }

  /** mant * radix^k reads back as (m, e). */
  ghost predicate ReadsBack(mant: nat, radix: nat, k: int, m: nat, e: int)
    requires radix > 0
  {
    Decimal(mant, radix, k) > 0.0 && RoundToDouble(Decimal(mant, radix, k), RNDN) == (m, e)
  }

  /** Both tries for p digits, at e0 and at e0 + 1. */
  lemma Tries(m: nat, e: int, radix: nat, e0: int, p: nat, x: real, x': real, f: int, f': int)
    requires TWO52 <= m < TWO53 && radix >= 2 && p >= 1 && IsFloorLog(radix, e - 1, e0 - 1)
    requires x == Scaled(m, e - 53, radix, p - e0) && f == RoundReal(x, RNDN)
    requires x' == Scaled(m, e - 53, radix, p - (e0 + 1)) && f' == RoundReal(x', RNDN)
    ensures Pow(radix, p - 1) <= f <= 2 * Pow(radix, p)
    ensures f >= Pow(radix, p) ==> Pow(radix, p - 1) <= f' < Pow(radix, p)
  {
    hide PowR, RoundReal;
    var u := PowR(2, e - 53);
    var d, g, g' := (m as real) * u, PowR(radix, p - e0), PowR(radix, p - (e0 + 1));
    DoubleInBinade(m, e, u, d);
    FirstScale(d, e, radix, e0, p, g, x);
    FirstTry(radix, p, x, f);
    if f >= Pow(radix, p) {
      PowRStep(radix, p - (e0 + 1));
      RMulSwap(radix as real, d, g');
      SecondTry(radix, p, x, f, x', f');
    }
  }

  /** The inner loop: raise the exponent until the mantissa has p digits. It runs
      at most twice. */
  method TryDigits(tmp: Mpb, m: nat, e: int, radix: nat, radix1: nat, radixShift: nat, e0: int, p: nat)
    returns (mant: nat, e1: int)
    requires TWO52 <= m < TWO53 && IsRadix(radix) && 1 <= p <= DtoaMaxDigits(radix)
    requires IsOddPart(radix1) && RadixOf(radix1, radixShift) == radix
    requires IsFloorLog(radix, e - 1, e0 - 1)
    modifies tmp
    ensures IsTry(m, e, radix, e0, p, mant, e1)
  {
    hide PowR, RoundReal, Scaled, RadixOf, IsFloorLog, IsOddPart, DtoaMaxDigits, Pow;
    var mantMax := PowUi(radix, p);
    MantissasFit(radix, p);
    ghost var x, x' := Scaled(m, e - 53, radix, p - e0), Scaled(m, e - 53, radix, p - (e0 + 1));
    ghost var f, f' := RoundReal(x, RNDN), RoundReal(x', RNDN);
    Tries(m, e, radix, e0, p, x, x', f, f');
    e1 := e0;
    MulPowRound(tmp, m, e - 53, radix1, radixShift, p - e1, RNDN);
    mant := tmp.GetU64();
    while mant >= mantMax
      invariant e1 == e0 || (e1 == e0 + 1 && f >= Pow(radix, p))
      invariant mant == (if e1 == e0 then f else f')
      decreases e0 + 1 - e1
    {
      e1 := e1 + 1;
      MulPowRound(tmp, m, e - 53, radix1, radixShift, p - e1, RNDN);
      mant := tmp.GetU64();
    }
  }

  lemma MantissasFit(radix: nat, p: nat)
    requires IsRadix(radix) && p <= DtoaMaxDigits(radix)
    ensures 2 * Pow(radix, p) < BASE2
    ensures p >= 1 ==> Pow(radix, p - 1) >= 1
  {
    MaxDigitsFit(radix);
    PowMonoExp(radix, p, DtoaMaxDigits(radix));
  }

  /** Remove trailing zero digits. */
  method StripZeros(mant0: nat, p0: nat, radix: nat) returns (mant: nat, p: nat)
    requires radix >= 2 && p0 >= 1 && Pow(radix, p0 - 1) <= mant0 < Pow(radix, p0)
    ensures 1 <= p <= p0 && Pow(radix, p - 1) <= mant < Pow(radix, p)
    ensures mant % radix != 0 && mant0 == mant * Pow(radix, p0 - p)
  {
    mant, p := mant0, p0;
    assert Pow(radix, 0) == 1;
    while mant % radix == 0
      invariant 1 <= p <= p0 && Pow(radix, p - 1) <= mant < Pow(radix, p)
      invariant mant0 == mant * Pow(radix, p0 - p)
      decreases p
    {
      StripStep(mant, p, p0, radix);
      mant := mant / radix;
      p := p - 1;
    }
  }

  lemma StripStep(mant: nat, p: nat, p0: nat, radix: nat)
    requires radix >= 2 && 1 <= p <= p0 && mant % radix == 0
    requires Pow(radix, p - 1) <= mant < Pow(radix, p)
    ensures p >= 2 && Pow(radix, p - 2) <= mant / radix < Pow(radix, p - 1)
    ensures mant * Pow(radix, p0 - p) == mant / radix * Pow(radix, p0 - (p - 1))
  {
    var n := mant / radix;
    DivModEq(mant, radix);
    assert mant == n * radix;
    MulCancelLt(n, Pow(radix, p - 1), radix);
    if p >= 2 {
      MulCancelLe(Pow(radix, p - 2), n, radix);
    }
    MulAssoc(n, radix, Pow(radix, p0 - p));
  }
}
