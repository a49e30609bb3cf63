/** The 64-bit pattern of a nonnegative float64, as js_dtoa takes it apart and
    js_atod puts it together. */
module Bits {
  import opened Arith
  import opened Limbs
  import opened Rounding
  import opened Reals
  import opened Tables
  import opened Float64
  import opened FreeFormat
  import opened DigitSearch

  const INFINITY: nat := 0x7ff0_0000_0000_0000

  /** The end of js_atod: (m, e) as a bit pattern, with overflow, underflow and
      subnormals. */
  function Float64Bits(m: nat, e: int): nat
  {
    if m == 0 then 0
    else if e > 1024 then INFINITY
    else if e < -1073 then 0
    else if e < E_MIN then m / Pow(2, E_MIN - e)
    else (e + 1022) * TWO52 + m % TWO52
  }

  /** The start of js_dtoa: the normalized pair of a finite nonzero pattern. */
  function Decompose(a: nat): (nat, int)
    requires 0 < a < INFINITY
  {
    var e, m := a / TWO52, a % TWO52;
    if e == 0 then
      var l := 52 - Log2(m) as int;
      SubnormalShift(m);
      (m * Pow(2, l), 1 - l - 1022)
    else
      (m + TWO52, e - 1022)
  }

  lemma SubnormalShift(m: nat)
    requires 0 < m < TWO52
    ensures Log2(m) <= 51
  {
    PowHalf52();
    if Log2(m) >= 52 { PowMonoExp(2, 52, Log2(m)); }
  }

  /** js_dtoa's pair is a normalized double, and its pattern is the one taken
      apart. */
  lemma DecomposeInverse(a: nat)
    requires 0 < a < INFINITY
    ensures IsDouble(Decompose(a).0, Decompose(a).1)
    ensures Float64Bits(Decompose(a).0, Decompose(a).1) == a
  {
    hide Pow, Log2;
    var e, m := a / TWO52, a % TWO52;
    if e == 0 {
      SubnormalShift(m);
      SubnormalPair(m, Log2(m));
    } else {
      assert (m + TWO52) % TWO52 == m;
    }
  }

  lemma SubnormalPair(m: nat, t: nat)
    requires 0 < m && t <= 51 && Pow(2, t) <= m < Pow(2, t + 1)
    ensures var (m', e) := (m * Pow(2, 52 - t), t - 1073);
            IsDouble(m', e) && Float64Bits(m', e) == m
  {
    hide Pow;
    var p := Pow(2, 52 - t);
    PowAdd(2, t, 52 - t);
    PowAdd(2, t + 1, 52 - t);
    PowHalf52();
    TwoTo53();
    MulMono(Pow(2, t), m, p);
    MulStrict(m, Pow(2, t + 1), p);
    assert E_MIN - (t - 1073) == 52 - t;
    DivModUnique(m * p, p, m, 0);
  }

  /** Different doubles have different patterns. */
  lemma BitsInverse(m: nat, e: int)
    requires IsDouble(m, e)
    ensures 0 < Float64Bits(m, e) < INFINITY && Decompose(Float64Bits(m, e)) == (m, e)
  {
    hide Pow, Log2;
    if e < E_MIN {
      SubnormalBits(m, e);
    } else {
      var a := (e + 1022) * TWO52 + m % TWO52;
      assert a / TWO52 == e + 1022 && a % TWO52 == m - TWO52;
    }
  }

  lemma SubnormalBits(m: nat, e: int)
    requires IsDouble(m, e) && e < E_MIN
    ensures 0 < Float64Bits(m, e) < TWO52 && Decompose(Float64Bits(m, e)) == (m, e)
  {
    hide Pow, Log2;
    var k := E_MIN - e;
    var p := Pow(2, k);
    var n := m / p;
    DivModEq(m, p);
    assert n * p == m;
    PowAdd(2, 52 - k, k);
    PowAdd(2, 53 - k, k);
    PowHalf52();
    TwoTo53();
    MulCancelLe(Pow(2, 52 - k), n, p);
    MulCancelLt(n, Pow(2, 53 - k), p);
    PowMonoExp(2, 53 - k, 52);
    Log2Unique(n, 52 - k);
    SubnormalShift(n);
  }

  // ---- what a pattern stands for --------------------------------------------------------

  /** The value of a finite pattern, as section 3.4 of IEEE 754 gives it: the low 52 bits
      are the fraction, with a hidden bit unless the exponent field is zero. */
  ghost function PatternValue(a: nat): real
  {
    var e, f := a / TWO52, a % TWO52;
    if e == 0 then (f as real) * PowR(2, -1074) else ((TWO52 + f) as real) * PowR(2, e - 1075)
  }

  /** js_dtoa takes a pattern apart into its value. */
  lemma DecomposeValue(a: nat)
    requires 0 < a < INFINITY
    ensures DoubleValue(Decompose(a).0, Decompose(a).1) == PatternValue(a)
  {
    hide Pow, PowR, Log2;
    var e, m := a / TWO52, a % TWO52;
    if e == 0 {
      SubnormalShift(m);
      var l := 52 - Log2(m);
      PowRNat(2, l);
      RealProduct(m, Pow(2, l));
      PowRAdd(2, l, -1074 - l);
      RAssoc(m as real, PowR(2, l), PowR(2, -1074 - l));
    }
  }

  lemma PatternParts(a: nat, e: nat, f: nat)
    requires a == e * TWO52 + f && f < TWO52
    ensures e == 0 ==> PatternValue(a) == (f as real) * PowR(2, -1074)
    ensures e > 0 ==> PatternValue(a) == ((TWO52 + f) as real) * PowR(2, e - 1075)
  {
    hide PowR;
    DivModUnique(a, TWO52, e, f);
  }

  /** The last pattern of an exponent, and the first of the next. */
  lemma NextExponent(e: nat)
    ensures PowR(2, -1074) > 0.0 && PowR(2, e - 1075) > 0.0
    ensures e > 0 ==> PowR(2, e - 1074) == 2.0 * PowR(2, e - 1075)
  {
    hide PowR;
    PowRPos(2, -1074);
    PowRPos(2, e - 1075);
    PowRStep(2, e - 1075);
  }

  lemma NextPattern(a: nat)
    ensures PatternValue(a) < PatternValue(a + 1)
  {
    hide PowR, PatternValue;
    var e, f := a / TWO52, a % TWO52;
    var unit := if e == 0 then PowR(2, -1074) else PowR(2, e - 1075);
    NextExponent(e);
    PatternParts(a, e, f);
    if f + 1 < TWO52 {
      PatternParts(a + 1, e, f + 1);
      RMulStrict(unit, f as real, (f + 1) as real);
      RMulStrict(unit, (TWO52 + f) as real, (TWO52 + f + 1) as real);
    } else {
      PatternParts(a + 1, e + 1, 0);
      RMulStrict(unit, f as real, TWO52 as real);
      RMulStrict(unit, (TWO52 + f) as real, (TWO52 + TWO52) as real);
    }
  }

  /** Patterns are ordered as their values. */
  lemma {:induction false} PatternOrder(a: nat, b: nat)
    requires a < b
    ensures PatternValue(a) < PatternValue(b)
    decreases b - a
  {
    hide PatternValue;
    NextPattern(b - 1);
    if a == b - 1 {
    } else {
      PatternOrder(a, b - 1);
    }
  }

  /** js_atod puts a double together as the pattern of its value. */
  lemma BitsValue(m: nat, e: int)
    requires IsDouble(m, e)
    ensures PatternValue(Float64Bits(m, e)) == DoubleValue(m, e)
  {
    hide Decompose, Float64Bits, PatternValue, IsDouble;
    BitsInverse(m, e);
    DecomposeValue(Float64Bits(m, e));
  }

  // ---- the pattern of a rounded number ---------------------------------------------------

  /** The pattern of the double nearest to y, ties to even, overflowing to
      infinity. */
  ghost function NearestBits(y: real): nat
  {
    if y <= 0.0 then 0 else var (m, e) := RoundToDouble(y, RNDN); Float64Bits(m, e)
  }

  lemma NearestOf(y: real, m: nat, e: int)
    requires y > 0.0 && RoundToDouble(y, RNDN) == (m, e)
    ensures NearestBits(y) == Float64Bits(m, e)
  {
  }

  lemma Overflows(y: real)
    requires y >= PowR(2, 1024)
    ensures NearestBits(y) == INFINITY
  {
    hide PowR, RoundToDouble, Pow, RoundReal;
    PowRPos(2, 1024);
    var b := Binade(y);
    if b < 1025 { PowRMono(2, b, 1024); }
    var w := y * PowR(2, Precision(b) - b);
    BinadeScale(y, b, 53, PowR(2, 53 - b), w);
    PowRNat(2, 52);
    var n := BinadeMantissa(y, b, w);
    RoundRealMono(PowR(2, 52), w, RNDN);
    RoundRealInt(Pow(2, 52), RNDN);
    PowHalf52();
    assert Pow(2, 53 - Precision(b)) == 1 by { PowOneAt(53 - Precision(b)); }
  }

  lemma PowOneAt(k: nat)
    requires k == 0
    ensures Pow(2, k) == 1
  {
  }

  lemma Underflows(y: real)
    requires y <= PowR(2, -1075)
    ensures NearestBits(y) == 0
  {
    hide PowR, RoundToDouble, Pow, RoundReal;
    if y > 0.0 {
      var b := Binade(y);
      if b > -1074 { PowRStrict(2, -1075, b - 1); }
      var w := y * PowR(2, Precision(b) - b);
      var n := BinadeMantissa(y, b, w);
      PowRPos(2, Precision(b) - b);
      RMulMono(PowR(2, Precision(b) - b), y, PowR(2, -1075));
      PowRAdd(2, -1075, Precision(b) - b);
      assert w <= PowR(2, -1);
      RMulStrict(PowR(2, Precision(b) - b), 0.0, y);
      HalfRoundsDown(w);
    }
  }

  lemma HalfRoundsDown(w: real)
    requires 0.0 < w <= PowR(2, -1)
    ensures RoundReal(w, RNDN) == 0
  {
  }

  // ---- no other double is nearer -----------------------------------------------------------

  /** The rounded mantissa counts spacings of the binade of y. */
  lemma NormalizedValue(n: nat, b: int, m: nat, e: int, gi: real)
    requires Normalize53(n, Precision(b), b) == (m, e) && n * Pow(2, 53 - Precision(b)) <= TWO53
    requires gi == PowR(2, b - Precision(b))
    ensures DoubleValue(m, e) == (n as real) * gi
  {
    hide PowR, Pow;
    var k, prec := 53 - Precision(b), Precision(b);
    var m0 := n * Pow(2, k);
    RealProduct(n, Pow(2, k));
    PowRNat(2, k);
    PowRAdd(2, k, b - 53);
    RAssoc(n as real, PowR(2, k), PowR(2, b - 53));
    assert (m0 as real) * PowR(2, b - 53) == (n as real) * gi;
    if m0 >= TWO53 {
      PowRStep(2, b - 53);
      assert m0 as real == 2.0 * (m as real);
      HalfTwice(m as real, PowR(2, b - 53));
    }
  }

  lemma HalfTwice(m: real, q: real)
    ensures (2.0 * m) * q == m * (2.0 * q)
  {
  }

  /** Doubles at or above the binade b are multiples of its spacing. */
  lemma OnSpacing(m: nat, e: int, b: int, gi: real) returns (k: nat)
    requires IsDouble(m, e) && e >= b && gi == PowR(2, b - Precision(b))
    ensures DoubleValue(m, e) == (k as real) * gi
  {
    hide PowR, Pow;
    var prec := Precision(e);
    var n := MantissaAtPrecision(m, e, prec, PowR(2, prec - 53));
    var j := (e - prec) - (b - Precision(b));
    k := n * Pow(2, j);
    RealProduct(n, Pow(2, j));
    PowRNat(2, j);
    PowRAdd(2, j, b - Precision(b));
    RAssoc(n as real, PowR(2, j), gi);
    PowRAdd(2, prec - 53, e - prec);
    assert PowR(2, prec - 53) * PowR(2, e - prec) == PowR(2, e - 53) by {
      assert prec - 53 + (e - prec) == e - 53;
    }
    UndoPrecision(m, n, prec, e);
  }

  lemma UndoPrecision(m: nat, n: nat, prec: int, e: int)
    requires n as real == (m as real) * PowR(2, prec - 53)
    ensures DoubleValue(m, e) == (n as real) * PowR(2, e - prec)
  {
    hide PowR;
    PowRAdd(2, prec - 53, e - prec);
    RAssoc(m as real, PowR(2, prec - 53), PowR(2, e - prec));
  }

  /** No double is closer to y than the one it rounds to. */
  lemma RoundToDoubleNearest(y: real, m: nat, e: int, m': nat, e': int)
    requires y > 0.0 && RoundToDouble(y, RNDN) == (m, e) && IsDouble(m', e')
    ensures Distance(DoubleValue(m, e), y) <= Distance(DoubleValue(m', e'), y)
  {
    hide PowR, Pow, RoundReal, RoundToDouble, IsDouble, DoubleValue, Normalize53;
    var b := Binade(y);
    var prec := Precision(b);
    var c, gi := PowR(2, prec - b), PowR(2, b - prec);
    var w := y * c;
    PowRPos(2, b - prec);
    PowRInverse(2, prec - b, b - prec);
    var n := BinadeMantissa(y, b, w);
    NormalizedValue(n, b, m, e, gi);
    if e' >= b {
      var k := OnSpacing(m', e', b, gi);
      NearestInteger(w, n, k);
      ScaleDistance(y, c, gi, w, n as real, k as real, DoubleValue(m, e), DoubleValue(m', e'));
    } else {
      BelowBinade(m', e', b);
      var k := Pow(2, prec - 1);
      NearestInteger(w, n, k);
      PowRNat(2, prec - 1);
      PowRAdd(2, prec - 1, b - prec);
      ScaleDistance(y, c, gi, w, n as real, k as real, DoubleValue(m, e), PowR(2, b - 1));
    }
  }

  lemma BelowBinade(m: nat, e: int, b: int)
    requires IsDouble(m, e) && e < b
    ensures Precision(b) >= 1 && DoubleValue(m, e) <= PowR(2, b - 1)
  {
    hide PowR, Pow;
    DoubleInBinade(m, e, PowR(2, e - 53), DoubleValue(m, e));
    PowRMono(2, e, b - 1);
  }

  // ---- the nearest pattern -------------------------------------------------------------------

  lemma PowerIsDouble(e: int)
    requires -1073 <= e <= 1024
    ensures IsDouble(TWO52, e)
  {
    hide Pow;
    if e < E_MIN {
      var k := E_MIN - e;
      PowHalf52();
      PowAdd(2, 52 - k, k);
      DivModUnique(TWO52, Pow(2, k), Pow(2, 52 - k), 0);
    }
  }

  /** A mantissa of the precision of its binade is a double, after a carry or not. */
  lemma MantissaIsDouble(n: nat, b: int, prec: int, m: nat, e: int)
    requires prec == Precision(b) && 1 <= prec && Pow(2, prec - 1) <= n && n * Pow(2, 53 - prec) <= TWO53
    requires (m, e) == Normalize53(n, prec, b) && e <= 1024
    ensures IsDouble(m, e)
  {
    hide Pow;
    var q := Pow(2, 53 - prec);
    PowAdd(2, prec - 1, 53 - prec);
    PowHalf52();
    MulMono(Pow(2, prec - 1), n, q);
    if n * q >= TWO53 {
      PowerIsDouble(e);
    } else {
      DivModUnique(m, q, n, 0);
    }
  }

  lemma TinyMantissa(w: real, prec: int, n: nat)
    requires prec <= 0 && 0.0 <= w < PowR(2, prec) && n == RoundReal(w, RNDN)
    ensures n <= 1 && (prec < 0 ==> n == 0)
  {
    hide PowR;
    PowRZero(2);
    PowRMono(2, prec, 0);
    if prec < 0 {
      PowRMono(2, prec, -1);
      PowRHalf();
    }
  }

  /** Rounding gives zero, a double, or an exponent too large. */
  lemma RoundedIsDouble(y: real, m: nat, e: int)
    requires y > 0.0 && RoundToDouble(y, RNDN) == (m, e) && m > 0 && e <= 1024
    ensures IsDouble(m, e)
  {
    hide PowR, Pow, RoundReal, RoundToDouble, IsDouble;
    var b := Binade(y);
    var prec := Precision(b);
    var w := y * PowR(2, prec - b);
    var n := BinadeMantissa(y, b, w);
    BinadeScale(y, b, prec, PowR(2, prec - b), w);
    if prec >= 1 {
      PowRNat(2, prec - 1);
      RoundRealMono(PowR(2, prec - 1), w, RNDN);
      RoundRealInt(Pow(2, prec - 1), RNDN);
      MantissaIsDouble(n, b, prec, m, e);
    } else {
      PowRPos(2, prec - 1);
      TinyMantissa(w, prec, n);
      assert n == 0 ==> m == 0;
      TwoTo53();
      PowerIsDouble(-1073);
    }
  }

  /** NearestBits is the pattern of a value closest to y, whenever that is finite and not
      zero. */
  lemma NearestPattern(y: real, b: nat)
    requires 0 < NearestBits(y) < INFINITY && 0 < b < INFINITY
    ensures Distance(PatternValue(NearestBits(y)), y) <= Distance(PatternValue(b), y)
  {
    hide PatternValue, Decompose, IsDouble, RoundToDouble, DoubleValue, Distance;
    var (m, e) := RoundToDouble(y, RNDN);
    RoundedIsDouble(y, m, e);
    BitsValue(m, e);
    DecomposeInverse(b);
    DecomposeValue(b);
    RoundToDoubleNearest(y, m, e, Decompose(b).0, Decompose(b).1);
  }
}
