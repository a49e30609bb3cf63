/** What the free-format search tries: the closest number of each length, when it
    reads back, and when nothing shorter can. */
module DigitSearch {
  import opened Arith
  import opened Limbs
  import opened Rounding
  import opened Reals
  import opened Tables
  import opened Scaling
  import opened Float64
  import opened Log2Radix
  import opened FreeFormat

  ghost function Distance(x: real, y: real): (d: real)
    ensures d >= 0.0
  {
    if x < y then y - x else x - y
  }

  lemma DecimalValue(mant: nat, radix: nat, k: int)
    requires radix > 0
    ensures Decimal(mant, radix, k) == (mant as real) * PowR(radix, k)
  {
    hide PowR;
    PowRZero(2);
  }

  lemma PowRInverse(radix: nat, k: int, n: int)
    requires radix > 0 && n == -k
    ensures PowR(radix, k) * PowR(radix, n) == 1.0
  {
    hide PowR;
    PowRInv(radix, k);
  }

  // ---- the unchecked first try -----------------------------------------------------

  /** A try is off by at most half a unit of its last digit. */
  lemma TryError(m: nat, e: int, radix: nat, e0: int, p: nat, mant: nat, e1: int, u: real, gi: real, y: real)
    requires radix >= 2 && p >= 1 && IsTry(m, e, radix, e0, p, mant, e1)
    requires u == PowR(2, e - 53) && gi == PowR(radix, e1 - p) && y == (mant as real) * gi
    ensures -gi <= 2.0 * (y - (m as real) * u) <= gi
  {
    hide PowR, RoundReal, Pow;
    var d, g := (m as real) * u, PowR(radix, p - e1);
    PowRPos(radix, p - e1);
    PowRPos(radix, e1 - p);
    PowRInverse(radix, p - e1, e1 - p);
    var x := Scaled(m, e - 53, radix, p - e1);
    RoundRealNearest(x, RNDN);
    BackError(d, g, gi, x, mant, y);
  }

  /** With DtoaMaxDigits digits the try always reads back. */
  lemma MostDigitsReadBack(m: nat, e: int, radix: nat, e0: int, p: nat, mant: nat, e1: int)
    requires IsDouble(m, e) && IsRadix(radix) && p == DtoaMaxDigits(radix) && p >= 1
    requires IsFloorLog(radix, e - 1, e0 - 1) && IsTry(m, e, radix, e0, p, mant, e1)
    ensures ReadsBack(mant, radix, e1 - p, m, e)
  {
    hide PowR, RoundReal, RoundToDouble, IsFloorLog, Pow, DtoaMaxDigits;
    MaxDigitsSuffice(radix);
    var u, gi := PowR(2, e - 53), PowR(radix, e1 - p);
    var y := (mant as real) * gi;
    DecimalValue(mant, radix, e1 - p);
    assert Decimal(mant, radix, e1 - p) == y;
    TryError(m, e, radix, e0, p, mant, e1, u, gi, y);
    if radix == 2 {
      BinaryTry(m, e, e0, p, mant, e1, u, gi, y);
    } else if e1 == e0 {
      DigitUnit(radix, e, e0, p, Pow(radix, p - 1), u, gi);
      MaxDigitsFirst(m, e, radix, u, gi, y);
    } else {
      RaisedTry(m, e, radix, e0, p, mant, e1, u, gi, y);
    }
  }

  lemma RaisedTry(m: nat, e: int, radix: nat, e0: int, p: nat, mant: nat, e1: int, u: real, gi2: real, y: real)
    requires IsDouble(m, e) && radix >= 2 && p >= 1 && Pow(radix, p - 1) > TWO53
    requires IsFloorLog(radix, e - 1, e0 - 1) && IsTry(m, e, radix, e0, p, mant, e1)
    requires e1 == e0 + 1 && u == PowR(2, e - 53) && gi2 == PowR(radix, e1 - p)
    requires -gi2 <= 2.0 * (y - (m as real) * u) <= gi2
    ensures y > 0.0 && RoundToDouble(y, RNDN) == (m, e)
  {
    hide PowR, RoundReal, RoundToDouble, IsFloorLog, Pow;
    var d, g, gi := (m as real) * u, PowR(radix, p - e0), PowR(radix, e0 - p);
    PowRPos(2, e - 53);
    PowRInverse(radix, p - e0, e0 - p);
    var x := Scaled(m, e - 53, radix, p - e0);
    var f := RoundReal(x, RNDN);
    RoundRealNearest(x, RNDN);
    DigitUnit(radix, e, e0, p, Pow(radix, p - 1), u, gi);
    SecondUnit(m, radix, e0, p, u, d, g, gi, x, f, gi2);
    CloseRoundsTo(m, e, u, y);
  }

  lemma BinaryTry(m: nat, e: int, e0: int, p: nat, mant: nat, e1: int, u: real, gi: real, y: real)
    requires IsDouble(m, e) && p == DtoaMaxDigits(2) && p >= 1
    requires IsFloorLog(2, e - 1, e0 - 1) && IsTry(m, e, 2, e0, p, mant, e1)
    requires u == PowR(2, e - 53) && gi == PowR(2, e1 - p) && y == (mant as real) * gi
    ensures y > 0.0 && RoundToDouble(y, RNDN) == (m, e)
  {
    hide PowR, RoundReal, RoundToDouble, IsFloorLog, Pow;
    assert p == 54;
    MaxDigitsBinary(m, e, e0, Scaled(m, e - 53, 2, 54 - e0));
    assert Pow(2, 54) == 2 * TWO53 by { TwoTo53(); PowStep(2, 53); }
    assert e1 == e0 && mant == 2 * m;
    PowRStep(2, e - 54);
    RMulSwap((m as real), 2.0, gi);
    assert y == (m as real) * u;
    PowRPos(2, e - 53);
    CloseRoundsTo(m, e, u, y);
  }

  lemma PowStep(b: nat, n: nat)
    ensures Pow(b, n + 1) == b * Pow(b, n)
  {
  }

  // ---- a try is the closest number of its length -------------------------------------

  lemma NearestInteger(x: real, f: int, n: int)
    requires f == RoundReal(x, RNDN)
    ensures Distance(f as real, x) <= Distance(n as real, x)
  {
    hide RoundReal;
    RoundRealNearest(x, RNDN);
    if Distance(n as real, x) < 0.5 { RoundRealIs(x, RNDN, n); }
  }

  lemma ScaleDistance(d: real, g: real, gi: real, x: real, f: real, n: real, y: real, z: real)
    requires gi > 0.0 && g * gi == 1.0 && x == d * g && Distance(f, x) <= Distance(n, x)
    requires y == f * gi && z == n * gi
    ensures Distance(y, d) <= Distance(z, d)
  {
    hide Distance;
    assert x * gi == d by { RAssoc(d, g, gi); }
    DistanceScaled(f, x, gi, y, d);
    DistanceScaled(n, x, gi, z, d);
    RMulMono(gi, Distance(f, x), Distance(n, x));
  }

  lemma DistanceScaled(f: real, x: real, gi: real, y: real, d: real)
    requires gi > 0.0 && y == f * gi && d == x * gi
    ensures Distance(y, d) == Distance(f, x) * gi
  {
    if f < x { RMulStrict(gi, f, x); } else { RMulMono(gi, x, f); }
    assert (x - f) * gi == d - y;
    assert (f - x) * gi == y - d;
  }

  /** Rounding at the exponent ex is closest among the multiples of the last
      digit's unit. */
  lemma GridNearest(d: real, radix: nat, ex: int, p: nat, x: real, f: int, gi: real, n: int, y: real)
    requires radix >= 2 && x == d * PowR(radix, p - ex) && f == RoundReal(x, RNDN)
    requires gi == PowR(radix, ex - p) && y == (n as real) * gi
    ensures Distance((f as real) * gi, d) <= Distance(y, d)
  {
    hide PowR, RoundReal, Distance;
    PowRPos(radix, ex - p);
    PowRInverse(radix, p - ex, ex - p);
    NearestInteger(x, f, n);
    ScaleDistance(d, PowR(radix, p - ex), gi, x, f as real, n as real, (f as real) * gi, y);
  }

  /** It is closest among all numbers of up to p digits, if d is at least
      radix^(ex - 1). */
  lemma GridClosest(d: real, radix: nat, ex: int, p: nat, x: real, f: int, gi: real, a: nat, k: int, y: real)
    requires radix >= 2 && p >= 1 && d >= PowR(radix, ex - 1)
    requires x == d * PowR(radix, p - ex) && f == RoundReal(x, RNDN)
    requires gi == PowR(radix, ex - p) && a < Pow(radix, p) && y == (a as real) * PowR(radix, k)
    ensures Distance((f as real) * gi, d) <= Distance(y, d)
  {
    hide PowR, RoundReal, Pow;
    if k >= ex - p {
      var n := a * Pow(radix, k - (ex - p));
      OnGrid(radix, a, k, ex - p, n, gi);
      GridNearest(d, radix, ex, p, x, f, gi, n, y);
    } else {
      var n, z := Pow(radix, p - 1), PowR(radix, ex - 1);
      PowRNat(radix, p - 1);
      PowRAdd(radix, p - 1, ex - p);
      GridNearest(d, radix, ex, p, x, f, gi, n, z);
      BelowGrid(radix, a, k, ex, p);
      assert Distance(z, d) <= Distance(y, d);
    }
  }

  lemma OnGrid(radix: nat, a: nat, k: int, j: int, n: nat, gi: real)
    requires radix > 0 && k >= j && n == a * Pow(radix, k - j) && gi == PowR(radix, j)
    ensures (n as real) * gi == (a as real) * PowR(radix, k)
  {
    hide PowR, Pow;
    RealProduct(a, Pow(radix, k - j));
    PowRNat(radix, k - j);
    PowRAdd(radix, k - j, j);
    RAssoc(a as real, PowR(radix, k - j), gi);
  }

  lemma BelowGrid(radix: nat, a: nat, k: int, ex: int, p: nat)
    requires radix > 0 && a < Pow(radix, p) && k < ex - p
    ensures (a as real) * PowR(radix, k) <= PowR(radix, ex - 1)
  {
    hide PowR, Pow;
    PowRPos(radix, k);
    PowRNat(radix, p);
    RMulMono(PowR(radix, k), a as real, PowR(radix, p));
    PowRAdd(radix, p, k);
    PowRMono(radix, p + k, ex - 1);
  }

  /** The number tried for p digits is at least as close to the double as any
      other number a * radix^k of up to p digits. */
  lemma TryIsClosest(m: nat, e: int, radix: nat, e0: int, p: nat, mant: nat, e1: int, a: nat, k: int)
    requires TWO52 <= m < TWO53 && radix >= 2 && p >= 1 && IsFloorLog(radix, e - 1, e0 - 1)
    requires IsTry(m, e, radix, e0, p, mant, e1) && a < Pow(radix, p)
    ensures Distance(Decimal(mant, radix, e1 - p), DoubleValue(m, e))
            <= Distance(Decimal(a, radix, k), DoubleValue(m, e))
  {
    hide PowR, RoundReal, Pow, Distance, Decimal;
    var u := PowR(2, e - 53);
    var d, gi := (m as real) * u, PowR(radix, e1 - p);
    var y := (a as real) * PowR(radix, k);
    var x := Scaled(m, e - 53, radix, p - e1);
    DecimalValue(mant, radix, e1 - p);
    DecimalValue(a, radix, k);
    assert Decimal(a, radix, k) == y && Decimal(mant, radix, e1 - p) == (mant as real) * gi;
    assert DoubleValue(m, e) == d;
    DoubleInBinade(m, e, u, d);
    if d >= PowR(radix, e1 - 1) {
      GridClosest(d, radix, e1, p, x, mant, gi, a, k, y);
    } else {
      JustBelow(d, radix, e0, p, Scaled(m, e - 53, radix, p - e0), x, mant, gi, a, k, y);
    }
  }

  /** The value rounds up to radix^e0 but lies below it. */
  lemma JustBelow(d: real, radix: nat, e0: int, p: nat, x0: real, x1: real, mant: int, g1: real, a: nat, k: int,
                  y: real)
    requires radix >= 2 && p >= 1 && a < Pow(radix, p) && y == (a as real) * PowR(radix, k)
    requires PowR(radix, e0 - 1) <= d < PowR(radix, e0)
    requires x0 == d * PowR(radix, p - e0) && RoundReal(x0, RNDN) >= Pow(radix, p)
    requires x1 == d * PowR(radix, p - (e0 + 1)) && mant == RoundReal(x1, RNDN)
    requires g1 == PowR(radix, e0 + 1 - p)
    ensures Distance((mant as real) * g1, d) <= Distance(y, d)
  {
    hide PowR, RoundReal, Pow, Distance;
    var f, g0, z := RoundReal(x0, RNDN), PowR(radix, e0 - p), PowR(radix, e0);
    RoundsToTop(d, radix, e0, p, x0);
    GridClosest(d, radix, e0, p, x0, f, g0, a, k, y);
    assert (f as real) * g0 == z by {
      PowRNat(radix, p);
      PowRAdd(radix, p, e0 - p);
    }
    assert (Pow(radix, p - 1) as real) * g1 == z by {
      PowRNat(radix, p - 1);
      PowRAdd(radix, p - 1, e0 + 1 - p);
    }
    GridNearest(d, radix, e0 + 1, p, x1, mant, g1, Pow(radix, p - 1), z);
  }

  lemma RoundsToTop(d: real, radix: nat, e0: int, p: nat, x0: real)
    requires radix >= 2 && d < PowR(radix, e0) && x0 == d * PowR(radix, p - e0)
    requires RoundReal(x0, RNDN) >= Pow(radix, p)
    ensures RoundReal(x0, RNDN) == Pow(radix, p)
  {
    hide PowR, RoundReal, Pow;
    PowRPos(radix, p - e0);
    RMulStrict(PowR(radix, p - e0), d, PowR(radix, e0));
    PowRAdd(radix, e0, p - e0);
    PowRNat(radix, p);
    RoundRealMono(x0, PowR(radix, p), RNDN);
    RoundRealInt(Pow(radix, p), RNDN);
  }

  // ---- whatever is closer to a double reads back too ----------------------------------

  /** The floats on both sides of (m, e) are equally far away. */
  predicate Symmetric(m: nat, e: int)
  {
    m != TWO52 || e <= E_MIN
  }

  lemma CloserRounds(x: real, z: real, n: int)
    requires RoundReal(x, RNDN) == n && Distance(z, n as real) <= Distance(x, n as real)
    ensures RoundReal(z, RNDN) == n
  {
  }

  /** The mantissa a number rounds to in its own binade. */
  lemma BinadeMantissa(y: real, b: int, w: real) returns (n: nat)
    requires y > 0.0 && InBinade(y, b) && w == y * PowR(2, Precision(b) - b)
    ensures RoundReal(w, RNDN) == n && n * Pow(2, 53 - Precision(b)) <= TWO53
    ensures RoundToDouble(y, RNDN) == Normalize53(n, Precision(b), b)
  {
    hide PowR, RoundReal, Pow, Normalize53, RoundToDouble, InBinade;
    var pb := Precision(b);
    BinadeScale(y, b, pb, PowR(2, pb - b), w);
    PowRPos(2, pb - 1);
    RoundRealMono(0.0, w, RNDN);
    RoundRealInt(0, RNDN);
    n := RoundReal(w, RNDN);
    RoundedBelow(w, pb, RNDN);
    ShiftedMantissa(n, pb);
    RoundToDoubleIs(y, b, w, RNDN, n);
  }

  /** A number that reads back as (m, e) rounds to its mantissa at its binade's
      spacing. */
  lemma MantissaRead(m: nat, e: int, y: real, c: real) returns (n: nat)
    requires IsDouble(m, e) && Symmetric(m, e) && y > 0.0 && RoundToDouble(y, RNDN) == (m, e)
    requires c == PowR(2, Precision(e) - e)
    ensures n * Pow(2, 53 - Precision(e)) == m && RoundReal(y * c, RNDN) == n
  {
    hide PowR, RoundReal, Pow, Normalize53, RoundToDouble, InBinade;
    var b := Binade(y);
    var w := y * PowR(2, Precision(b) - b);
    n := BinadeMantissa(y, b, w);
    SameSpacing(m, e, b, n);
    assert PowR(2, Precision(b) - b) == c;
    assert w == y * c;
  }

  /** A mantissa rounded up into the next binade keeps its spacing below the
      normal range. */
  lemma SameSpacing(m: nat, e: int, b: int, n: nat)
    requires Symmetric(m, e) && Normalize53(n, Precision(b), b) == (m, e)
    requires n * Pow(2, 53 - Precision(b)) <= TWO53
    ensures Precision(b) - b == Precision(e) - e
    ensures n * Pow(2, 53 - Precision(e)) == m
  {
    hide Pow;
    if n * Pow(2, 53 - Precision(b)) >= TWO53 {
      var t := Pow(2, 53 - Precision(e));
      PowStep(2, 53 - Precision(e));
      assert n * (2 * t) == TWO53;
      MulSwap3(n, 2, t);
      MulAssoc(n, 2, t);
    }
  }

  /** A binade, measured in its spacing. */
  lemma BinadeScale(y: real, b: int, prec: int, c: real, w: real)
    requires c == PowR(2, prec - b) && w == y * c
    ensures InBinade(y, b) <==> PowR(2, prec - 1) <= w < PowR(2, prec)
  {
    hide PowR;
    PowRPos(2, prec - b);
    PowRAdd(2, b - 1, prec - b);
    PowRAdd(2, b, prec - b);
    if y < PowR(2, b - 1) { RMulStrict(c, y, PowR(2, b - 1)); } else { RMulMono(c, PowR(2, b - 1), y); }
    if y < PowR(2, b) { RMulStrict(c, y, PowR(2, b)); } else { RMulMono(c, PowR(2, b), y); }
  }

  /** The converse. */
  lemma MantissaReads(m: nat, e: int, n: nat, z: real, c: real, w: real)
    requires IsDouble(m, e) && Symmetric(m, e) && z > 0.0
    requires c == PowR(2, Precision(e) - e) && w == z * c
    requires n * Pow(2, 53 - Precision(e)) == m && RoundReal(w, RNDN) == n
    ensures RoundToDouble(z, RNDN) == (m, e)
  {
    hide PowR, RoundReal, RoundToDouble, Pow;
    var prec := Precision(e);
    MantissaRange(m, n, prec);
    RoundRealNearest(w, RNDN);
    PowRNat(2, prec);
    PowRNat(2, prec - 1);
    BinadeScale(z, e, prec, c, w);
    if w >= PowR(2, prec - 1) {
      RoundToDoubleIs(z, e, w, RNDN, n);
    } else {
      assert n == Pow(2, prec - 1);
      MantissaReadsBelow(m, e, n, z, c, w);
    }
  }

  /** Just below a power of two under the normal range. */
  lemma MantissaReadsBelow(m: nat, e: int, n: nat, z: real, c: real, w: real)
    requires IsDouble(m, e) && Symmetric(m, e) && z > 0.0
    requires c == PowR(2, Precision(e) - e) && w == z * c
    requires n * Pow(2, 53 - Precision(e)) == m && RoundReal(w, RNDN) == n
    requires n == Pow(2, Precision(e) - 1) && n as real - 0.5 <= w < PowR(2, Precision(e) - 1)
    ensures RoundToDouble(z, RNDN) == (m, e)
  {
    hide PowR, RoundReal, RoundToDouble, Pow, Normalize53;
    var prec := Precision(e);
    PowRNat(2, prec - 1);
    PowAdd(2, prec - 1, 53 - prec);
    PowHalf52();
    assert m == TWO52;
    PowRStep(2, prec - 2);
    BinadeScale(z, e - 1, prec - 1, c, w);
    RoundToDoubleIs(z, e - 1, w, RNDN, n);
    CarryOver(n, prec, e, m);
  }

  lemma CarryOver(n: nat, prec: int, e: int, m: nat)
    requires prec <= 53 && n * Pow(2, 53 - prec) == m == TWO52
    ensures Normalize53(n, prec - 1, e - 1) == (TWO52, e)
  {
    hide Pow;
    PowStep(2, 53 - prec);
    MulSwap3(n, 2, Pow(2, 53 - prec));
    MulAssoc(n, 2, Pow(2, 53 - prec));
  }

  lemma PowHalf52()
    ensures Pow(2, 52) == TWO52
  {
    hide Pow;
    TwoTo53();
    PowStep(2, 52);
  }

  lemma MantissaRange(m: nat, n: nat, prec: int)
    requires TWO52 <= m < TWO53 && 1 <= prec <= 53 && n * Pow(2, 53 - prec) == m
    ensures Pow(2, prec - 1) <= n < Pow(2, prec)
  {
    hide Pow;
    var t := Pow(2, 53 - prec);
    PowAdd(2, prec, 53 - prec);
    PowAdd(2, prec - 1, 53 - prec);
    TwoTo53();
    PowHalf52();
    MulCancelLt(n, Pow(2, prec), t);
    MulCancelLe(Pow(2, prec - 1), n, t);
  }

  /** Whatever is as close to the double as some number that reads back reads
      back too. */
  lemma CloserReadsBack(m: nat, e: int, y: real, z: real)
    requires IsDouble(m, e) && Symmetric(m, e) && y > 0.0 && RoundToDouble(y, RNDN) == (m, e)
    requires z > 0.0 && Distance(z, DoubleValue(m, e)) <= Distance(y, DoubleValue(m, e))
    ensures RoundToDouble(z, RNDN) == (m, e)
  {
    hide PowR, RoundReal, RoundToDouble, Pow, Distance;
    var prec, d := Precision(e), DoubleValue(m, e);
    var c, u, t := PowR(2, prec - e), PowR(2, e - 53), PowR(2, prec - 53);
    var n := MantissaRead(m, e, y, c);
    PowRPos(2, prec - e);
    assert d * c == n as real by {
      var n' := MantissaAtPrecision(m, e, prec, t);
      MulCancelEq(n, n', Pow(2, 53 - prec));
      PowRAdd(2, e - 53, prec - e);
      RAssoc(m as real, u, c);
    }
    DistanceScaled(z, d, c, z * c, n as real);
    DistanceScaled(y, d, c, y * c, n as real);
    RMulMono(c, Distance(z, d), Distance(y, d));
    CloserRounds(y * c, z * c, n);
    MantissaReads(m, e, n, z, c, z * c);
  }

  // ---- the search ----------------------------------------------------------------------

  /** mant * radix^k is as close to the double as any number of up to p digits. */
  ghost predicate ClosestOf(mant: nat, radix: nat, k: int, p: nat, m: nat, e: int)
    requires radix > 0
  {
    forall a: nat, j: int :: a < Pow(radix, p) ==>
      Distance(Decimal(mant, radix, k), DoubleValue(m, e)) <= Distance(Decimal(a, radix, j), DoubleValue(m, e))
  }

  /** No number of up to p digits reads back as the double. */
  ghost predicate NoneReadsBack(radix: nat, p: nat, m: nat, e: int)
    requires radix > 0
  {
    forall a: nat, j: int :: a < Pow(radix, p) ==> !ReadsBack(a, radix, j, m, e)
  }

  /** A result of the search: p digits without a trailing zero. */
  ghost predicate IsFound(m: nat, e: int, radix: nat, mant: nat, p: nat, e1: int)
    requires IsRadix(radix)
  {
    && 1 <= p <= DtoaMaxDigits(radix)
    && Pow(radix, p - 1) <= mant < Pow(radix, p) && mant % radix != 0
    && ReadsBack(mant, radix, e1 - p, m, e)
    && ClosestOf(mant, radix, e1 - p, p, m, e)
  }

  lemma StrippedValue(mant0: nat, p0: nat, mant: nat, p: nat, radix: nat, e1: int)
    requires radix > 0 && p <= p0 && mant0 == mant * Pow(radix, p0 - p)
    ensures Decimal(mant0, radix, e1 - p0) == Decimal(mant, radix, e1 - p)
  {
    hide PowR, Pow;
    DecimalValue(mant0, radix, e1 - p0);
    DecimalValue(mant, radix, e1 - p);
    OnGrid(radix, mant, e1 - p, e1 - p0, mant0, PowR(radix, e1 - p0));
  }

  lemma TryFound(m: nat, e: int, radix: nat, e0: int, p0: nat, mant0: nat, e1: int, mant: nat, p: nat)
    requires TWO52 <= m < TWO53 && IsRadix(radix) && 1 <= p <= p0 <= DtoaMaxDigits(radix)
    requires IsFloorLog(radix, e - 1, e0 - 1) && IsTry(m, e, radix, e0, p0, mant0, e1)
    requires Pow(radix, p - 1) <= mant < Pow(radix, p) && mant % radix != 0
    requires mant0 == mant * Pow(radix, p0 - p)
    requires ReadsBack(mant, radix, e1 - p, m, e)
    ensures IsFound(m, e, radix, mant, p, e1)
  {
    hide ReadsBack, Distance, Decimal, IsTry, IsFloorLog, DoubleValue, DtoaMaxDigits;
    StrippedValue(mant0, p0, mant, p, radix, e1);
    PowMonoExp(radix, p, p0);
    forall a: nat, j: int | a < Pow(radix, p)
      ensures Distance(Decimal(mant, radix, e1 - p), DoubleValue(m, e))
              <= Distance(Decimal(a, radix, j), DoubleValue(m, e))
    {
      TryIsClosest(m, e, radix, e0, p0, mant0, e1, a, j);
    }
  }

  /** When the closest number of p digits does not read back, none does. */
  lemma NoShorter(m: nat, e: int, radix: nat, e0: int, p: nat, mant: nat, e1: int)
    requires IsDouble(m, e) && IsRadix(radix) && p >= 1 && IsFloorLog(radix, e - 1, e0 - 1)
    requires IsTry(m, e, radix, e0, p, mant, e1) && !ReadsBack(mant, radix, e1 - p, m, e)
    requires Symmetric(m, e)
    ensures NoneReadsBack(radix, p, m, e)
  {
    hide Distance, Decimal, IsFloorLog, DoubleValue, RoundToDouble;
    forall a: nat, j: int | a < Pow(radix, p)
      ensures !ReadsBack(a, radix, j, m, e)
    {
      if ReadsBack(a, radix, j, m, e) {
        TryIsClosest(m, e, radix, e0, p, mant, e1, a, j);
        TryPositive(m, e, radix, e0, p, mant, e1);
        CloserReadsBack(m, e, Decimal(a, radix, j), Decimal(mant, radix, e1 - p));
      }
    }
  }

  lemma TryPositive(m: nat, e: int, radix: nat, e0: int, p: nat, mant: nat, e1: int)
    requires radix >= 2 && p >= 1 && IsTry(m, e, radix, e0, p, mant, e1)
    ensures Decimal(mant, radix, e1 - p) > 0.0
  {
    hide PowR, RoundReal;
    DecimalValue(mant, radix, e1 - p);
    PowRPos(radix, e1 - p);
    PowMonoExp(radix, 0, p - 1);
    RMulStrict(PowR(radix, e1 - p), 0.0, mant as real);
  }

  lemma NoDigits(m: nat, e: int, radix: nat)
    requires radix > 0
    ensures NoneReadsBack(radix, 0, m, e)
  {
    forall a: nat, j: int | a < Pow(radix, 0)
      ensures !ReadsBack(a, radix, j, m, e)
    {
      DecimalValue(a, radix, j);
    }
  }

  lemma EstimateIsFloor(m: nat, e: int, radix: nat)
    requires IsDouble(m, e) && IsRadix(radix)
    ensures TWO52 <= m < TWO53 && IsFloorLog(radix, e - 1, MulLog2Radix(e - 1, radix))
  {
    MulLog2RadixIsFloor(e - 1, radix);
  }

  lemma TryRange(m: nat, e: int, radix: nat, e0: int, p: nat, mant: nat, e1: int)
    requires radix > 0 && p >= 1 && IsTry(m, e, radix, e0, p, mant, e1)
    ensures Pow(radix, p - 1) <= mant < Pow(radix, p)
  {
  }

  lemma StrippedReads(mant0: nat, p0: nat, mant: nat, p: nat, radix: nat, e1: int, m: nat, e: int)
    requires radix > 0 && p <= p0 && mant0 == mant * Pow(radix, p0 - p)
    ensures ReadsBack(mant0, radix, e1 - p0, m, e) == ReadsBack(mant, radix, e1 - p, m, e)
  {
    hide RoundToDouble, Decimal;
    StrippedValue(mant0, p0, mant, p, radix, e1);
  }

  lemma MantissaFits(radix: nat, p: nat, mant: nat)
    requires IsRadix(radix) && 1 <= p <= DtoaMaxDigits(radix) && Pow(radix, p - 1) <= mant < Pow(radix, p)
    ensures 0 < mant < BASE2
  {
    MantissasFit(radix, p);
  }

  lemma ReadsBackIs(mant: nat, radix: nat, k: int, m: nat, e: int, m1: nat, e1: int)
    requires radix > 0 && Scaled(mant, 0, radix, k) > 0.0
    requires (m1, e1) == RoundToDouble(Scaled(mant, 0, radix, k), RNDN)
    ensures ReadsBack(mant, radix, k, m, e) <==> m1 == m && e1 == e
  {
  }
}
