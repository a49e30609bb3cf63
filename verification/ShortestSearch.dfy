/** The free-format search as a whole: what it prints reads back, and exactly when it
    is the shortest number that does. */
module ShortestSearch {
  import opened Arith
  import opened Rounding
  import opened Reals
  import opened Bignum
  import opened Tables
  import opened Scaling
  import opened Float64
  import opened Log2Radix
  import opened FreeFormat
  import opened DigitSearch

  // ---- around a power of two ---------------------------------------------------------------

  /** A number at or above a power of two that reads back as it. */
  lemma ReadsAbove(e: int, y: real, d: real, u: real)
    requires e > E_MIN && u == PowR(2, e - 53) && d == (TWO52 as real) * u
    requires y >= d && y > 0.0 && RoundToDouble(y, RNDN) == (TWO52, e)
    ensures 2.0 * (y - d) <= u
  {
    hide PowR, RoundReal, Pow, RoundToDouble;
    var b := Binade(y);
    var w := y * PowR(2, Precision(b) - b);
    PowerBinade(e, y, d, u, b);
    var n := BinadeMantissa(y, b, w);
    UnitPower();
    assert n == TWO52 && b == e;
    RoundRealNearest(w, RNDN);
    BackToUnit(y, w, u, PowR(2, 53 - e), e, TWO52);
  }

  lemma UnitPower()
    ensures Pow(2, 0) == 1
  {
  }

  lemma PowerBinade(e: int, y: real, d: real, u: real, b: int)
    requires e > E_MIN && u == PowR(2, e - 53) && d == (TWO52 as real) * u && y > 0.0 && InBinade(y, b)
    ensures d == PowR(2, e - 1) && (y >= d ==> b >= e) && (y < d ==> b < e)
  {
    hide PowR;
    UlpPowers(e, u);
    if y >= d && b < e { PowRMono(2, b, e - 1); }
    if y < d && b >= e { PowRMono(2, e - 1, b - 1); }
  }

  lemma BackToUnit(y: real, w: real, u: real, c: real, e: int, n: nat)
    requires u == PowR(2, e - 53) && c == PowR(2, 53 - e) && w == y * c && -0.5 <= (n as real) - w <= 0.5
    ensures -u <= 2.0 * (y - (n as real) * u) <= u
  {
    hide PowR;
    PowRPos(2, e - 53);
    PowRInverse(2, e - 53, 53 - e);
    var f := w - n as real;
    assert w * u == y by { RAssoc(y, c, u); }
    assert f * u == y - (n as real) * u;
    RMulMono(u, f, 0.5);
    RMulMono(u, -0.5, f);
    assert -0.5 * u <= f * u <= 0.5 * u;
  }

  /** A number below a power of two that reads back as it. */
  lemma ReadsBelow(e: int, y: real, d: real, u: real)
    requires e > E_MIN && u == PowR(2, e - 53) && d == (TWO52 as real) * u
    requires 0.0 < y < d && RoundToDouble(y, RNDN) == (TWO52, e)
    ensures 4.0 * (d - y) <= u
  {
    hide PowR, RoundReal, Pow, RoundToDouble;
    var b := Binade(y);
    var w := y * PowR(2, Precision(b) - b);
    PowerBinade(e, y, d, u, b);
    var n := BinadeMantissa(y, b, w);
    UnitPower();
    assert b == e - 1 && n == TWO53;
    RoundRealNearest(w, RNDN);
    var h := PowR(2, e - 1 - 53);
    BackToUnit(y, w, h, PowR(2, 53 - (e - 1)), e - 1, TWO53);
    PowRStep(2, e - 54);
  }

  // ---- the next number up ----------------------------------------------------------------------

  ghost function Ceiling(x: real): (n: int)
    ensures n as real - 1.0 < x <= n as real
  {
    if x == x.Floor as real then x.Floor else x.Floor + 1
  }

  /** The least multiple of the p-th digit's unit that is not below the double. */
  ghost function NextUp(m: nat, e: int, radix: nat, e0: int, p: nat): (n: nat)
    requires radix > 0
  {
    var x := Scaled(m, e - 53, radix, p - e0);
    ScaledPositive(m, e - 53, radix, p - e0);
    Ceiling(x)
  }

  lemma ScaledPositive(m: nat, e: int, radix: nat, f: int)
    requires radix > 0
    ensures Scaled(m, e, radix, f) >= 0.0
  {
    hide PowR;
    PowRPos(2, e);
    PowRPos(radix, f);
    RMulMono(PowR(2, e), 0.0, m as real);
    RMulMono(PowR(radix, f), 0.0, (m as real) * PowR(2, e));
  }

  lemma TimesOne(d: real, one: real)
    requires one == 1.0
    ensures d * one == d
  {
  }

  lemma NextUpIs(e: int, radix: nat, e0: int, p: nat, n: nat, d: real, g: real, gi: real)
    requires radix > 0 && n == NextUp(TWO52, e, radix, e0, p) && d == DoubleValue(TWO52, e)
    requires g == PowR(radix, p - e0) && gi == PowR(radix, e0 - p)
    ensures n == Ceiling(d * g) && d * g * gi == d && gi > 0.0
  {
    hide PowR, Ceiling;
    PowRPos(radix, e0 - p);
    PowRInverse(radix, p - e0, e0 - p);
    RAssoc(d, g, gi);
    TimesOne(d, g * gi);
    assert Scaled(TWO52, e - 53, radix, p - e0) == d * g;
  }

  /** A multiple of the unit that is not below x is not below its ceiling. */
  lemma GridNumber(radix: nat, j: int, n: nat, x: real, gi: real, y: real, a: nat, k: int)
    requires radix > 0 && k >= j && gi == PowR(radix, j) > 0.0 && n == Ceiling(x)
    requires y == (a as real) * PowR(radix, k) && x * gi <= y
    ensures (n as real) * gi <= y
  {
    hide PowR, Pow, Ceiling;
    var c := a * Pow(radix, k - j);
    OnGrid(radix, a, k, j, c, gi);
    if c as real < x { RMulStrict(gi, c as real, x); }
    CeilingLeast(x, n, c);
    RMulMono(gi, n as real, c as real);
  }

  /** The next number up of p digits lies between the double and any number of up to p
      digits above it. */
  lemma NextUpLeast(e: int, radix: nat, e0: int, p: nat, n: nat, d: real, y: real, a: nat, k: int)
    requires radix >= 2 && p >= 1 && IsFloorLog(radix, e - 1, e0 - 1) && n == NextUp(TWO52, e, radix, e0, p)
    requires d == DoubleValue(TWO52, e) && y == Decimal(a, radix, k) >= d && a < Pow(radix, p)
    ensures d <= Decimal(n, radix, e0 - p) <= y
  {
    hide PowR, Pow, Ceiling, NextUp, DoubleValue, Decimal;
    var g, gi := PowR(radix, p - e0), PowR(radix, e0 - p);
    NextUpIs(e, radix, e0, p, n, d, g, gi);
    var x := d * g;
    DecimalValue(n, radix, e0 - p);
    DecimalValue(a, radix, k);
    CeilingBound(x, n);
    RMulMono(gi, x, n as real);
    if k >= e0 - p {
      GridNumber(radix, e0 - p, n, x, gi, y, a, k);
    } else {
      BelowGrid(radix, a, k, e0, p);
      DoubleIsPower(e, d);
      TopNumber(radix, e0, p, n, x, gi, d, y);
    }
  }

  lemma CeilingBound(x: real, n: int)
    requires n == Ceiling(x)
    ensures x <= n as real
  {
  }

  lemma CeilingLeast(x: real, n: int, c: int)
    requires n == Ceiling(x) && x <= c as real
    ensures n <= c
  {
  }

  lemma DoubleIsPower(e: int, d: real)
    requires d == DoubleValue(TWO52, e)
    ensures d == PowR(2, e - 1)
  {
    hide PowR;
    UlpPowers(e, PowR(2, e - 53));
  }

  /** The double is radix^(e0 - 1) itself. */
  lemma TopNumber(radix: nat, e0: int, p: nat, n: nat, x: real, gi: real, d: real, y: real)
    requires radix >= 2 && p >= 1 && n == Ceiling(x) && x * gi == d && gi == PowR(radix, e0 - p)
    requires PowR(radix, e0 - 1) <= d <= y <= PowR(radix, e0 - 1)
    ensures (n as real) * gi <= y
  {
    hide PowR, Pow, Ceiling;
    var c := Pow(radix, p - 1);
    PowRPos(radix, e0 - p);
    PowRNat(radix, p - 1);
    PowRAdd(radix, p - 1, e0 - p);
    if c as real < x { RMulStrict(gi, c as real, x); }
    CeilingLeast(x, n, c);
    RMulMono(gi, n as real, c as real);
  }

  // ---- what the search passes over ------------------------------------------------------------

  /** The next number up has no more than p digits, or is a power of the radix, and reads
      back. */
  ghost predicate UpReads(m: nat, e: int, radix: nat, e0: int, p: nat)
    requires radix > 0
  {
    NextUp(m, e, radix, e0, p) <= Pow(radix, p) && ReadsBack(NextUp(m, e, radix, e0, p), radix, e0 - p, m, e)
  }

  ghost predicate TryReads(m: nat, e: int, radix: nat, e0: int, p: nat)
    requires radix > 0 && p >= 1
  {
    forall mant: nat, e1: int :: IsTry(m, e, radix, e0, p, mant, e1) ==> ReadsBack(mant, radix, e1 - p, m, e)
  }

  /** The next number of p digits above the double reads back, but the closest one does
      not. */
  ghost predicate PassedOver(m: nat, e: int, radix: nat, e0: int, p: nat)
    requires radix > 0 && p >= 1
  {
    UpReads(m, e, radix, e0, p) && !TryReads(m, e, radix, e0, p)
  }

  /** A number within half a unit above, or a quarter below, is a power of two's. */
  lemma NearPower(e: int, z: real, d: real, u: real)
    requires IsDouble(TWO52, e) && u == PowR(2, e - 53) && d == DoubleValue(TWO52, e)
    requires 2.0 * (z - d) < u && 4.0 * (d - z) < u
    ensures z > 0.0 && RoundToDouble(z, RNDN) == (TWO52, e)
  {
    hide PowR, RoundToDouble;
    CloseRoundsTo(TWO52, e, u, z);
  }

  /** The closest number does not read back, nor does the next one up: none does. */
  lemma OneMisses(e: int, z: real, y: real, up: real, d: real)
    requires IsDouble(TWO52, e) && e > E_MIN && d == DoubleValue(TWO52, e)
    requires y > 0.0 && RoundToDouble(y, RNDN) == (TWO52, e)
    requires z > 0.0 && Distance(z, d) <= Distance(y, d)
    requires y >= d ==> d <= up <= y
    ensures RoundToDouble(z, RNDN) == (TWO52, e) || (up > 0.0 && RoundToDouble(up, RNDN) == (TWO52, e))
  {
    hide PowR, RoundToDouble;
    var u := PowR(2, e - 53);
    PowRPos(2, e - 53);
    if y >= d {
      ReadsAbove(e, y, d, u);
      if up != y { NearPower(e, up, d, u); }
    } else {
      ReadsBelow(e, y, d, u);
      if z != y { NearPower(e, z, d, u); }
    }
  }

  lemma NoneAtAll(m: nat, e: int, radix: nat, e0: int, p: nat, mant: nat, e1: int)
    requires IsDouble(m, e) && IsRadix(radix) && p >= 1 && IsFloorLog(radix, e - 1, e0 - 1) && !Symmetric(m, e)
    requires IsTry(m, e, radix, e0, p, mant, e1) && !ReadsBack(mant, radix, e1 - p, m, e)
    requires !UpReads(m, e, radix, e0, p)
    ensures NoneReadsBack(radix, p, m, e)
  {
    hide Distance, Decimal, IsFloorLog, DoubleValue, RoundToDouble, NextUp, IsTry;
    var n, d := NextUp(m, e, radix, e0, p), DoubleValue(m, e);
    NextUpSize(e, radix, e0, p, n);
    forall a: nat, j: int | a < Pow(radix, p)
      ensures !ReadsBack(a, radix, j, m, e)
    {
      var y := Decimal(a, radix, j);
      if ReadsBack(a, radix, j, m, e) {
        TryIsClosest(m, e, radix, e0, p, mant, e1, a, j);
        TryPositive(m, e, radix, e0, p, mant, e1);
        if y >= d { NextUpLeast(e, radix, e0, p, n, d, y, a, j); }
        OneMisses(e, Decimal(mant, radix, e1 - p), y, Decimal(n, radix, e0 - p), d);
      }
    }
  }

  // ---- tries of neighbouring lengths ------------------------------------------------------------

  lemma TryUnique(m: nat, e: int, radix: nat, e0: int, p: nat, mant: nat, e1: int, mant': nat, e1': int)
    requires radix > 0 && p >= 1 && IsTry(m, e, radix, e0, p, mant, e1) && IsTry(m, e, radix, e0, p, mant', e1')
    ensures mant == mant' && e1 == e1'
  {
    hide Pow, RoundReal, Scaled;
  }

  /** A digit less: the scaled value and its rounding shrink together. */
  lemma RoundsShorter(x: real, xp: real, r: nat, n: nat, n0: nat)
    requires r >= 2 && x == xp * (r as real) && n0 == n * r && RoundReal(x, RNDN) == n0
    ensures RoundReal(xp, RNDN) == n
  {
    hide RoundReal;
    RoundRealNearest(x, RNDN);
    var f := xp - n as real;
    RealProduct(n, r);
    assert f * (r as real) == x - n0 as real;
    SmallError(f, r as real);
    RoundRealIs(xp, RNDN, n);
  }

  lemma SmallError(f: real, r: real)
    requires r >= 2.0 && -0.5 <= f * r <= 0.5
    ensures -0.25 <= f <= 0.25
  {
    if f > 0.25 { RMulStrict(r, 0.25, f); }
    if f < -0.25 { RMulStrict(r, f, -0.25); }
  }

  lemma TooManyShorter(x: real, xp: real, r: nat, n: nat, n0: nat)
    requires r >= 2 && x == xp * (r as real) && n0 == n * r && RoundReal(x, RNDN) >= n0
    ensures RoundReal(xp, RNDN) >= n
  {
    hide RoundReal;
    RoundRealNearest(x, RNDN);
    var f := xp - n as real;
    RealProduct(n, r);
    assert f * (r as real) == x - n0 as real;
    if f < -0.25 { RMulStrict(r as real, f, -0.25); }
    RoundRealIs(n as real - 0.25, RNDN, n);
    RoundRealMono(n as real - 0.25, xp, RNDN);
  }

  lemma ShorterScale(m: nat, e: int, radix: nat, f: int, j: nat)
    requires radix > 0
    ensures Scaled(m, e, radix, f + j) == Scaled(m, e, radix, f) * (Pow(radix, j) as real)
  {
    hide PowR, Pow;
    PowRAdd(radix, f, j);
    PowRNat(radix, j);
    RAssoc((m as real) * PowR(2, e), PowR(radix, f), PowR(radix, j));
  }

  /** A try that ends in zeros is also the try of the shorter length. */
  lemma ShorterTry(m: nat, e: int, radix: nat, e0: int, p0: nat, n0: nat, e1: int, p: nat, n: nat)
    requires radix >= 2 && 1 <= p < p0 && IsTry(m, e, radix, e0, p0, n0, e1) && n0 == n * Pow(radix, p0 - p)
    ensures IsTry(m, e, radix, e0, p, n, e1)
  {
    hide RoundReal, Scaled, Pow;
    var r := Pow(radix, p0 - p);
    PowMonoExp(radix, 1, p0 - p);
    assert Pow(radix, 1) == radix by { FirstPower(radix); }
    ShorterScale(m, e - 53, radix, p - e1, p0 - p);
    RoundsShorter(Scaled(m, e - 53, radix, p0 - e1), Scaled(m, e - 53, radix, p - e1), r, n, n0);
    PowAdd(radix, p, p0 - p);
    PowAdd(radix, p - 1, p0 - p);
    MulCancelLt(n, Pow(radix, p), r);
    MulCancelLe(Pow(radix, p - 1), n, r);
    if e1 == e0 + 1 {
      ShorterScale(m, e - 53, radix, p - e0, p0 - p);
      TooManyShorter(Scaled(m, e - 53, radix, p0 - e0), Scaled(m, e - 53, radix, p - e0), r, Pow(radix, p),
                     Pow(radix, p0));
    }
  }

  lemma FirstPower(radix: nat)
    ensures Pow(radix, 1) == radix
  {
  }

  lemma OneTryReads(m: nat, e: int, radix: nat, e0: int, p: nat, mant: nat, e1: int)
    requires radix > 0 && p >= 1 && IsTry(m, e, radix, e0, p, mant, e1)
    ensures TryReads(m, e, radix, e0, p) <==> ReadsBack(mant, radix, e1 - p, m, e)
  {
    hide ReadsBack, IsTry;
    forall n: nat, k: int | IsTry(m, e, radix, e0, p, n, k)
      ensures n == mant && k == e1
    {
      TryUnique(m, e, radix, e0, p, mant, e1, n, k);
    }
  }

  /** After zeros were stripped, the tries of all the lengths in between read back too. */
  lemma TriesBetween(m: nat, e: int, radix: nat, e0: int, p0: nat, n0: nat, e1: int, mant: nat, q: nat)
    requires IsRadix(radix) && 1 <= q <= p0 && IsTry(m, e, radix, e0, p0, n0, e1)
    requires n0 == mant * Pow(radix, p0 - q) && ReadsBack(mant, radix, e1 - q, m, e)
    ensures forall p :: q <= p <= p0 ==> TryReads(m, e, radix, e0, p)
  {
    hide IsTry, ReadsBack, TryReads;
    forall p | q <= p <= p0
      ensures TryReads(m, e, radix, e0, p)
    {
      var n := mant * Pow(radix, p - q);
      PowAdd(radix, p - q, p0 - p);
      MulAssoc(mant, Pow(radix, p - q), Pow(radix, p0 - p));
      if p == p0 { assert n == n0; } else { ShorterTry(m, e, radix, e0, p0, n0, e1, p, n); }
      StrippedReads(n, p, mant, q, radix, e1, m, e);
      OneTryReads(m, e, radix, e0, p, n, e1);
    }
  }

  // ---- the search ----------------------------------------------------------------------------------

  /** The exponent the search starts from. */
  function FirstExponent(e: int, radix: nat): int
    requires IsRadix(radix)
  {
    1 + MulLog2Radix(e - 1, radix)
  }

  /** The tries of every length from q on read back. */
  ghost predicate AllRead(m: nat, e: int, radix: nat, q: nat)
    requires IsRadix(radix) && q >= 1
  {
    forall p :: q <= p <= DtoaMaxDigits(radix) ==> TryReads(m, e, radix, FirstExponent(e, radix), p)
  }

  /** The first length, going down from the most digits, whose next shorter try does not
      read back. */
  ghost predicate StopsAt(m: nat, e: int, radix: nat, p: nat)
    requires IsRadix(radix) && p >= 1
  {
    AllRead(m, e, radix, p) && (p > 1 ==> !TryReads(m, e, radix, FirstExponent(e, radix), p - 1))
  }

  /** No length is passed over. */
  ghost predicate NonePassedOver(m: nat, e: int, radix: nat)
    requires IsRadix(radix)
  {
    forall p :: 1 <= p < DtoaMaxDigits(radix) ==> !PassedOver(m, e, radix, FirstExponent(e, radix), p)
  }

  /** The number it is, with up to q digits. */
  lemma UpNumber(m: nat, e: int, radix: nat, e0: int, p: nat, q: nat) returns (a: nat, k: int)
    requires IsRadix(radix) && 1 <= p <= q && UpReads(m, e, radix, e0, p)
    ensures a < Pow(radix, q) && ReadsBack(a, radix, k, m, e)
  {
    hide ReadsBack, Pow, NextUp;
    a, k := NextUp(m, e, radix, e0, p), e0 - p;
    PowMonoExp(radix, p, q);
    PowMonoExp(radix, 1, q);
    FirstPower(radix);
    if a == Pow(radix, p) {
      StrippedReads(a, p, 1, 0, radix, e0, m, e);
      a, k := 1, e0;
    }
  }

  lemma UpIsShort(m: nat, e: int, radix: nat, e0: int, p: nat, q: nat)
    requires IsRadix(radix) && 1 <= p <= q && UpReads(m, e, radix, e0, p)
    ensures !NoneReadsBack(radix, q, m, e)
  {
    hide ReadsBack, Pow, UpReads;
    var a, k := UpNumber(m, e, radix, e0, p, q);
  }

  lemma NextUpSize(e: int, radix: nat, e0: int, p: nat, n: nat)
    requires radix >= 2 && p >= 1 && IsFloorLog(radix, e - 1, e0 - 1) && n == NextUp(TWO52, e, radix, e0, p)
    ensures n <= Pow(radix, p)
  {
    hide PowR, Pow, Ceiling, NextUp;
    var d, g, gi := DoubleValue(TWO52, e), PowR(radix, p - e0), PowR(radix, e0 - p);
    NextUpIs(e, radix, e0, p, n, d, g, gi);
    DoubleIsPower(e, d);
    PowRPos(radix, p - e0);
    RMulMono(g, d, PowR(radix, e0));
    PowRAdd(radix, e0, p - e0);
    PowRNat(radix, p);
    CeilingLeast(d * g, n, Pow(radix, p));
  }

  /** The search stopped at p digits; all longer tries read back. */
  lemma StoppedAt(m: nat, e: int, radix: nat, e0: int, p: nat, mant: nat, e1: int)
    requires IsDouble(m, e) && IsRadix(radix) && 1 <= p < DtoaMaxDigits(radix) && IsFloorLog(radix, e - 1, e0 - 1)
    requires IsTry(m, e, radix, e0, p, mant, e1) && !ReadsBack(mant, radix, e1 - p, m, e)
    requires AllRead(m, e, radix, p + 1) && e0 == FirstExponent(e, radix)
    ensures NoneReadsBack(radix, p, m, e) <==> NonePassedOver(m, e, radix)
  {
    hide IsDouble, IsFloorLog, IsTry, ReadsBack, TryReads, NoneReadsBack, UpReads;
    OneTryReads(m, e, radix, e0, p, mant, e1);
    if Symmetric(m, e) {
      NoShorter(m, e, radix, e0, p, mant, e1);
    } else if !PassedOver(m, e, radix, e0, p) {
      NoneAtAll(m, e, radix, e0, p, mant, e1);
    }
    forall q | 1 <= q < DtoaMaxDigits(radix) && NoneReadsBack(radix, p, m, e)
      ensures !PassedOver(m, e, radix, e0, q)
    {
      if q <= p && UpReads(m, e, radix, e0, q) { UpIsShort(m, e, radix, e0, q, p); }
    }
  }

  /** Every length was tried and reads back. */
  lemma AllTried(m: nat, e: int, radix: nat)
    requires IsRadix(radix) && AllRead(m, e, radix, 1)
    ensures NonePassedOver(m, e, radix)
  {
    hide TryReads, UpReads;
  }

  lemma NothingRead(m: nat, e: int, radix: nat)
    requires IsRadix(radix)
    ensures AllRead(m, e, radix, DtoaMaxDigits(radix) + 1)
  {
  }

  lemma MoreRead(m: nat, e: int, radix: nat, e0: int, p0: nat, n0: nat, e1: int, mant: nat, q: nat)
    requires IsRadix(radix) && 1 <= q <= p0 && e0 == FirstExponent(e, radix) && IsTry(m, e, radix, e0, p0, n0, e1)
    requires n0 == mant * Pow(radix, p0 - q) && ReadsBack(mant, radix, e1 - q, m, e)
    requires AllRead(m, e, radix, p0 + 1)
    ensures AllRead(m, e, radix, q)
  {
    hide IsTry, ReadsBack, TryReads;
    TriesBetween(m, e, radix, e0, p0, n0, e1, mant, q);
  }

  /** One round: try p digits, strip zeros, and read back, except the first time. */
  method Attempt(tmp: Mpb, m: nat, e: int, radix: nat, radix1: nat, radixShift: nat, e0: int, p: nat, first: bool)
    returns (mant: nat, q: nat, e1: int, ok: bool, ghost mant0: nat)
    requires IsDouble(m, e) && TWO52 <= m < TWO53 && IsRadix(radix) && 1 <= p <= DtoaMaxDigits(radix)
    requires IsOddPart(radix1) && RadixOf(radix1, radixShift) == radix && IsFloorLog(radix, e - 1, e0 - 1)
    requires first ==> p == DtoaMaxDigits(radix)
    modifies tmp
    ensures IsTry(m, e, radix, e0, p, mant0, e1) && 1 <= q <= p && mant0 == mant * Pow(radix, p - q)
    ensures Pow(radix, q - 1) <= mant < Pow(radix, q) && mant % radix != 0
    ensures ok <==> ReadsBack(mant0, radix, e1 - p, m, e)
    ensures ok <==> ReadsBack(mant, radix, e1 - q, m, e)
    ensures first ==> ok
  {
    hide IsDouble, IsTry, IsFloorLog, ReadsBack, DtoaMaxDigits, IsOddPart, RadixOf, Scaled, RoundToDouble;
    var n;
    n, e1 := TryDigits(tmp, m, e, radix, radix1, radixShift, e0, p);
    mant0 := n;
    TryRange(m, e, radix, e0, p, mant0, e1);
    mant, q := StripZeros(n, p, radix);
    StrippedReads(mant0, p, mant, q, radix, e1, m, e);
    if first {
      MostDigitsReadBack(m, e, radix, e0, p, mant0, e1);
      ok := true;
    } else {
      MantissaFits(radix, q, mant);
      tmp.SetU64(mant);
      var m1, e2 := MulPowRoundToD(tmp, radix1, radixShift, e1 - q, RNDN);
      ReadsBackIs(mant, radix, e1 - q, m, e, m1, e2);
      ok := m1 == m && e2 == e;
    }
  }

  lemma StrippedTry(m: nat, e: int, radix: nat, e0: int, p0: nat, n0: nat, e1: int, p: nat, n: nat)
    requires IsRadix(radix) && 1 <= p <= p0 && IsTry(m, e, radix, e0, p0, n0, e1) && n0 == n * Pow(radix, p0 - p)
    ensures IsTry(m, e, radix, e0, p, n, e1)
  {
    hide IsTry;
    if p == p0 {
      assert Pow(radix, 0) == 1;
    } else {
      ShorterTry(m, e, radix, e0, p0, n0, e1, p, n);
    }
  }

  lemma Stops(m: nat, e: int, radix: nat, e0: int, p: nat, mant: nat, e1: int)
    requires IsRadix(radix) && p >= 1 && e0 == FirstExponent(e, radix) && AllRead(m, e, radix, p + 1)
    requires IsTry(m, e, radix, e0, p, mant, e1) && !ReadsBack(mant, radix, e1 - p, m, e)
    ensures StopsAt(m, e, radix, p + 1)
  {
    hide IsTry, ReadsBack, AllRead, TryReads;
    OneTryReads(m, e, radix, e0, p, mant, e1);
  }

  /** The free-format branch of js_dtoa: digits that read back, and the fewest such digits
      exactly when no length is passed over. */
  method FindDigits(m: nat, e: int, radix: nat) returns (mantFound: nat, pFound: nat, eFound: int)
    requires IsDouble(m, e) && IsRadix(radix)
    ensures IsFound(m, e, radix, mantFound, pFound, eFound)
    ensures IsTry(m, e, radix, FirstExponent(e, radix), pFound, mantFound, eFound) && StopsAt(m, e, radix, pFound)
    ensures NoneReadsBack(radix, pFound - 1, m, e) <==> NonePassedOver(m, e, radix)
  {
    hide AllRead, NonePassedOver, IsDouble, IsFound, NoneReadsBack, IsTry, IsFloorLog, ReadsBack, MulLog2Radix,
         DtoaMaxDigits, TrailingZeros, IsOddPart, RadixOf;
    var radixShift := TrailingZeros(radix);
    var radix1 := radix / Pow(2, radixShift);
    RadixSplit(radix, radixShift, radix1);
    var e0 := FirstExponent(e, radix);
    EstimateIsFloor(m, e, radix);
    MaxDigitsSuffice(radix);
    var tmp := new Mpb();
    var p := DtoaMaxDigits(radix);
    mantFound, pFound, eFound := 0, 0, 0;
    NothingRead(m, e, radix);
    while true
      invariant 1 <= p <= DtoaMaxDigits(radix) && AllRead(m, e, radix, p + 1)
      invariant pFound == 0 ==> p == DtoaMaxDigits(radix)
      invariant pFound != 0 ==> p == pFound - 1 < DtoaMaxDigits(radix)
      invariant pFound != 0 ==> IsFound(m, e, radix, mantFound, pFound, eFound)
      invariant pFound != 0 ==> IsTry(m, e, radix, e0, pFound, mantFound, eFound)
      decreases p
    {
      var mant, q, e1, ok;
      ghost var mant0;
      mant, q, e1, ok, mant0 := Attempt(tmp, m, e, radix, radix1, radixShift, e0, p, pFound == 0);
      if !ok {
        StoppedAt(m, e, radix, e0, p, mant0, e1);
        Stops(m, e, radix, e0, p, mant0, e1);
        break;
      }
      TryFound(m, e, radix, e0, p, mant0, e1, mant, q);
      MoreRead(m, e, radix, e0, p, mant0, e1, mant, q);
      StrippedTry(m, e, radix, e0, p, mant0, e1, q, mant);
      mantFound, pFound, eFound := mant, q, e1;
      if q == 1 {
        NoDigits(m, e, radix);
        AllTried(m, e, radix);
        assert StopsAt(m, e, radix, 1);
        break;
      }
      p := q - 1;
    }
  }

  /** Nothing is passed over for a double whose neighbours are equally far away: the closest
      number reads back if any does. */
  lemma EvenlySpaced(m: nat, e: int, radix: nat)
    requires IsDouble(m, e) && IsRadix(radix) && Symmetric(m, e)
    ensures NonePassedOver(m, e, radix)
  {
    hide Distance, Decimal, IsFloorLog, DoubleValue, RoundToDouble, NextUp, IsTry, Pow, DtoaMaxDigits, UpReads;
    var e0 := FirstExponent(e, radix);
    EstimateIsFloor(m, e, radix);
    forall p, mant: nat, e1: int | 1 <= p < DtoaMaxDigits(radix) && UpReads(m, e, radix, e0, p)
                                   && IsTry(m, e, radix, e0, p, mant, e1)
      ensures ReadsBack(mant, radix, e1 - p, m, e)
    {
      var a, k := UpNumber(m, e, radix, e0, p, p);
      TryIsClosest(m, e, radix, e0, p, mant, e1, a, k);
      TryPositive(m, e, radix, e0, p, mant, e1);
      CloserReadsBack(m, e, Decimal(a, radix, k), Decimal(mant, radix, e1 - p));
    }
  }

  // ---- where the search is not shortest --------------------------------------------------

  lemma LiteralPower(b: nat, n: nat, v: nat)
    requires b > 0 && FastPow(b, n) == v
    ensures PowR(b, n) == v as real
  {
    FastPowIsPow(b, n);
    PowRNat(b, n);
  }

  /** 2^89 is 618970019642690137449562112. */
  const SHORT: nat := 6189700196426902

  lemma ShorterReadsBack()
    ensures SHORT < Pow(10, 16) && ReadsBack(SHORT, 10, 11, TWO52, 90)
  {
    hide PowR, RoundToDouble, Pow;
    assert SHORT < Pow(10, 16) by { FastPowIsPow(10, 16); }
    LiteralPower(10, 11, 100_000_000_000);
    LiteralPower(2, 37, 0x20_0000_0000);
    DecimalValue(SHORT, 10, 11);
    var y := 618970019642690200000000000.0;
    assert Decimal(SHORT, 10, 11) == y;
    CloseRoundsTo(TWO52, 90, 137438953472.0, y);
  }

  /** 2^89 is the given number of units of the sixteenth digit. */
  lemma SixteenUnits(x: real)
    requires x == Scaled(TWO52, 37, 10, -11)
    ensures x == 6189700196426901.37449562112
  {
    hide PowR;
    LiteralPower(2, 37, 0x20_0000_0000);
    LiteralPower(10, 11, 100_000_000_000);
    PowRInverse(10, 11, -11);
    var gi := PowR(10, -11);
    assert gi == 1.0 / 100000000000.0;
  }

  lemma SixteenTry()
    ensures FirstExponent(90, 10) == 27 && IsTry(TWO52, 90, 10, 27, 16, SHORT - 1, 27)
  {
    hide RoundReal, Pow, Scaled;
    var x := Scaled(TWO52, 37, 10, -11);
    SixteenUnits(x);
    RoundRealIs(x, RNDN, SHORT - 1);
    FastPowIsPow(10, 16);
    FastPowIsPow(10, 15);
  }

  lemma SixteenFail()
    ensures !ReadsBack(SHORT - 1, 10, 11, TWO52, 90)
  {
    hide PowR, RoundToDouble, RoundReal;
    LiteralPower(10, 11, 100_000_000_000);
    LiteralPower(2, 88, 0x100_0000_0000_0000_0000_0000);
    LiteralPower(2, 89, 0x200_0000_0000_0000_0000_0000);
    LiteralPower(2, 36, 0x10_0000_0000);
    PowRInverse(2, 36, -36);
    DecimalValue(SHORT - 1, 10, 11);
    var y := 618970019642690100000000000.0;
    assert Decimal(SHORT - 1, 10, 11) == y;
    var z := y * PowR(2, -36);
    assert z * 68719476736.0 == y;
    RoundRealIs(z, RNDN, TWO53 - 1);
    TwoTo53();
    RoundToDoubleIs(y, 89, z, RNDN, TWO53 - 1);
  }

  lemma SixteenUp()
    ensures NextUp(TWO52, 90, 10, 27, 16) == SHORT
  {
    hide Scaled;
    SixteenUnits(Scaled(TWO52, 37, 10, -11));
  }

  /** The search does pass over lengths: 2^89 has a reading of 16 digits, but the try with
      16 digits rounds down to one that does not read back. */
  lemma LongerAtPowerOfTwo()
    ensures IsDouble(TWO52, 90) && PassedOver(TWO52, 90, 10, FirstExponent(90, 10), 16)
    ensures !NonePassedOver(TWO52, 90, 10) && !NoneReadsBack(10, 16, TWO52, 90)
  {
    hide IsTry, ReadsBack, Pow, TryReads, NextUp, PassedOver;
    SixteenTry();
    SixteenFail();
    OneTryReads(TWO52, 90, 10, 27, 16, SHORT - 1, 27);
    SixteenPassed();
    UpIsShort(TWO52, 90, 10, 27, 16, 16);
    assert 16 < DtoaMaxDigits(10);
  }

  lemma SixteenPassed()
    ensures UpReads(TWO52, 90, 10, 27, 16)
    ensures !TryReads(TWO52, 90, 10, 27, 16) ==> PassedOver(TWO52, 90, 10, 27, 16)
  {
    hide ReadsBack, Pow, TryReads, NextUp;
    ShorterReadsBack();
    SixteenUp();
  }
}
