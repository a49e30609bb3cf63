/** Integer powers with any exponent, and rounding, as real numbers: the exact
    meaning of the conversions is stated here. */
module Reals {
  import opened Arith
  import opened Rounding

  /** b^e for any integer e. */
  ghost function PowR(b: nat, e: int): (p: real)
    requires b > 0
    ensures p > 0.0
  {
    if e >= 0 then Pow(b, e) as real else 1.0 / (Pow(b, -e) as real)
  }

  lemma PowRPos(b: nat, e: int)
    requires b > 0
    ensures PowR(b, e) > 0.0
  {
  }

  lemma PowRStep(b: nat, e: int)
    requires b > 0
    ensures PowR(b, e + 1) == (b as real) * PowR(b, e)
  {
  }

  lemma {:induction false} PowRAdd(b: nat, m: int, n: int)
    requires b > 0
    ensures PowR(b, m + n) == PowR(b, m) * PowR(b, n)
    decreases Abs(n)
  {
    hide PowR;
    if n > 0 {
      PowRAdd(b, m, n - 1);
      PowRStep(b, n - 1);
      PowRStep(b, m + n - 1);
      RMulSwap(b as real, PowR(b, m), PowR(b, n - 1));
    } else if n < 0 {
      PowRAdd(b, m, n + 1);
      PowRStep(b, n);
      PowRStep(b, m + n);
      RMulSwap(b as real, PowR(b, m), PowR(b, n));
      RCancel(b as real, PowR(b, m + n), PowR(b, m) * PowR(b, n));
    } else {
      PowRZero(b);
    }
  }

  lemma PowRZero(b: nat)
    requires b > 0
    ensures PowR(b, 0) == 1.0
    ensures PowR(b, 1) == b as real
  {
  }

  lemma RMulSwap(a: real, b: real, c: real)
    ensures b * (a * c) == a * (b * c)
  {
  }

  lemma RCancel(a: real, x: real, y: real)
    requires a > 0.0 && a * x == a * y
    ensures x == y
  {
  }

  lemma RMulMono(a: real, x: real, y: real)
    requires a >= 0.0 && x <= y
    ensures a * x <= a * y && x * a <= y * a
  {
  }

  lemma RMulStrict(a: real, x: real, y: real)
    requires a > 0.0 && x < y
    ensures a * x < a * y && x * a < y * a
  {
  }

  lemma RAssoc(a: real, b: real, c: real)
    ensures a * (b * c) == a * b * c
  {
  }

  lemma PowRInv(b: nat, e: int)
    requires b > 0
    ensures PowR(b, -e) * PowR(b, e) == 1.0
  {
  }

  lemma PowRMono(b: nat, m: int, n: int)
    requires b > 0 && m <= n
    ensures PowR(b, m) <= PowR(b, n)
  {
    hide PowR;
    PowRAdd(b, m, n - m);
    PowRNat(b, n - m);
    RMulMono(PowR(b, m), 1.0, PowR(b, n - m));
  }

  lemma PowRStrict(b: nat, m: int, n: int)
    requires b > 1 && m < n
    ensures PowR(b, m) < PowR(b, n)
  {
    hide PowR;
    PowRStep(b, m);
    RMulStrict(PowR(b, m), 1.0, b as real);
    PowRMono(b, m + 1, n);
  }

  lemma PowRNat(b: nat, n: nat)
    requires b > 0
    ensures PowR(b, n) == Pow(b, n) as real >= 1.0
  {
  }

  lemma PowRNeg(b: nat, n: nat)
    requires b > 0
    ensures PowR(b, 0 - n) == 1.0 / (Pow(b, n) as real)
  {
  }

  lemma {:induction false} PowRMulBase(a: nat, b: nat, e: int)
    requires a > 0 && b > 0
    ensures a * b > 0
    ensures PowR(a * b, e) == PowR(a, e) * PowR(b, e)
  {
    MulMono(1, a, b);
    if e >= 0 {
      PowMulBase(a, b, e);
    } else {
      PowMulBase(a, b, -e);
      InverseProduct(Pow(a, -e) as real, Pow(b, -e) as real);
    }
  }

  lemma InverseProduct(x: real, y: real)
    requires x > 0.0 && y > 0.0
    ensures x * y > 0.0
    ensures 1.0 / (x * y) == (1.0 / x) * (1.0 / y)
  {
  }

  /** (2^k)^e == 2^(k * e) */
  lemma {:induction false} PowRPow(b: nat, k: nat, e: int)
    requires b > 0
    ensures PowR(Pow(b, k), e) == PowR(b, k * e)
  {
    if e >= 0 {
      PowPow(b, k, e);
    } else {
      PowPow(b, k, -e);
      assert k * -e == -(k * e);
      if k == 0 { assert k * e == 0; } else { MulMono(1, k, -e); }
    }
  }

  // ---- rounding --------------------------------------------------------------

  /** A nonnegative real rounded to an integer. */
  ghost function RoundReal(x: real, mode: Mode): int
  {
    var q := x.Floor;
    var f := x - q as real;
    var up := match mode
      case RNDZ => false
      case RNDN => f > 0.5 || (f == 0.5 && q % 2 == 1)
      case RNDNA => f >= 0.5;
    if up then q + 1 else q
  }

  lemma RoundDivIsRound(num: nat, den: nat, mode: Mode)
    requires den > 0
    ensures RoundDiv(num, den, mode) == RoundReal((num as real) / (den as real), mode)
  {
    var x, q := (num as real) / (den as real), num / den;
    FractionalPart(num, den);
    assert x.Floor == q;
  }

  /** The fractional part of num / den, compared with one half. */
  lemma FractionalPart(num: nat, den: nat)
    requires den > 0
    ensures var f := (num as real) / (den as real) - (num / den) as real;
            && 0.0 <= f < 1.0
            && (f > 0.5 <==> 2 * (num % den) > den)
            && (f < 0.5 <==> 2 * (num % den) < den)
  {
    var d, q, r := den as real, num / den, num % den;
    var f := (num as real) / d - q as real;
    DivModEq(num, den);
    assert f * d == r as real by {
      assert (q * den) as real == (q as real) * d;
      assert f * d == (num as real) / d * d - (q as real) * d;
    }
    CompareScaled(f, d, r as real);
  }

  lemma CompareScaled(f: real, d: real, r: real)
    requires d > 0.0 && f * d == r && 0.0 <= r < d
    ensures 0.0 <= f < 1.0
    ensures f > 0.5 <==> 2.0 * r > d
    ensures f < 0.5 <==> 2.0 * r < d
  {
    if f < 0.0 { RMulStrict(d, f, 0.0); }
    if f >= 1.0 { RMulMono(d, 1.0, f); }
    if f > 0.5 { RMulStrict(d, 0.5, f); } else { RMulMono(d, f, 0.5); }
    if f < 0.5 { RMulStrict(d, f, 0.5); } else { RMulMono(d, 0.5, f); }
  }

  lemma RoundRealNearest(x: real, mode: Mode)
    requires mode != RNDZ
    ensures -0.5 <= (RoundReal(x, mode) as real) - x <= 0.5
  {
  }

  lemma RoundRealIs(x: real, mode: Mode, n: int)
    requires mode != RNDZ && -0.5 < (n as real) - x < 0.5
    ensures RoundReal(x, mode) == n
  {
  }

  lemma RoundRealMono(x: real, y: real, mode: Mode)
    requires x <= y
    ensures RoundReal(x, mode) <= RoundReal(y, mode)
  {
  }

  lemma RoundRealInt(n: int, mode: Mode)
    ensures RoundReal(n as real, mode) == n
  {
  }

  lemma RealProduct(a: int, b: int)
    ensures (a * b) as real == (a as real) * (b as real)
  {
  }

  /** A rounding shift rounds v * 2^-shift. */
  lemma RoundShiftIsRound(v: nat, shift: int, mode: Mode)
    ensures RoundShift(v, shift, mode) == RoundReal((v as real) * PowR(2, -shift), mode)
  {
    hide RoundReal, RoundDiv, Pow, PowR;
    if shift <= 0 {
      PowRNat(2, -shift);
      RealProduct(v, Pow(2, -shift));
      var n: nat := v * Pow(2, -shift);
      assert (v as real) * PowR(2, -shift) == n as real;
      RoundRealInt(n, mode);
    } else {
      RoundDivIsRound(v, Pow(2, shift), mode);
      PowRNeg(2, shift);
      TimesInverse(v as real, Pow(2, shift) as real);
      assert (v as real) * PowR(2, -shift) == (v as real) / (Pow(2, shift) as real);
    }
  }

  lemma TimesInverse(x: real, y: real)
    requires y > 0.0
    ensures x * (1.0 / y) == x / y
  {
  }

  lemma PowROne(e: int)
    ensures PowR(1, e) == 1.0
  {
    PowOne(Abs(e));
  }
}
