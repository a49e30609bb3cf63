/** Rounding an exact positive number to a float64, given as a pair (m, e)
    standing for m * 2^(e - 53) with 2^52 <= m < 2^53: round_to_d and
    mul_pow_round_to_d. */
module Float64 {
  import opened Arith
  import opened Limbs
  import opened Rounding
  import opened Reals
  import opened Bignum
  import opened Tables
  import opened Scaling

  const TWO52: nat := 0x10_0000_0000_0000
  const E_MIN: int := -1021

  /** 2^(e - 1) <= y < 2^e */
  ghost predicate InBinade(y: real, e: int)
  {
    PowR(2, e - 1) <= y < PowR(2, e)
  }

  lemma BinadeUnique(y: real, e: int, e': int)
    requires InBinade(y, e) && InBinade(y, e')
    ensures e == e'
  {
    hide PowR;
    if e < e' { PowRMono(2, e, e' - 1); }
    if e' < e { PowRMono(2, e', e - 1); }
  }

  lemma {:induction false} BinadeBetween(y: real, lo: int, hi: int) returns (e: int)
    requires lo < hi && PowR(2, lo) <= y < PowR(2, hi)
    ensures InBinade(y, e)
    decreases hi - lo
  {
    if hi == lo + 1 {
      e := hi;
    } else if y < PowR(2, hi - 1) {
      e := BinadeBetween(y, lo, hi - 1);
    } else {
      e := hi;
    }
  }

  lemma {:induction false} PowExceeds(n: nat)
    ensures Pow(2, n) > n
  {
    if n == 0 {
    } else {
      PowExceeds(n - 1);
    }
  }

  lemma BinadeExists(y: real)
    requires y > 0.0
    ensures exists e :: InBinade(y, e)
  {
    hide PowR;
    var n := y.Floor + 1;
    PowExceeds(n);
    PowRNat(2, n);
    var k := (1.0 / y).Floor + 1;
    PowExceeds(k);
    PowRNat(2, k);
    PowRNeg(2, k);
    InverseBelow(y, Pow(2, k) as real);
    var e := BinadeBetween(y, -k, n);
  }

  lemma InverseBelow(y: real, p: real)
    requires y > 0.0 && p > 1.0 / y
    ensures p > 0.0 && 1.0 / p <= y
  {
    assert 1.0 / y > 0.0;
    RMulStrict(y, 1.0 / y, p);
    assert y * (1.0 / y) == 1.0;
    var q := 1.0 / p;
    assert q * p == 1.0;
    if q > y { RMulStrict(p, y, q); }
  }

  /** The exponent e with 2^(e - 1) <= y < 2^e. */
  ghost function Binade(y: real): (e: int)
    requires y > 0.0
    ensures InBinade(y, e)
  {
    BinadeExists(y);
    var e :| InBinade(y, e);
    e
  }

  /** Mantissa bits available in a binade: fewer below the normal range, and
      none or a negative number far below. */
  function Precision(e: int): (p: int)
    ensures p <= 53
  {
    if e < E_MIN then 53 - (E_MIN - e) else 53
  }

  /** Move a mantissa of the given precision up to 53 bits; a mantissa rounded
      up to the next power of two moves to the next binade. */
  function Normalize53(m0: nat, prec: int, e: int): (nat, int)
    requires prec <= 53
  {
    var m := m0 * Pow(2, 53 - prec);
    if m >= TWO53 then (m / 2, e + 1) else (m, e)
  }

  /** y rounded to a float64, with exponents unbounded above. */
  ghost function RoundToDouble(y: real, mode: Mode): (nat, int)
    requires y > 0.0 && mode != RNDZ
  {
    RoundInBinade(y, Binade(y), mode)
  }

  ghost function RoundInBinade(y: real, e: int, mode: Mode): (nat, int)
    requires y >= 0.0 && mode != RNDZ
  {
    RMulMono(PowR(2, Precision(e) - e), 0.0, y);
    RoundRealMono(0.0, y * PowR(2, Precision(e) - e), mode);
    Normalize53(RoundReal(y * PowR(2, Precision(e) - e), mode), Precision(e), e)
  }

  lemma RoundToDoubleIs(y: real, e: int, z: real, mode: Mode, n: nat)
    requires y > 0.0 && mode != RNDZ && InBinade(y, e)
    requires z == y * PowR(2, Precision(e) - e) && RoundReal(z, mode) == n
    ensures RoundToDouble(y, mode) == Normalize53(n, Precision(e), e)
  {
    hide RoundReal, PowR;
    BinadeUnique(y, e, Binade(y));
  }

  // ---- round_to_d ------------------------------------------------------------

  /** What round_to_d makes of v * 2^-eOffset. */
  function RoundCode(v: nat, eOffset: int, mode: Mode): (nat, int)
    requires v > 0
  {
    var top := Log2(v);
    var e := top + 1 - eOffset;
    Normalize53(RoundShift(v, top + 1 - Precision(e), mode), Precision(e), e)
  }

  /** The rounded mantissa never exceeds 2^prec. */
  lemma MantissaBound(v: nat, prec: int, mode: Mode)
    requires v > 0 && prec <= 53 && mode != RNDZ
    ensures prec < 0 ==> RoundShift(v, Log2(v) + 1 - prec, mode) == 0
    ensures prec >= 0 ==> RoundShift(v, Log2(v) + 1 - prec, mode) <= Pow(2, prec)
  {
    hide RoundShift, RoundReal, Pow, PowR;
    var s := Log2(v) + 1 - prec;
    RoundShiftIsRound(v, s, mode);
    ScaledBelow(v, Log2(v), prec);
    assert -s == prec - Log2(v) - 1;
    RoundedBelow((v as real) * PowR(2, -s), prec, mode);
  }

  lemma RoundedBelow(y: real, prec: int, mode: Mode)
    requires 0.0 < y < PowR(2, prec) && mode != RNDZ
    ensures prec < 0 ==> RoundReal(y, mode) == 0
    ensures prec >= 0 ==> RoundReal(y, mode) <= Pow(2, prec)
  {
    hide RoundReal, Pow, PowR;
    if prec < 0 {
      PowRMono(2, prec, -1);
      PowRHalf();
      RoundRealIs(y, mode, 0);
    } else {
      PowRNat(2, prec);
      RoundRealMono(y, PowR(2, prec), mode);
      RoundRealInt(Pow(2, prec), mode);
    }
  }

  lemma PowRHalf()
    ensures PowR(2, -1) == 0.5
  {
    PowRNeg(2, 1);
    assert Pow(2, 1) == 2;
  }

  lemma ScaledBelow(v: nat, top: nat, prec: int)
    requires 0 < v < Pow(2, top + 1)
    ensures 0.0 < (v as real) * PowR(2, prec - top - 1) < PowR(2, prec)
  {
    hide Pow, PowR;
    var t := PowR(2, prec - top - 1);
    PowRNat(2, top + 1);
    RMulStrict(t, v as real, PowR(2, top + 1));
    PowRAdd(2, top + 1, prec - top - 1);
    RMulStrict(t, 0.0, v as real);
  }

  lemma ShiftedMantissa(m0: nat, prec: int)
    requires prec <= 53 && (prec < 0 ==> m0 == 0) && (prec >= 0 ==> m0 <= Pow(2, prec))
    ensures m0 * Pow(2, 53 - prec) <= TWO53
  {
    hide Pow;
    if prec >= 0 {
      MulMono(m0, Pow(2, prec), Pow(2, 53 - prec));
      PowAdd(2, prec, 53 - prec);
      TwoTo53();
    }
  }

  /** The mantissa fits 64 bits, and is zero only after dropping bits. */
  lemma MantissaIsSmall(v: nat, prec: int, mode: Mode)
    requires v > 0 && prec <= 53 && mode != RNDZ
    ensures var m0 := RoundShift(v, Log2(v) + 1 - prec, mode);
            && m0 < BASE2 && m0 * Pow(2, 53 - prec) <= TWO53
            && (m0 == 0 ==> Log2(v) + 1 - prec > 0)
  {
    hide RoundShift, Pow;
    var s := Log2(v) + 1 - prec;
    MantissaBound(v, prec, mode);
    if prec >= 0 { PowMonoExp(2, prec, 53); TwoTo53(); }
    ShiftedMantissa(RoundShift(v, s, mode), prec);
    if RoundShift(v, s, mode) == 0 { SmallShift(v, s, mode); }
  }

  /** round_to_d */
  method RoundToD(a: Mpb, eOffset: int, mode: Mode) returns (m: nat, e: int)
    requires a.Normal() && mode != RNDZ
    modifies a
    ensures old(a.Value()) == 0 ==> m == 0
    ensures old(a.Value()) > 0 ==> (m, e) == RoundCode(old(a.Value()), eOffset, mode)
  {
    hide RoundShift, Pow, Val, Log2, Precision;
    if a.tab[0] == 0 && |a.tab| == 1 {
      assert a.tab == [0];
      ValSingle(0);
      m, e := 0, 0;
    } else {
      NormalIff(a.tab);
      ghost var v := a.Value();
      PositiveTop(a.tab);
      var top := a.FloorLog2();
      Log2Unique(v, top);
      e := top + 1 - eOffset;
      var prec := Precision(e);
      MantissaIsSmall(v, prec, mode);
      a.ShrRound(e + eOffset - prec, mode);
      assert e + eOffset - prec == top + 1 - prec;
      m := a.GetU64();
      m := m * Pow(2, 53 - prec);
      if m >= TWO53 {
        m := m / 2;
        e := e + 1;
      }
    }
  }

  lemma TwoTo53()
    ensures Pow(2, 53) == TWO53
  {
    hide Pow;
    FastPowIsPow(2, 53);
    assert FastPow(2, 53) == TWO53;
  }

  lemma PositiveTop(t: seq<Limb>)
    requires |t| >= 1 && (|t| == 1 || t[|t| - 1] != 0) && !(t[0] == 0 && |t| == 1)
    ensures Val(t) > 0
  {
    if |t| == 1 {
      assert t == [t[0]];
      ValSingle(t[0]);
    } else {
      NormalIff(t);
    }
  }

  /** A shift that rounds a positive number to zero drops bits. */
  lemma SmallShift(v: nat, shift: int, mode: Mode)
    requires v > 0 && RoundShift(v, shift, mode) == 0
    ensures shift > 0
  {
    if shift <= 0 { MulMono(1, v, Pow(2, -shift)); }
  }

  /** With an exact number, round_to_d rounds correctly. */
  lemma RoundCodeExact(v: nat, eOffset: int, y: real, mode: Mode)
    requires v > 0 && mode != RNDZ && y == (v as real) * PowR(2, -eOffset)
    ensures y > 0.0 && RoundCode(v, eOffset, mode) == RoundToDouble(y, mode)
  {
    hide RoundShift, RoundReal, RoundToDouble, RoundCode, Pow, PowR, Log2;
    var top := Log2(v);
    PowRNat(2, top);
    PowRNat(2, top + 1);
    var s := top + 1 - Precision(top + 1 - eOffset);
    RoundShiftIsRound(v, s, mode);
    CodeToDouble(v as real, top, v, s, eOffset, y, mode);
  }

  lemma BinadeOf(x: real, top: nat, eOffset: int)
    requires PowR(2, top) <= x < PowR(2, top + 1)
    ensures InBinade(x * PowR(2, -eOffset), top + 1 - eOffset)
  {
    hide PowR;
    RMulMono(PowR(2, -eOffset), PowR(2, top), x);
    RMulStrict(PowR(2, -eOffset), x, PowR(2, top + 1));
    PowRAdd(2, top, -eOffset);
    PowRAdd(2, top + 1, -eOffset);
  }

  /** Setting the low bit does not move the top bit. */
  lemma StickyTop(q: nat, inexact: bool)
    requires q >= 2
    ensures Log2(SetSticky(q, inexact)) == Log2(q)
  {
    hide Log2;
    var t := Log2(q);
    assert Pow(2, t + 1) == 2 * Pow(2, t);
    Log2Unique(SetSticky(q, inexact), t);
  }

  /** A fraction lies in the binade of its integer part. */
  lemma FractionBinade(n: nat, d: nat)
    requires d > 0 && n / d >= 1
    ensures var t := Log2(n / d);
            PowR(2, t) <= (n as real) / (d as real) < PowR(2, t + 1)
  {
    hide Log2, Pow, PowR;
    var q := n / d;
    var t := Log2(q);
    FractionalPart(n, d);
    PowRNat(2, t);
    PowRNat(2, t + 1);
    assert q + 1 <= Pow(2, t + 1);
  }

  /** With a truncated quotient of at least 56 bits and a sticky bit,
      round_to_d rounds the exact quotient x correctly. */
  lemma RoundCodeSticky(n: nat, d: nat, x: real, v: nat, eOffset: int, y: real, mode: Mode)
    requires d > 0 && mode != RNDZ && n / d >= Pow(2, 55)
    requires v == SetSticky(n / d, n % d != 0) && x == (n as real) / (d as real)
    requires y == x * PowR(2, -eOffset)
    ensures v > 0 && y > 0.0 && RoundCode(v, eOffset, mode) == RoundToDouble(y, mode)
  {
    hide RoundShift, RoundReal, RoundToDouble, RoundCode, PowR;
    var top := Log2(n / d);
    AtLeast55Bits(n / d);
    StickyTop(n / d, n % d != 0);
    FractionBinade(n, d);
    var s := top + 1 - Precision(top + 1 - eOffset);
    StickyMantissa(n, d, x, v, s, mode);
    CodeToDouble(x, top, v, s, eOffset, y, mode);
  }

  /** round_to_d is correct for x * 2^-eOffset as soon as v has the top bit of
      x and its rounding shift rounds x. */
  lemma CodeToDouble(x: real, top: nat, v: nat, s: int, eOffset: int, y: real, mode: Mode)
    requires mode != RNDZ && v > 0 && Log2(v) == top
    requires PowR(2, top) <= x < PowR(2, top + 1)
    requires s == top + 1 - Precision(top + 1 - eOffset)
    requires RoundShift(v, s, mode) == RoundReal(x * PowR(2, -s), mode)
    requires y == x * PowR(2, -eOffset)
    ensures y > 0.0 && RoundCode(v, eOffset, mode) == RoundToDouble(y, mode)
  {
    hide RoundShift, RoundReal, RoundToDouble, Normalize53, PowR, Log2;
    var e := top + 1 - eOffset;
    RMulStrict(PowR(2, -eOffset), 0.0, x);
    BinadeOf(x, top, eOffset);
    assert y * PowR(2, Precision(e) - e) == x * PowR(2, -s) by {
      PowRAdd(2, -eOffset, Precision(e) - e);
      RAssoc(x, PowR(2, -eOffset), PowR(2, Precision(e) - e));
    }
    RoundToDoubleIs(y, e, x * PowR(2, -s), mode, RoundShift(v, s, mode));
  }

  lemma AtLeast55Bits(q: nat)
    requires q >= Pow(2, 55)
    ensures q >= 2 && Log2(q) >= 55
  {
    hide Log2;
    if Log2(q) < 55 { PowMonoExp(2, Log2(q) + 1, 55); }
    PowMonoExp(2, 1, 55);
    assert Pow(2, 1) == 2;
  }

  lemma StickyMantissa(n: nat, d: nat, x: real, v: nat, s: int, mode: Mode)
    requires d > 0 && s >= 2
    requires v == SetSticky(n / d, n % d != 0) && x == (n as real) / (d as real)
    ensures RoundShift(v, s, mode) == RoundReal(x * PowR(2, -s), mode)
  {
    hide RoundDiv, RoundReal, Pow, PowR;
    StickyRounds(n, d, s, mode);
    RoundDivIsRound(n, d * Pow(2, s), mode);
    RealProduct(d, Pow(2, s));
    PowRNeg(2, s);
    DivideTwice(n as real, d as real, Pow(2, s) as real);
  }

  lemma DivideTwice(n: real, d: real, p: real)
    requires d > 0.0 && p > 0.0
    ensures d * p > 0.0
    ensures n / (d * p) == n / d * (1.0 / p)
  {
    var y := n / d * (1.0 / p);
    assert y * (d * p) == (n / d * d) * (1.0 / p * p);
  }

  /** mul_pow_round_to_d: a * radix^f rounded to a float64. */
  method MulPowRoundToD(a: Mpb, radix1: nat, radixShift: nat, f: int, mode: Mode)
    returns (m: nat, e: int)
    requires a.Normal() && a.Value() > 0 && IsOddPart(radix1) && mode != RNDZ
    modifies a
    ensures Scaled(old(a.Value()), 0, RadixOf(radix1, radixShift), f) > 0.0
    ensures (m, e) == RoundToDouble(Scaled(old(a.Value()), 0, RadixOf(radix1, radixShift), f), mode)
  {
    hide RoundCode, RoundToDouble, Scaled, StickyQuotient, Pow, PowR;
    ghost var v := a.Value();
    var eOffset := MulPow(a, radix1, radixShift, f, false, 55);
    if f >= 0 || radix1 == 1 {
      ExactToDouble(v, radix1, radixShift, f, mode);
    } else {
      TruncatedToDouble(v, radix1, radixShift, f, eOffset + f * radixShift, mode, a.Value());
    }
    m, e := RoundToD(a, eOffset, mode);
  }

  lemma ExactToDouble(v: nat, radix1: nat, radixShift: nat, f: int, mode: Mode)
    requires v > 0 && radix1 > 0 && mode != RNDZ && (f >= 0 || radix1 == 1)
    ensures v * Pow(radix1, Max(f, 0)) > 0
    ensures Scaled(v, 0, RadixOf(radix1, radixShift), f) > 0.0
    ensures RoundCode(v * Pow(radix1, Max(f, 0)), -f * radixShift, mode)
            == RoundToDouble(Scaled(v, 0, RadixOf(radix1, radixShift), f), mode)
  {
    hide RoundCode, RoundToDouble, Scaled, Pow, PowR, RadixOf;
    MulMono(1, v, Pow(radix1, Max(f, 0)));
    var w := v * Pow(radix1, Max(f, 0));
    assert w as real == (v as real) * PowR(radix1, f) by {
      RealProduct(v, Pow(radix1, Max(f, 0)));
      if f >= 0 { PowRNat(radix1, f); } else { PowROne(f); PowOne(0); }
    }
    var off := -f * radixShift;
    ScaledParts(v, 0, radix1, radixShift, f);
    assert -off == 0 + f * radixShift;
    RoundCodeExact(w, off, Scaled(v, 0, RadixOf(radix1, radixShift), f), mode);
  }

  lemma TruncatedToDouble(v: nat, radix1: nat, radixShift: nat, f: int, k: nat, mode: Mode, w: nat)
    requires v > 0 && radix1 > 0 && mode != RNDZ && f < 0
    requires w == StickyQuotient(v, k, radix1, -f) && w >= Pow(2, 55)
    ensures w > 0 && Scaled(v, 0, RadixOf(radix1, radixShift), f) > 0.0
    ensures RoundCode(w, k - f * radixShift, mode)
            == RoundToDouble(Scaled(v, 0, RadixOf(radix1, radixShift), f), mode)
  {
    hide RoundCode, RoundToDouble, Scaled, PowR, RadixOf;
    var n, d := v * Pow(2, k), Pow(radix1, -f);
    StickyAbove(n / d, n % d != 0);
    var x := (n as real) / (d as real);
    var off := k - f * radixShift;
    QuotientScaled(v, radix1, radixShift, f, k, x);
    RoundCodeSticky(n, d, x, w, off, Scaled(v, 0, RadixOf(radix1, radixShift), f), mode);
  }

  lemma QuotientScaled(v: nat, radix1: nat, radixShift: nat, f: int, k: nat, x: real)
    requires radix1 > 0 && f < 0
    requires x == ((v * Pow(2, k)) as real) / (Pow(radix1, -f) as real)
    ensures x * PowR(2, -(k - f * radixShift)) == Scaled(v, 0, RadixOf(radix1, radixShift), f)
  {
    hide Scaled, PowR, RadixOf;
    var off := k - f * radixShift;
    assert x == (v as real) * PowR(radix1, f) * PowR(2, k) by {
      TruncatedFraction(v, k, radix1, -f, 0);
      PowOneTerm(Pow(radix1, -f));
    }
    PowRAdd(2, k, -off);
    RAssoc((v as real) * PowR(radix1, f), PowR(2, k), PowR(2, -off));
    ScaledParts(v, 0, radix1, radixShift, f);
  }

  lemma PowOneTerm(d: nat)
    ensures d * Pow(2, 0) == d
  {
  }

  /** An even bound survives clearing the sticky bit. */
  lemma StickyAbove(q: nat, inexact: bool)
    requires SetSticky(q, inexact) >= Pow(2, 55)
    ensures q >= Pow(2, 55)
  {
    assert Pow(2, 55) == 2 * Pow(2, 54);
  }
}
