/** Scaling a number by a power of a radix and rounding it: pow_ui, mul_pow,
    mul_pow_round and round_to_d. */
module Scaling {
  import opened Arith
  import opened Limbs
  import opened Rounding
  import opened Bignum
  import opened Tables
  import opened Reals

  /** pow_ui: a^b in 64-bit arithmetic, by table for 5 and 10 and otherwise by
      squaring from the top bit of b down. */
  method PowUi(a: Limb, b: nat) returns (r: nat)
    ensures r == Pow(a, b) % BASE2
  {
    if b == 0 {
      return 1;
    }
    if b == 1 {
      assert Pow(a, 1) == a;
      return a;
    }
    if (a == 5 || a == 10) && b <= 17 {
      r := Pow5Entry(b);
      PowTable(b);
      if a == 10 {
        r := (r * Pow(2, b)) % BASE2;
      }
      return;
    }
    r := PowSquaring(a, b);
  }

  lemma PowTable(b: nat)
    requires 1 <= b <= 17
    ensures Pow5Entry(b) == Pow(5, b) == Pow(5, b) % BASE2
    ensures Pow5Entry(b) * Pow(2, b) == Pow(10, b)
  {
    Pow5Table(b);
    PowMulBase(5, 2, b);
    Pow5Small(b);
  }

  lemma Pow5Small(b: nat)
    requires 1 <= b <= 17
    ensures Pow5Entry(b) < BASE2
  {
  }

  method PowSquaring(a: Limb, b: nat) returns (r: nat)
    requires b >= 1
    ensures r == Pow(a, b) % BASE2
  {
    r := a;
    var i: int := Log2(b);
    TopBitOnly(b, i);
    assert Pow(a, 1) == a;
    ghost var h := 1;
    while i > 0
      invariant 0 <= i && h == b / Pow(2, i)
      invariant r == Pow(a, h) % BASE2
    {
      i := i - 1;
      var bit := b / Pow(2, i) % 2;
      NextBit(b, i);
      SquareStep(a, h);
      r := (r * r) % BASE2;
      if bit == 1 {
        r := (r * a) % BASE2;
      }
      h := 2 * h + bit;
    }
    assert Pow(2, 0) == 1;
  }

  /** Squaring doubles the exponent, and one more factor makes it odd. */
  lemma SquareStep(a: Limb, h: nat)
    ensures var r := Pow(a, h) % BASE2;
            && (r * r) % BASE2 == Pow(a, 2 * h) % BASE2
            && ((r * r) % BASE2 * a) % BASE2 == Pow(a, 2 * h + 1) % BASE2
  {
    PowAdd(a, h, h);
    assert h + h == 2 * h;
    SquareModStep(a, Pow(a, h), Pow(a, 2 * h));
  }

  lemma SquareModStep(a: Limb, x: nat, y: nat)
    requires y == x * x
    ensures ((x % BASE2) * (x % BASE2)) % BASE2 == y % BASE2
    ensures ((y % BASE2) * a) % BASE2 == (a * y) % BASE2
  {
    ModMul(x, x, BASE2);
    ModMul(y, a, BASE2);
  }

  lemma TopBitOnly(b: nat, i: nat)
    requires Pow(2, i) <= b < Pow(2, i + 1)
    ensures b / Pow(2, i) == 1
  {
  }

  lemma NextBit(b: nat, i: nat)
    ensures b / Pow(2, i) == 2 * (b / Pow(2, i + 1)) + b / Pow(2, i) % 2
  {
    DivTwice(b, Pow(2, i), 2);
    assert Pow(2, i + 1) == Pow(2, i) * 2;
  }

  /** pow_ui_inv: a^b shifted up to the top bit, with its inverse. */
  method PowUiInv(a: Limb, b: nat) returns (r: Limb, inv: Limb, shift: nat)
    requires b >= 1 && 0 < Pow(a, b) < BASE
    ensures shift < 32 && r == Pow(a, b) * Pow(2, shift)
    ensures Normalized(r) && IsInverse(inv, r)
  {
    var v: Limb;
    if a == 5 && b <= 13 {
      v := POW5[b - 1];
      Pow5Table(b);
      shift := Clz32(v);
      NormalizeLimb(v);
      r := v * Pow(2, shift);
      inv := POW5_INV[b - 1];
      Pow5Inverse(b, shift, r);
    } else {
      v := LimbPower(a, b);
      shift := Clz32(v);
      NormalizeLimb(v);
      r := v * Pow(2, shift);
      inv := UDiv1NormInit(r);
    }
  }

  lemma NormalizeLimb(v: Limb)
    requires v > 0
    ensures 0x8000_0000 <= v * Pow(2, Clz32(v)) < BASE
  {
    var s := Clz32(v);
    var k := 31 - s;
    assert Pow(2, k) <= v < Pow(2, k + 1);
    PowAdd(2, k, s);
    PowAdd(2, k + 1, s);
    Pow32();
    assert Pow(2, 32) == 2 * Pow(2, 31);
    MulMono(Pow(2, k), v, Pow(2, s));
    MulStrict(v, Pow(2, k + 1), Pow(2, s));
  }

  // ---- mul_pow ---------------------------------------------------------------

  /** The odd part of a radix, or 1 for a power of two. */
  predicate IsOddPart(radix1: nat) { 1 <= radix1 <= 35 && radix1 % 2 == 1 }

  /** v * 2^k / radix1^g, truncated, with a sticky low bit. */
  function StickyQuotient(v: nat, k: nat, radix1: nat, g: nat): nat
    requires radix1 > 0
  {
    SetSticky(v * Pow(2, k) / Pow(radix1, g), v * Pow(2, k) % Pow(radix1, g) != 0)
  }

  /** Powers of the odd part with at most DigitsPerLimb factors fit a limb. */
  lemma ChunkFits(radix1: nat, n: nat)
    requires IsOddPart(radix1) && radix1 != 1 && n <= DigitsPerLimb(radix1)
    ensures 0 < Pow(radix1, n) < BASE
  {
    LimbFits(radix1);
    PowMonoExp(radix1, n, DigitsPerLimb(radix1));
  }

  /** The upward loop of mul_pow: multiply by radix1^f, a limb's worth of
      factors at a time. */
  method MulUp(a: Mpb, radix1: nat, f0: nat)
    requires a.Normal() && a.Value() > 0 && IsOddPart(radix1) && radix1 != 1
    modifies a
    ensures a.Normal() && a.Value() == old(a.Value()) * Pow(radix1, f0)
  {
    var d := DigitsPerLimb(radix1);
    var f, n0, b := f0, 0, 0;
    assert Pow(radix1, 0) == 1;
    while f != 0
      invariant 0 <= f <= f0 && 0 <= n0 <= d
      invariant n0 == 0 || b == Pow(radix1, n0)
      invariant 0 <= b < BASE
      invariant a.Normal() && a.Value() > 0
      invariant a.Value() == old(a.Value()) * Pow(radix1, f0 - f)
    {
      var n := Min(f, d);
      ChunkFits(radix1, n);
      if n != n0 {
        b := LimbPower(radix1, n);
        n0 := n;
      }
      MulLimb(a, b);
      MoreFactors(old(a.Value()), radix1, f0 - f, n);
      f := f - n;
    }
  }

  method LimbPower(radix1: nat, n: nat) returns (b: Limb)
    requires radix1 < BASE && Pow(radix1, n) < BASE
    ensures b == Pow(radix1, n)
  {
    var p := PowUi(radix1, n);
    b := p % BASE;
  }

  lemma MoreFactors(v: nat, r: nat, m: nat, n: nat)
    ensures v * Pow(r, m) * Pow(r, n) == v * Pow(r, m + n)
  {
    PowAdd(r, m, n);
    MulAssoc(v, Pow(r, m), Pow(r, n));
  }

  /** One multiplication, appending the carry limb when there is one. */
  method MulLimb(a: Mpb, b: Limb)
    requires a.Normal() && a.Value() > 0 && b > 0
    modifies a
    ensures a.Normal() && a.Value() == old(a.Value()) * b && a.Value() > 0
  {
    NormalIff(a.tab);
    MulMono(1, b, a.Value());
    var h := a.Mul1(b, 0);
    NormalIff(a.tab);
    ValSnoc(a.tab, h);
    if h != 0 {
      a.tab := a.tab + [h];
    }
  }

  /** The downward loop of mul_pow: divide by radix1^g in chained steps, and
      record in the low bit whether any remainder was nonzero. */
  method DivDown(a: Mpb, radix1: nat, g: nat)
    requires a.Valid() && IsOddPart(radix1) && radix1 != 1
    modifies a
    ensures a.Valid()
    ensures a.Value() == SetSticky(old(a.Value()) / Pow(radix1, g), old(a.Value()) % Pow(radix1, g) != 0)
    ensures old(a.Normal()) ==> a.Normal()
  {
    var d := DigitsPerLimb(radix1);
    var f, n0, shift := g, 0, 0;
    var b: Limb, inv: Limb := 0, 0;
    var inexact := false;
    assert Pow(radix1, 0) == 1;
    while f != 0
      invariant 0 <= f <= g && 0 <= n0 <= d
      invariant n0 == 0 || (shift < 32 && b == Pow(radix1, n0) * Pow(2, shift)
                            && Normalized(b) && IsInverse(inv, b))
      invariant a.Valid() && (old(a.Normal()) ==> a.Normal())
      invariant a.Value() == old(a.Value()) / Pow(radix1, g - f)
      invariant inexact <==> old(a.Value()) % Pow(radix1, g - f) != 0
    {
      var n := Min(f, d);
      ChunkFits(radix1, n);
      if n != n0 {
        b, inv, shift := PowUiInv(radix1, n);
        n0 := n;
      }
      ghost var v, dn := a.Value(), Pow(radix1, n);
      var r := a.Div1Norm(dn, b, 0, inv, shift);
      DivModUnique(v, dn, a.Value(), r);
      a.Renorm();
      inexact := inexact || r != 0;
      PowAdd(radix1, g - f, n);
      DivTwice(old(a.Value()), Pow(radix1, g - f), dn);
      f := f - n;
    }
    LowBitOf(a.tab);
    if inexact && a.tab[0] % 2 == 0 {
      BumpLowLimb(a.tab);
      a.tab := a.tab[0 := a.tab[0] + 1];
    }
  }

  lemma LowBitOf(t: seq<Limb>)
    requires |t| >= 1
    ensures Val(t) % 2 == t[0] % 2
  {
  }

  lemma BumpLowLimb(t: seq<Limb>)
    requires |t| >= 1 && t[0] % 2 == 0
    ensures t[0] < BASE - 1 && Val(t[0 := t[0] + 1]) == Val(t) + 1
  {
  }

  /** mul_pow: multiply by (radix1 * 2^radixShift)^f, up to the factor
      2^-eOffset. For f < 0 the quotient is truncated with a sticky bit, and
      keeps at least e bits, or two bits below 2^e when isInt. */
  method MulPow(a: Mpb, radix1: nat, radixShift: nat, f: int, isInt: bool, e: int)
    returns (eOffset: int)
    requires a.Normal() && a.Value() > 0 && IsOddPart(radix1)
    requires isInt || e >= 0
    modifies a
    ensures a.Normal()
    ensures f >= 0 || radix1 == 1 ==>
              && a.Value() == old(a.Value()) * Pow(radix1, Max(f, 0))
              && eOffset == -f * radixShift
    ensures f < 0 && radix1 != 1 ==>
              && eOffset >= -f * radixShift
              && a.Value() == StickyQuotient(old(a.Value()), eOffset + f * radixShift, radix1, -f)
              && (isInt ==> eOffset >= e + 2)
              && (!isInt ==> a.Value() >= Pow(2, e))
  {
    eOffset := -f * radixShift;
    if radix1 != 1 {
      if f >= 0 {
        MulUp(a, radix1, f);
      } else {
        var g := -f;
        var d := DigitsPerLimb(radix1);
        var l := (g + d - 1) / d;
        eOffset := eOffset + l * 32;
        var extraBits;
        var top := a.FloorLog2();
        if !isInt {
          extraBits := Max(e - top, 0);
        } else {
          extraBits := Max(2 + e - eOffset, 0);
        }
        eOffset := eOffset + extraBits;
        ghost var v := a.Value();
        MulMono(1, v, Pow(2, l * 32 + extraBits));
        a.ShrRound(-(l * 32 + extraBits), RNDZ);
        DivDown(a, radix1, g);
        if !isInt {
          EnoughBits(v, top, radix1, g, l, extraBits, e);
        }
      }
    } else {
      PowOne(Max(f, 0));
    }
  }

  /** radix1^g takes at most ceil(g / d) limbs. */
  lemma DivisorLimbs(radix1: nat, g: nat, l: nat)
    requires IsOddPart(radix1) && radix1 != 1
    requires l == (g + DigitsPerLimb(radix1) - 1) / DigitsPerLimb(radix1)
    ensures Pow(radix1, g) <= Pow(2, l * 32)
  {
    var d := DigitsPerLimb(radix1);
    ChunkFits(radix1, d);
    DivModEq(g + d - 1, d);
    PowMonoExp(radix1, g, d * l);
    PowPow(radix1, d, l);
    PowMonoBase(Pow(radix1, d), BASE, l);
    BasePower(l);
  }

  lemma EnoughBits(v: nat, top: int, radix1: nat, g: nat, l: nat, extra: nat, e: nat)
    requires IsOddPart(radix1) && radix1 != 1
    requires l == (g + DigitsPerLimb(radix1) - 1) / DigitsPerLimb(radix1)
    requires top >= 0 && v >= Pow(2, top) && top + extra >= e
    ensures v * Pow(2, l * 32 + extra) / Pow(radix1, g) >= Pow(2, e)
  {
    DivisorLimbs(radix1, g, l);
    var n, dv, t := v * Pow(2, l * 32 + extra), Pow(radix1, g), Pow(2, e);
    MulMono(Pow(2, top), v, Pow(2, l * 32 + extra));
    PowAdd(2, top, l * 32 + extra);
    PowMonoExp(2, e + l * 32, top + (l * 32 + extra));
    PowAdd(2, e, l * 32);
    MulMono(dv, Pow(2, l * 32), t);
    assert t * dv <= n;
    QuotientAtLeast(n, dv, t);
  }

  // ---- mul_pow_round ---------------------------------------------------------

  /** m * 2^e * radix^f, exactly. */
  ghost function Scaled(m: nat, e: int, radix: nat, f: int): real
    requires radix > 0
  {
    (m as real) * PowR(2, e) * PowR(radix, f)
  }

  /** The radix a pair (radix1, radixShift) stands for. */
  function RadixOf(radix1: nat, radixShift: nat): (radix: nat)
    requires radix1 > 0
    ensures radix > 0
  {
    MulMono(1, radix1, Pow(2, radixShift));
    radix1 * Pow(2, radixShift)
  }

  /** Collecting the powers of two of m * 2^e * radix^f. */
  lemma ScaledParts(m: nat, e: int, radix1: nat, radixShift: nat, f: int)
    requires radix1 > 0
    ensures Scaled(m, e, RadixOf(radix1, radixShift), f)
            == (m as real) * PowR(radix1, f) * PowR(2, e + f * radixShift)
  {
    hide PowR;
    PowRMulBase(radix1, Pow(2, radixShift), f);
    PowRPow(2, radixShift, f);
    PowRAdd(2, e, f * radixShift);
    Regroup(m as real, PowR(2, e), PowR(radix1, f), PowR(2, f * radixShift));
  }

  lemma Regroup(m: real, a: real, b: real, c: real)
    ensures m * a * (b * c) == m * b * (a * c)
  {
  }

  /** Where mul_pow is exact, the final shift rounds the exact value. */
  lemma ExactScaling(m: nat, e: int, radix1: nat, radixShift: nat, f: int, mode: Mode)
    requires radix1 > 0 && (f >= 0 || radix1 == 1)
    ensures RoundShift(m * Pow(radix1, Max(f, 0)), -e + (-f * radixShift), mode)
            == RoundReal(Scaled(m, e, RadixOf(radix1, radixShift), f), mode)
  {
    hide RoundShift, RoundReal, Scaled, Pow, PowR, RadixOf;
    var v := m * Pow(radix1, Max(f, 0));
    assert v as real == (m as real) * PowR(radix1, f) by {
      RealProduct(m, Pow(radix1, Max(f, 0)));
      if f >= 0 { PowRNat(radix1, f); } else { PowROne(f); PowOne(0); }
    }
    ScaledParts(m, e, radix1, radixShift, f);
    RoundShiftIsRound(v, -e + (-f * radixShift), mode);
    assert -(-e + (-f * radixShift)) == e + f * radixShift;
  }

  /** m * 2^k / (radix1^g * 2^sh), exactly. */
  lemma TruncatedFraction(m: nat, k: nat, radix1: nat, g: nat, sh: nat)
    requires radix1 > 0
    ensures Pow(radix1, g) * Pow(2, sh) > 0
    ensures ((m * Pow(2, k)) as real) / ((Pow(radix1, g) * Pow(2, sh)) as real)
            == (m as real) * PowR(radix1, 0 - g) * PowR(2, k - sh)
  {
    hide PowR, Pow;
    MulMono(1, Pow(radix1, g), Pow(2, sh));
    PowRNat(2, k);
    PowRNat(radix1, g);
    PowRNat(2, sh);
    PowRInv(radix1, g);
    PowRInv(2, sh);
    PowRAdd(2, k, 0 - sh);
    DivideOut(m as real, PowR(2, k), PowR(radix1, g), PowR(2, sh), PowR(radix1, 0 - g), PowR(2, 0 - sh));
    RealProduct(m, Pow(2, k));
    RealProduct(Pow(radix1, g), Pow(2, sh));
  }

  lemma DivideOut(m: real, a: real, b: real, c: real, bi: real, ci: real)
    requires b > 0.0 && c > 0.0 && bi * b == 1.0 && ci * c == 1.0
    ensures b * c > 0.0
    ensures (m * a) / (b * c) == m * bi * (a * ci)
  {
    var x, y := m * a, m * bi * (a * ci);
    RMulStrict(b, 0.0, c);
    FourFactors(m, a, b, c, bi, ci);
    Ones(x, bi * b, ci * c);
    RCancel(b * c, x / (b * c), y);
  }

  lemma FourFactors(m: real, a: real, b: real, c: real, bi: real, ci: real)
    ensures (b * c) * (m * bi * (a * ci)) == (m * a) * ((bi * b) * (ci * c))
  {
  }

  lemma Ones(x: real, u: real, v: real)
    requires u == 1.0 && v == 1.0
    ensures x * (u * v) == x
  {
  }

  /** Where it is truncated, the sticky quotient rounds the exact value. */
  lemma TruncatedScaling(m: nat, e: int, radix1: nat, radixShift: nat, f: int, k: nat, mode: Mode)
    requires radix1 > 0 && f < 0 && -f * radixShift + k >= e + 2
    ensures RoundShift(StickyQuotient(m, k, radix1, -f), -e + (-f * radixShift + k), mode)
            == RoundReal(Scaled(m, e, RadixOf(radix1, radixShift), f), mode)
  {
    hide RoundDiv, RoundReal, Scaled, RadixOf, Pow, PowR;
    var n, d, sh := m * Pow(2, k), Pow(radix1, -f), -e + (-f * radixShift + k);
    StickyRounds(n, d, sh, mode);
    RoundDivIsRound(n, d * Pow(2, sh), mode);
    TruncatedFraction(m, k, radix1, -f, sh);
    ScaledParts(m, e, radix1, radixShift, f);
    assert k - sh == e + f * radixShift;
  }

  /** mul_pow_round: m * 2^e * radix^f rounded to an integer. */
  method MulPowRound(tmp: Mpb, m: nat, e: int, radix1: nat, radixShift: nat, f: int, mode: Mode)
    requires 0 < m < BASE2 && IsOddPart(radix1)
    modifies tmp
    ensures tmp.Valid() && (tmp.Value() > 0 ==> tmp.Normal())
    ensures tmp.Value() == RoundReal(Scaled(m, e, RadixOf(radix1, radixShift), f), mode)
  {
    hide RoundShift, RoundReal, Scaled, StickyQuotient;
    tmp.SetU64(m);
    var eOffset := MulPow(tmp, radix1, radixShift, f, true, e);
    if f >= 0 || radix1 == 1 {
      ExactScaling(m, e, radix1, radixShift, f, mode);
    } else {
      TruncatedScaling(m, e, radix1, radixShift, f, eOffset + f * radixShift, mode);
    }
    tmp.ShrRound(-e + eOffset, mode);
  }
}
