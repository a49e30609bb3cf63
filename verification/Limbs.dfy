/** Base-2^32 limbs: the number a limb sequence stands for, and the
    division of two limbs by one through a precomputed inverse. */
module Limbs {
  import opened Arith

  const LIMB_BITS: nat := 32
  const BASE: nat := 0x1_0000_0000
  const BASE2: nat := 0x1_0000_0000_0000_0000

  type Limb = x: int | 0 <= x < 0x1_0000_0000

  /** The number sum(i, tab[i] * BASE^i). */
  function Val(tab: seq<Limb>): (v: nat)
  {
    if tab == [] then 0 else tab[0] + BASE * Val(tab[1..])
  }

  lemma {:induction false} ValConcat(a: seq<Limb>, b: seq<Limb>)
    ensures Val(a + b) == Val(a) + Pow(BASE, |a|) * Val(b)
  {
    if a == [] {
      assert a + b == b;
    } else {
      assert (a + b)[1..] == a[1..] + b;
      ValConcat(a[1..], b);
      MulAssoc(BASE, Pow(BASE, |a| - 1), Val(b));
    }
  }

  lemma {:induction false} ValBound(a: seq<Limb>)
    ensures Val(a) < Pow(BASE, |a|)
  {
    if a == [] {
    } else {
      ValBound(a[1..]);
    }
  }

  lemma ValSingle(x: Limb)
    ensures Val([x]) == x
  {
  }

  lemma ValSnoc(a: seq<Limb>, x: Limb)
    ensures Val(a + [x]) == Val(a) + Pow(BASE, |a|) * x
  {
    ValConcat(a, [x]);
    ValSingle(x);
  }

  /** Extending a prefix by one limb. */
  lemma ValPrefix(a: seq<Limb>, i: nat)
    requires i < |a|
    ensures Val(a[..i + 1]) == Val(a[..i]) + Pow(BASE, i) * a[i]
  {
    assert a[..i + 1] == a[..i] + [a[i]];
    ValSnoc(a[..i], a[i]);
  }

  /** Extending a suffix by one limb. */
  lemma ValSuffix(a: seq<Limb>, i: nat)
    requires i < |a|
    ensures Val(a[i..]) == a[i] + BASE * Val(a[i + 1..])
  {
  }

  lemma ValSplit(a: seq<Limb>, i: nat)
    requires i <= |a|
    ensures Val(a) == Val(a[..i]) + Pow(BASE, i) * Val(a[i..])
  {
    assert a == a[..i] + a[i..];
    ValConcat(a[..i], a[i..]);
  }

  lemma {:induction false} ValZeros(n: nat)
    ensures Val(seq(n, i => 0)) == 0
  {
    if n == 0 {
    } else {
      assert seq(n, i => 0)[1..] == seq(n - 1, i => 0);
      ValZeros(n - 1);
    }
  }

  lemma Pow32()
    ensures Pow(2, 32) == BASE
  {
    assert Pow(2, 8) == 256;
    PowAdd(2, 8, 8);
    PowAdd(2, 16, 16);
  }

  /** The position of the top bit of a positive number. */
  function Log2(n: nat): (e: nat)
    requires n > 0
    ensures Pow(2, e) <= n < Pow(2, e + 1)
  {
    if n == 1 then 0 else 1 + Log2(n / 2)
  }

  lemma Log2Unique(n: nat, e: nat)
    requires Pow(2, e) <= n < Pow(2, e + 1)
    ensures n > 0 && Log2(n) == e
  {
    var k := Log2(n);
    if k < e { PowMonoExp(2, k + 1, e); }
    if e < k { PowMonoExp(2, e + 1, k); }
  }

  /** Leading zero bits of a nonzero limb. */
  function Clz32(v: Limb): (n: nat)
    requires v > 0
    ensures n == 31 - Log2(v)
  {
    assert Log2(v) <= 31 by {
      if Log2(v) >= 32 { PowMonoExp(2, 32, Log2(v)); Pow32(); }
    }
    31 - Log2(v)
  }

  // ---- division by an invariant divisor ------------------------------------

  predicate Normalized(d: Limb) { d >= 0x8000_0000 }

  /** inv is floor((BASE^2 - 1) / d) - BASE: BASE + inv is the largest
      multiplier that keeps d below BASE^2. */
  ghost predicate IsInverse(inv: Limb, d: Limb)
  {
    BASE2 - d <= (BASE + inv) * d < BASE2
  }

  /** udiv1norm_init: a 64-bit division of the limb pair (-d - 1, -1). */
  method UDiv1NormInit(d: Limb) returns (inv: Limb)
    requires Normalized(d)
    ensures IsInverse(inv, d)
  {
    var a1, a0 := (BASE - d) - 1, BASE - 1;
    var n := a1 * BASE + a0;
    DivModEq(n, d);
    MulDist(d, BASE, n / d);
    if n / d >= BASE { MulMono(BASE, n / d, d); }
    inv := n / d;
  }

  /** An estimate xx / BASE of n / d that is low by w / (d * BASE) < 1 gives the
      true quotient or one below it. */
  lemma EstimateFloor(n: int, d: int, xx: int, q: int)
    requires d > 0
    requires 0 <= n * BASE - d * xx < d * BASE
    requires q * BASE <= xx < q * BASE + BASE
    ensures 0 <= n - q * d < 2 * d
  {
    var f := xx - q * BASE;
    assert d * xx == (q * d) * BASE + d * f by {
      assert d * (q * BASE + f) == d * (q * BASE) + d * f;
    }
    MulMono(f, BASE - 1, d);
  }

  /** How far d times the estimate falls short of n * BASE, as a sum of two
      products; s is a1 or a1 + 1 and c is subtracted from a0 in the latter
      case. */
  lemma ResidueIdentity(a1: int, a0: int, d: int, inv: int, s: int, c: int)
    requires (s == a1 && c == 0) || (s == a1 + 1 && c == BASE - d)
    ensures (a1 * BASE + a0) * BASE - d * (a1 * BASE + (inv * s + a0 - c))
            == (BASE2 - (BASE + inv) * d) * s + (BASE - d) * (a0 - c)
  {
  }

  /** With the top bit of a0 clear the estimate is
      a1 + floor((inv * a1 + a0) / BASE). */
  lemma EstimateLow(a1: Limb, a0: Limb, d: Limb, inv: Limb, q1: int)
    requires Normalized(d) && a1 < d && a0 < 0x8000_0000 && IsInverse(inv, d)
    requires q1 == a1 + (inv * a1 + a0) / BASE
    ensures 0 <= a1 * BASE + a0 - q1 * d < 2 * d
  {
    ResidueIdentity(a1, a0, d, inv, a1, 0);
    ResidueBound(BASE2 - (BASE + inv) * d, a1, a0, d);
    EstimateFloor(a1 * BASE + a0, d, a1 * BASE + (inv * a1 + a0), q1);
  }

  /** With it set, the estimate is
      a1 + floor((inv * (a1 + 1) + a0 + d - BASE) / BASE). */
  lemma EstimateHigh(a1: Limb, a0: Limb, d: Limb, inv: Limb, q1: int)
    requires Normalized(d) && a1 < d && a0 >= 0x8000_0000 && IsInverse(inv, d)
    requires q1 == a1 + (inv * (a1 + 1) + a0 + d - BASE) / BASE
    ensures 0 <= a1 * BASE + a0 - q1 * d < 2 * d
  {
    var s, c := a1 + 1, BASE - d;
    ResidueIdentity(a1, a0, d, inv, s, c);
    ResidueBound(BASE2 - (BASE + inv) * d, s, a0 - c, d);
    EstimateFloor(a1 * BASE + a0, d, a1 * BASE + (inv * s + a0 - c), q1);
  }

  lemma ResidueBound(k: int, s: int, y: int, d: int)
    requires 1 <= k <= d < BASE && 0 <= s <= d && 0 <= y <= d - 1
    ensures 0 <= k * s + (BASE - d) * y < d * BASE
  {
    var p, q, dd := k * s, (BASE - d) * y, d * d;
    assert 0 <= p <= dd by {
      MulMono(k, d, s);
      MulMono(s, d, d);
    }
    assert 0 <= q <= BASE * d - BASE - dd + d by {
      MulMono(y, d - 1, BASE - d);
      assert (BASE - d) * (d - 1) == BASE * d - BASE - d * d + d;
    }
  }

  /** The correction step: from an estimate q at most one too small, the
      wrapped 64-bit difference n - q * d - d tells by its high limb whether q
      or q + 1 is the quotient. */
  lemma Correction(n: int, q: int, d: Limb, a: int, q': int, r: int)
    requires 0 <= n - q * d < 2 * d
    requires a == (n - q * d - d) % BASE2
    requires if a / BASE == 0 then q' == q + 1 && r == a % BASE
             else q' == q && r == (a % BASE + d) % BASE
    ensures a / BASE == 0 || a / BASE == BASE - 1
    ensures n == q' * d + r && 0 <= r < d
  {
    var e := n - q * d - d;
    MulDist(d, q, 1);
    if e < 0 {
      DivModUnique(e, BASE2, -1, e + BASE2);
    } else {
      DivModUnique(e, BASE2, 0, e);
    }
  }

  lemma QuotientIsLimb(a1: Limb, a0: Limb, d: Limb, q: int)
    requires a1 < d && q * d <= a1 * BASE + a0
    ensures q < BASE
  {
    if q >= BASE {
      MulMono(BASE, q, d);
    }
  }

  lemma NoOverflow(x: Limb, y: Limb, z: Limb)
    ensures 0 <= x * y + z < BASE2
  {
    assert 0 <= x * y <= (BASE - 1) * y by {
      MulMono(x, BASE - 1, y);
      MulMono(0, x, y);
    }
  }

  lemma EstimateBounds(a1: Limb, a0: Limb, d: Limb, inv: Limb, s: Limb, nAdj: Limb, x: int, q: int)
    requires Normalized(d) && a1 < d && IsInverse(inv, d)
    requires if a0 < 0x8000_0000 then s == a1 && nAdj == a0
             else s == a1 + 1 && nAdj == a0 + d - BASE
    requires x == inv * s + nAdj && q == a1 + x / BASE
    ensures 0 <= x < BASE2 && 0 <= q < BASE
    ensures 0 <= a1 * BASE + a0 - q * d < 2 * d
  {
    NoOverflow(inv, s, nAdj);
    if a0 < 0x8000_0000 {
      EstimateLow(a1, a0, d, inv, q);
    } else {
      EstimateHigh(a1, a0, d, inv, q);
    }
    QuotientIsLimb(a1, a0, d, q);
  }

  lemma NoWrap(x: int, a1: int, q: int)
    requires 0 <= x < BASE2 && 0 <= q < BASE && q == a1 + x / BASE
    ensures (x % BASE2 / BASE + a1) % BASE == q
  {
  }

  lemma WrapUp(q0: int, ah: int, q1: int)
    requires 0 <= q0 < BASE && 0 <= q1 < BASE
    requires (ah == 0 && q1 == q0 + 1) || (ah == BASE - 1 && q1 == q0)
    ensures (q0 + 1 + ah) % BASE == q1
  {
  }

  /** The branch-free adjustment of both limbs by the sign bit of a0. */
  method Adjust(a1: Limb, a0: Limb, d: Limb) returns (s: Limb, nAdj: Limb)
    requires Normalized(d) && a1 < d
    ensures if a0 < 0x8000_0000 then s == a1 && nAdj == a0
            else s == a1 + 1 && nAdj == a0 + d - BASE
  {
    // n1m is the sign bit spread over the limb: 0 or BASE - 1
    var n1m: Limb := if a0 >= 0x8000_0000 then BASE - 1 else 0;
    nAdj := (a0 + (if n1m == 0 then 0 else d)) % BASE;
    s := (a1 - n1m) % BASE;
  }

  /** The estimate q = a1 + floor((inv * (a1 - n1m) + n_adj) / BASE), wrapped to
      the widths the code uses. */
  method Estimate(a1: Limb, a0: Limb, d: Limb, inv: Limb) returns (q: Limb)
    requires Normalized(d) && a1 < d && IsInverse(inv, d)
    ensures 0 <= a1 * BASE + a0 - q * d < 2 * d
  {
    var s, nAdj := Adjust(a1, a0, d);
    var x := inv * s + nAdj;
    ghost var q1 := a1 + x / BASE;
    EstimateBounds(a1, a0, d, inv, s, nAdj, x, q1);
    NoWrap(x, a1, q1);
    q := (x % BASE2 / BASE + a1) % BASE;
  }

  /** Quotient and remainder of a1 * BASE + a0 by d, computed in 32- and
      64-bit wrap-around arithmetic with the inverse of d. */
  method UDiv1Norm(a1: Limb, a0: Limb, d: Limb, inv: Limb) returns (q: Limb, r: Limb)
    requires Normalized(d) && a1 < d && IsInverse(inv, d)
    ensures a1 * BASE + a0 == q * d + r && r < d
  {
    var q0 := Estimate(a1, a0, d, inv);
    var n := a1 * BASE + a0;
    var a := (n - q0 * d - d) % BASE2;
    var ah := a / BASE;
    r := (a % BASE + (if ah == 0 then 0 else d)) % BASE;
    ghost var q1 := if ah == 0 then q0 + 1 else q0;
    Correction(n, q0, d, a, q1, r);
    QuotientIsLimb(a1, a0, d, q1);
    WrapUp(q0, ah, q1);
    q := (q0 + 1 + ah) % BASE;
  }
}
