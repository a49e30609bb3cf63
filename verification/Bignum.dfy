/** Unbounded naturals as limb sequences updated in place (mpb_t). */
module Bignum {
  import opened Arith
  import opened Limbs
  import opened Rounding

  /** 2^32 splits at every bit position of a limb. */
  lemma BaseSplit(shift: nat)
    requires shift <= 32
    ensures Pow(2, shift) * Pow(2, 32 - shift) == BASE
    ensures 0 < Pow(2, shift) <= BASE && 0 < Pow(2, 32 - shift) <= BASE
  {
    PowAdd(2, shift, 32 - shift);
    Pow32();
    MulMono(1, Pow(2, 32 - shift), Pow(2, shift));
    MulMono(1, Pow(2, shift), Pow(2, 32 - shift));
  }

  lemma BasePower(n: nat)
    ensures Pow(BASE, n) == Pow(2, 32 * n)
  {
    Pow32();
    PowPow(2, 32, n);
  }

  /** Splitting x * p at the limb boundary when p * q == BASE. */
  lemma ShiftedLimb(x: Limb, p: nat, q: nat)
    requires p > 0 && q > 0 && p * q == BASE
    ensures x * p == (x * p) % BASE + BASE * (x / q)
    ensures (x * p) % BASE + p <= BASE
    ensures x / q < p
  {
    DivModEq(x, q);
    var hi, lo := x / q, x % q;
    MulDist(p, hi * q, lo);
    MulAssoc(hi, q, p);
    MulMono(lo + 1, q, p);
    MulDist(p, lo, 1);
    DivModUnique(x * p, BASE, hi, lo * p);
    if hi >= p { MulMono(p, hi, q); }
  }

  /** Keeping only the low limb of x * q keeps the low part of x. */
  lemma TruncatedShift(x: Limb, p: nat, q: nat)
    requires p > 0 && q > 0 && p * q == BASE
    ensures (x * q) % BASE == (x % p) * q
    ensures (x % p) * q + q <= BASE
  {
    DivModEq(x, p);
    var hi, lo := x / p, x % p;
    assert x * q == hi * BASE + lo * q by {
      assert (hi * p + lo) * q == hi * (p * q) + lo * q;
    }
    MulMono(lo + 1, p, q);
    assert (lo + 1) * q == lo * q + q;
    DivModUnique(x * q, BASE, hi, lo * q);
  }

  /** One step of a carry loop: x * b + c leaves a here and k above. */
  lemma CarryStep(p: int, x: int, b: int, c: int, a: int, k: int)
    requires x * b + c == a + BASE * k
    ensures p * (x * b) + p * c == p * a + (BASE * p) * k
  {
  }

  lemma ProductBound(x: Limb, b: Limb, c: Limb)
    ensures 0 <= x * b + c < BASE2
    ensures 0 <= (x * b + c) / BASE < BASE
  {
    NoOverflow(x, b, c);
  }

  /** Rewriting limb i of a sequence whose first i limbs are done. */
  lemma SetLimb(was: seq<Limb>, tab: seq<Limb>, i: nat, a: Limb)
    requires i < |tab| == |was|
    ensures tab[i := a][..i] == tab[..i]
    ensures tab[i := a][i + 1..] == tab[i + 1..]
    ensures Val(tab[i := a][..i + 1]) == Val(tab[..i]) + Pow(BASE, i) * a
    ensures Val(was[..i + 1]) == Val(was[..i]) + Pow(BASE, i) * was[i]
  {
    assert tab[i := a][..i] == tab[..i];
    ValPrefix(tab[i := a], i);
    ValPrefix(was, i);
  }

  /** One step of a division loop, from the most significant limb down: the
      digit q of r * BASE + x by b extends the quotient v of u. */
  lemma DivisionStep(u: int, v: int, b: int, r: int, h: int, x: int, q: int, r': int)
    requires v * b + r == u + h && r * BASE + x == q * b + r'
    ensures (q + BASE * v) * b + r' == (x + BASE * u) + BASE * h
  {
  }

  /** Rewriting limb i of a sequence whose limbs above i are done. */
  lemma SetLimbDown(was: seq<Limb>, tab: seq<Limb>, i: nat, a: Limb)
    requires i < |tab| == |was|
    ensures tab[i := a][i + 1..] == tab[i + 1..]
    ensures tab[i := a][..i] == tab[..i]
    ensures Val(tab[i := a][i..]) == a + BASE * Val(tab[i + 1..])
    ensures Val(was[i..]) == was[i] + BASE * Val(was[i + 1..])
  {
  }

  lemma RemainderLimb(r: int, x: Limb, b: int)
    requires 0 <= r < b
    ensures 0 <= (r * BASE + x) / b < BASE
    ensures 0 <= (r * BASE + x) % b < b
    ensures r * BASE + x == (r * BASE + x) / b * b + (r * BASE + x) % b
  {
  }

  lemma ShrLimb(a: Limb, l: Limb, p: nat, q: nat, limb: int)
    requires p > 0 && q > 0 && p * q == BASE
    requires limb == a / p + (l * q) % BASE
    ensures 0 <= limb < BASE
    ensures (l % p) * BASE + a == limb * p + a % p
  {
    TruncatedShift(l, p, q);
    DivModEq(a, p);
    if a / p >= q { MulMono(q, a / p, p); }
    MulDist(p, a / p, (l % p) * q);
    MulAssoc(l % p, q, p);
  }

  /** One step of mp_shr: u and v are the limbs above before and after. */
  lemma ShrStep(shift: nat, a: Limb, l: Limb, limb: int, u: nat, v: nat, bn: nat, h: nat)
    requires 1 <= shift < 32
    requires limb == a / Pow(2, shift) + (l * Pow(2, 32 - shift)) % BASE
    requires v * Pow(2, shift) + l % Pow(2, shift) == u + bn * h
    ensures 0 <= limb < BASE && 0 <= a % Pow(2, shift) < BASE
    ensures (limb + BASE * v) * Pow(2, shift) + a % Pow(2, shift)
            == (a + BASE * u) + (BASE * bn) * h
  {
    BaseSplit(shift);
    var p := Pow(2, shift);
    ShrLimb(a, l, p, Pow(2, 32 - shift), limb);
    DivisionStep(u, v, p, l % p, bn * h, a, limb, a % p);
    MulAssoc(BASE, bn, h);
  }

  /** One step of mp_shl: u and v are the limbs below before and after. */
  lemma ShlStep(shift: nat, x: Limb, c: int, u: nat, v: nat, bi: nat, low: nat)
    requires 1 <= shift < 32 && 0 <= c < Pow(2, shift)
    requires v + bi * c == u * Pow(2, shift) + low
    ensures 0 <= (x * Pow(2, shift)) % BASE + c < BASE
    ensures 0 <= x / Pow(2, 32 - shift) < Pow(2, shift)
    ensures 0 <= x / Pow(2, 32 - shift) < BASE
    ensures v + bi * ((x * Pow(2, shift)) % BASE + c) + (BASE * bi) * (x / Pow(2, 32 - shift))
            == (u + bi * x) * Pow(2, shift) + low
  {
    BaseSplit(shift);
    var p, q := Pow(2, shift), Pow(2, 32 - shift);
    ShiftedLimb(x, p, q);
    CarryStep(bi, x, p, c, (x * p) % BASE + c, x / q);
    MulDist(p, u, bi * x);
    MulAssoc(bi, x, p);
  }

  lemma BelowShifted(r: int, d: int, p: int, carry: int)
    requires 0 <= r < d && 0 <= carry < p
    ensures r * p + carry < d * p
  {
    MulMono(r + 1, d, p);
    MulDist(p, r, 1);
  }

  /** From q * (d * p) + r == n * p: dividing r by p gives the remainder of n. */
  lemma ScaleDown(q: int, d: int, p: int, r: int, n: int)
    requires p > 0 && q * (d * p) + r == n * p && 0 <= r < d * p
    ensures q * d + r / p == n && 0 <= r / p < d
  {
    var m := n - q * d;
    assert r == m * p by {
      MulDist(p, n, q * d);
      MulAssoc(q, d, p);
    }
    DivModUnique(r, p, m, 0);
    MulCancelLt(m, d, p);
    MulCancelLe(0, m, p);
  }

  lemma LowTwoLimbs(t: seq<Limb>)
    requires |t| >= 1
    ensures Val(t) % BASE2 == if |t| == 1 then t[0] else t[0] + t[1] * BASE
  {
  }

  lemma TopBit(lo: nat, n: nat, v: Limb)
    requires v > 0 && lo < Pow(BASE, n)
    ensures var e := 32 * n + Log2(v);
            Pow(2, e) <= lo + Pow(BASE, n) * v < Pow(2, e + 1)
  {
    BasePower(n);
    var k, b := Log2(v), Pow(BASE, n);
    PowAdd(2, 32 * n, k);
    PowAdd(2, 32 * n, k + 1);
    MulMono(Pow(2, k), v, b);
    MulMono(v + 1, Pow(2, k + 1), b);
    MulDist(b, v, 1);
  }

  lemma QuotientOf(n: nat, d: nat, q: nat, r: nat)
    requires 0 <= r < d && n == r + d * q
    ensures n / d == q && n % d == r
  {
    DivModUnique(n, d, q, r);
  }

  /** Dropping l limbs divides by BASE^l. */
  lemma DropLimbs(t: seq<Limb>, l: nat)
    requires l <= |t|
    ensures Val(t) / Pow(BASE, l) == Val(t[l..])
    ensures Val(t) % Pow(BASE, l) == Val(t[..l])
  {
    ValSplit(t, l);
    ValBound(t[..l]);
    QuotientOf(Val(t), Pow(BASE, l), Val(t[l..]), Val(t[..l]));
  }

  /** The bits below position j of limb l, and the bit there. */
  lemma BitOf(t: seq<Limb>, l: nat, j: nat)
    requires j < 32
    ensures Val(t) / Pow(2, 32 * l + j) % 2 == if l >= |t| then 0 else t[l] / Pow(2, j) % 2
  {
    PowAdd(2, 32 * l, j);
    BasePower(l);
    if l >= |t| {
      ValBound(t);
      PowMonoExp(BASE, |t|, l);
      MulMono(1, Pow(2, j), Pow(BASE, l));
      DivModUnique(Val(t), Pow(2, 32 * l + j), 0, Val(t));
    } else {
      DropLimbs(t, l);
      DivTwice(Val(t), Pow(BASE, l), Pow(2, j));
      ValSuffix(t, l);
      BitOfLow(t[l], Val(t[l + 1..]), j);
    }
  }

  lemma BitOfLow(x: Limb, rest: nat, j: nat)
    requires j < 32
    ensures (x + BASE * rest) / Pow(2, j) % 2 == x / Pow(2, j) % 2
    ensures (x + BASE * rest) % Pow(2, j) == x % Pow(2, j)
  {
    var p, q2 := Pow(2, j), Pow(2, 31 - j);
    BaseSplit(j);
    assert Pow(2, 32 - j) == 2 * q2;
    BitOfLowBy(x, rest, p, q2);
  }

  lemma BitOfLowBy(x: nat, rest: nat, p: nat, q2: nat)
    requires p > 0 && p * (2 * q2) == BASE
    ensures (x + BASE * rest) / p % 2 == x / p % 2
    ensures (x + BASE * rest) % p == x % p
  {
    var k := q2 * rest;
    assert BASE * rest == p * (2 * k) by {
      MulAssoc(p, 2 * q2, rest);
      MulAssoc(2, q2, rest);
    }
    DivAddMultiple(x, p, 2 * k);
  }

  /** What lies below bit position 32 * l + j. */
  lemma LowBits(t: seq<Limb>, l: nat, j: nat)
    requires j < 32
    ensures Val(t) % Pow(2, 32 * l + j) == 0
            <==> if l >= |t| then Val(t) == 0 else Val(t[..l]) == 0 && t[l] % Pow(2, j) == 0
  {
    PowAdd(2, 32 * l, j);
    BasePower(l);
    if l >= |t| {
      ValBound(t);
      PowMonoExp(BASE, |t|, l);
      MulMono(1, Pow(2, j), Pow(BASE, l));
      DivModUnique(Val(t), Pow(2, 32 * l + j), 0, Val(t));
    } else {
      DropLimbs(t, l);
      DivTwice(Val(t), Pow(BASE, l), Pow(2, j));
      ValSuffix(t, l);
      BitOfLow(t[l], Val(t[l + 1..]), j);
    }
  }

  /** A remainder modulo 2^shift against its half, read off the bits. */
  lemma HalfBit(v: nat, shift: nat)
    requires shift >= 1
    ensures var p, h := Pow(2, shift), Pow(2, shift - 1);
            && (2 * (v % p) > p <==> v / h % 2 == 1 && v % h != 0)
            && (2 * (v % p) == p <==> v / h % 2 == 1 && v % h == 0)
  {
    var h := Pow(2, shift - 1);
    DivTwice(v, h, 2);
    assert Pow(2, shift) == h * 2;
    DivModEq(v, h);
  }

  lemma MoveUp(t: seq<Limb>, l: nat)
    ensures Val(seq(l, i => 0) + t) == Val(t) * Pow(BASE, l)
  {
    ValZeros(l);
    ValConcat(seq(l, i => 0), t);
  }

  lemma DropSplit(t: seq<Limb>, l: nat, j: nat)
    requires j < 32
    ensures Val(t) / Pow(2, 32 * l + j)
            == if l >= |t| then 0 else Val(t[l..]) / Pow(2, j)
    ensures j == 0 && l < |t| ==> Val(t) / Pow(2, 32 * l + j) == Val(t[l..])
  {
    PowAdd(2, 32 * l, j);
    BasePower(l);
    if l >= |t| {
      ValBound(t);
      PowMonoExp(BASE, |t|, l);
      MulMono(1, Pow(2, j), Pow(BASE, l));
      DivModUnique(Val(t), Pow(2, 32 * l + j), 0, Val(t));
    } else {
      DropLimbs(t, l);
      DivTwice(Val(t), Pow(BASE, l), Pow(2, j));
    }
  }

  /** The top limb is nonzero exactly when the value needs all the limbs. */
  lemma NormalIff(t: seq<Limb>)
    requires |t| >= 1
    ensures t[|t| - 1] != 0 <==> Val(t) >= Pow(BASE, |t| - 1)
    ensures Val(t) < Pow(BASE, |t|)
  {
  }

  lemma LongerIsGreater(s: seq<Limb>, t: seq<Limb>)
    requires 1 <= |s| < |t| && t[|t| - 1] != 0
    ensures Val(s) < Val(t)
  {
  }

  lemma FirstDifference(s: seq<Limb>, t: seq<Limb>, i: nat)
    requires i < |s| == |t| && s[i + 1..] == t[i + 1..] && s[i] != t[i]
    ensures s[i] < t[i] <==> Val(s) < Val(t)
    ensures Val(s) != Val(t)
  {
    ValSplit(s, i + 1);
    ValSplit(t, i + 1);
    ValPrefix(s, i);
    ValPrefix(t, i);
    ValBound(s[..i]);
    ValBound(t[..i]);
    if s[i] < t[i] {
      HighDigitDecides(Val(s[..i]), s[i], Val(t[..i]), t[i], Pow(BASE, i));
    } else {
      HighDigitDecides(Val(t[..i]), t[i], Val(s[..i]), s[i], Pow(BASE, i));
    }
  }

  lemma HighDigitDecides(lo: nat, x: nat, lo': nat, y: nat, b: nat)
    requires lo < b && x < y
    ensures lo + b * x < lo' + b * y
  {
    MulMono(x + 1, y, b);
    MulDist(b, x, 1);
  }

  class Mpb {
    /** tab[0..len) of the C structure; never empty. */
    var tab: seq<Limb>

    ghost predicate Valid()
      reads this
    {
      |tab| >= 1
    }

    /** No leading zero limb, except for zero itself. */
    ghost predicate Normal()
      reads this
    {
      |tab| >= 1 && (|tab| == 1 || tab[|tab| - 1] != 0)
    }

    ghost function Value(): (v: nat)
      reads this
    {
      Val(tab)
    }

    constructor ()
      ensures Normal() && Value() == 0
    {
      tab := [0];
      new;
      ValSingle(0);
    }

    /** mp_add_ui: add b, stopping as soon as there is no carry. */
    method AddUi(b: Limb) returns (k: Limb)
      modifies this
      ensures |tab| == |old(tab)|
      ensures Value() + Pow(BASE, |tab|) * k == old(Value()) + b
    {
      k := b;
      var i := 0;
      while i < |tab| && k != 0
        invariant 0 <= i <= |tab| == |old(tab)|
        invariant tab[i..] == old(tab)[i..]
        invariant Val(tab[..i]) + Pow(BASE, i) * k == Val(old(tab)[..i]) + b
      {
        assert tab[i] == old(tab)[i..][0];
        var x: int, k0: int := tab[i], k;
        var a := (x + k0) % BASE;
        k := if a < k then 1 else 0;
        CarryStep(Pow(BASE, i), x, 1, k0, a, k);
        SetLimb(old(tab), tab, i, a);
        tab := tab[i := a];
        i := i + 1;
      }
      ValSplit(tab, i);
      ValSplit(old(tab), i);
    }

    /** mp_mul1: multiply by b and add l; the result is the carry limb. */
    method Mul1(b: Limb, l0: Limb) returns (l: Limb)
      modifies this
      ensures |tab| == |old(tab)|
      ensures Value() + Pow(BASE, |tab|) * l == old(Value()) * b + l0
    {
      l := l0;
      var i := 0;
      while i < |tab|
        invariant 0 <= i <= |tab| == |old(tab)|
        invariant tab[i..] == old(tab)[i..]
        invariant Val(tab[..i]) + Pow(BASE, i) * l == Val(old(tab)[..i]) * b + l0
      {
        assert tab[i] == old(tab)[i..][0];
        var x: int, c: int := tab[i], l;
        var t := x * b + c;
        ProductBound(x, b, c);
        l := t / BASE;
        CarryStep(Pow(BASE, i), x, b, c, t % BASE, l);
        SetLimb(old(tab), tab, i, t % BASE);
        MulDist(b, Val(old(tab)[..i]), Pow(BASE, i) * x);
        MulAssoc(Pow(BASE, i), x, b);
        tab := tab[i := t % BASE];
        i := i + 1;
      }
      assert tab[..i] == tab && old(tab)[..i] == old(tab);
    }

    /** mp_div1: divide by b with incoming remainder r0; the result is the
        remainder. */
    method Div1(b: Limb, r0: Limb) returns (r: Limb)
      requires r0 < b
      modifies this
      ensures |tab| == |old(tab)|
      ensures Value() * b + r == old(Value()) + r0 * Pow(BASE, |tab|) && r < b
    {
      r := r0;
      ghost var bn: nat := 1;
      var i := |tab|;
      while i > 0
        invariant 0 <= i <= |tab| == |old(tab)|
        invariant tab[..i] == old(tab)[..i]
        invariant bn == Pow(BASE, |tab| - i)
        invariant Val(tab[i..]) * b + r == Val(old(tab)[i..]) + bn * r0
        invariant r < b
      {
        i := i - 1;
        assert tab[i] == old(tab)[..i + 1][i];
        var a1 := r * BASE + tab[i];
        RemainderLimb(r, tab[i], b);
        DivisionStep(Val(old(tab)[i + 1..]), Val(tab[i + 1..]), b, r, bn * r0, tab[i], a1 / b, a1 % b);
        MulAssoc(BASE, bn, r0);
        SetLimbDown(old(tab), tab, i, a1 / b);
        tab := tab[i := a1 / b];
        r := a1 % b;
        bn := BASE * bn;
      }
      assert tab[0..] == tab && old(tab)[0..] == old(tab);
    }

    /** mp_shr: shift right by 1..31 bits, shifting in the low bits of high; the
        result is what was shifted out. */
    method Shr(shift: nat, high: Limb) returns (rem: Limb)
      requires 1 <= shift < 32
      modifies this
      ensures |tab| == |old(tab)|
      ensures Value() * Pow(2, shift) + rem
              == old(Value()) + (high % Pow(2, shift)) * Pow(BASE, |tab|)
      ensures rem < Pow(2, shift)
    {
      ghost var h := high % Pow(2, shift);
      ghost var bn: nat := 1;
      var l: int := high;
      var i := |tab|;
      while i > 0
        invariant 0 <= i <= |tab| == |old(tab)|
        invariant tab[..i] == old(tab)[..i]
        invariant 0 <= l < BASE && bn == Pow(BASE, |tab| - i)
        invariant Val(tab[i..]) * Pow(2, shift) + l % Pow(2, shift) == Val(old(tab)[i..]) + bn * h
      {
        i := i - 1;
        assert tab[i] == old(tab)[..i + 1][i];
        var a: int := tab[i];
        var limb: int := a / Pow(2, shift) + (l * Pow(2, 32 - shift)) % BASE;
        ShrStep(shift, a, l, limb, Val(old(tab)[i + 1..]), Val(tab[i + 1..]), bn, h);
        SetLimbDown(old(tab), tab, i, limb);
        tab := tab[i := limb];
        l := a;
        bn := BASE * bn;
      }
      assert tab[0..] == tab && old(tab)[0..] == old(tab);
      BaseSplit(shift);
      rem := l % Pow(2, shift);
    }

    /** mp_shl: shift left by 1..31 bits, shifting in low; the result is what
        was shifted out. */
    method Shl(shift: nat, low: Limb) returns (l: Limb)
      requires 1 <= shift < 32 && low < Pow(2, shift)
      modifies this
      ensures |tab| == |old(tab)|
      ensures Value() + Pow(BASE, |tab|) * l == old(Value()) * Pow(2, shift) + low
      ensures l < Pow(2, shift)
    {
      l := low;
      var i := 0;
      while i < |tab|
        invariant 0 <= i <= |tab| == |old(tab)|
        invariant tab[i..] == old(tab)[i..]
        invariant Val(tab[..i]) + Pow(BASE, i) * l == Val(old(tab)[..i]) * Pow(2, shift) + low
        invariant l < Pow(2, shift)
      {
        assert tab[i] == old(tab)[i..][0];
        var x: int, c: int := tab[i], l;
        ShlStep(shift, x, c, Val(old(tab)[..i]), Val(tab[..i]), Pow(BASE, i), low);
        var limb: int := (x * Pow(2, shift)) % BASE + c;
        SetLimb(old(tab), tab, i, limb);
        tab := tab[i := limb];
        l := x / Pow(2, 32 - shift);
        i := i + 1;
      }
      assert tab[..i] == tab && old(tab)[..i] == old(tab);
    }

    /** The digit loop of mp_div1norm: divide by a normalized limb through its
        inverse. */
    method DivNormalized(b: Limb, r0: Limb, inv: Limb) returns (r: Limb)
      requires Normalized(b) && IsInverse(inv, b) && r0 < b
      modifies this
      ensures |tab| == |old(tab)|
      ensures Value() * b + r == old(Value()) + r0 * Pow(BASE, |tab|) && r < b
    {
      r := r0;
      ghost var bn: nat := 1;
      var i := |tab|;
      while i > 0
        invariant 0 <= i <= |tab| == |old(tab)|
        invariant tab[..i] == old(tab)[..i]
        invariant bn == Pow(BASE, |tab| - i)
        invariant Val(tab[i..]) * b + r == Val(old(tab)[i..]) + bn * r0
        invariant r < b
      {
        i := i - 1;
        assert tab[i] == old(tab)[..i + 1][i];
        var q, r1 := UDiv1Norm(r, tab[i], b, inv);
        DivisionStep(Val(old(tab)[i + 1..]), Val(tab[i + 1..]), b, r, bn * r0, tab[i], q, r1);
        MulAssoc(BASE, bn, r0);
        SetLimbDown(old(tab), tab, i, q);
        tab := tab[i := q];
        r := r1;
        bn := BASE * bn;
      }
      assert tab[0..] == tab && old(tab)[0..] == old(tab);
    }

    /** mp_div1norm, called in place: b is d shifted left to be normalized, and
        the number is shifted by as much before dividing. */
    method Div1Norm(ghost d: Limb, b: Limb, r0: Limb, inv: Limb, shift: nat) returns (r: Limb)
      requires shift < 32 && b == d * Pow(2, shift)
      requires Normalized(b) && IsInverse(inv, b) && r0 < d
      modifies this
      ensures |tab| == |old(tab)|
      ensures Value() * d + r == old(Value()) + r0 * Pow(BASE, |tab|) && r < d
    {
      var p := Pow(2, shift);
      r := r0;
      if shift != 0 {
        var carry := Shl(shift, 0);
        BelowShifted(r, d, p, carry);
        r := r * p + carry;
      }
      assert Value() + r * Pow(BASE, |tab|) == (old(Value()) + r0 * Pow(BASE, |tab|)) * p by {
        MulDist(Pow(BASE, |tab|), r0 * p, r - r0 * p);
        MulDist(p, old(Value()), r0 * Pow(BASE, |tab|));
        MulSwap3(r0, p, Pow(BASE, |tab|));
      }
      r := DivNormalized(b, r, inv);
      ScaleDown(Value(), d, p, r, old(Value()) + r0 * Pow(BASE, |tab|));
      r := r / p;
    }

    /** mpb_renorm: drop leading zero limbs. */
    method Renorm()
      requires Valid()
      modifies this
      ensures Normal() && Value() == old(Value())
    {
      while |tab| > 1 && tab[|tab| - 1] == 0
        invariant |tab| >= 1 && Val(tab) == Val(old(tab))
      {
        var n := |tab| - 1;
        ValSplit(tab, n);
        ValSingle(0);
        assert tab[n..] == [0];
        tab := tab[..n];
      }
    }

    /** mpb_set_u64 */
    method SetU64(m: nat)
      requires m < BASE2
      modifies this
      ensures Normal() && Value() == m
    {
      var lo: Limb, hi: Limb := m % BASE, m / BASE;
      tab := if hi == 0 then [lo] else [lo, hi];
      ValSingle(lo);
      assert hi != 0 ==> tab == [lo] + [hi];
      ValSnoc([lo], hi);
      assert Pow(BASE, 1) == BASE;
    }

    /** mpb_get_u64: the low two limbs only. */
    method GetU64() returns (m: nat)
      requires Normal()
      ensures m == Value() % BASE2
    {
      LowTwoLimbs(tab);
      if |tab| == 1 {
        m := tab[0];
      } else {
        m := tab[0] + tab[1] * BASE;
      }
    }

    /** mpb_floor_log2: the position of the top bit, or -1 for zero. */
    method FloorLog2() returns (e: int)
      requires Normal()
      ensures Value() == 0 ==> e == -1
      ensures Value() > 0 ==> e >= 0 && Pow(2, e) <= Value() < Pow(2, e + 1)
    {
      var n := |tab| - 1;
      var v := tab[n];
      ValSplit(tab, n);
      assert tab[n..] == [v];
      ValSingle(v);
      if v == 0 {
        assert tab[..n] == [];
        e := -1;
      } else {
        ValBound(tab[..n]);
        TopBit(Val(tab[..n]), n, v);
        e := |tab| * 32 - 1 - Clz32(v);
      }
    }

    /** mpb_get_bit */
    method GetBit(k: nat) returns (bit: nat)
      requires Valid()
      ensures bit == Value() / Pow(2, k) % 2
    {
      var l, j := k / 32, k % 32;
      BitOf(tab, l, j);
      assert 32 * l + j == k;
      if l >= |tab| {
        bit := 0;
      } else {
        bit := tab[l] / Pow(2, j) % 2;
      }
    }

    /** The OR of all bits below position k, as a truth value. */
    method AnyBitBelow(k: nat) returns (any: bool)
      requires Valid()
      ensures any <==> Value() % Pow(2, k) != 0
    {
      var l, j := k / 32, k % 32;
      any := false;
      var i := 0;
      while i < Min(l, |tab|)
        invariant 0 <= i <= Min(l, |tab|)
        invariant any <==> Val(tab[..i]) != 0
      {
        ValPrefix(tab, i);
        if tab[i] > 0 { MulMono(1, tab[i], Pow(BASE, i)); }
        any := any || tab[i] != 0;
        i := i + 1;
      }
      LowBits(tab, l, j);
      assert 32 * l + j == k;
      if l < |tab| {
        any := any || tab[l] % Pow(2, j) != 0;
      } else {
        assert tab[..i] == tab;
      }
    }

    /** Whether dropping shift >= 1 bits must add one to the quotient. */
    method RoundBit(shift: nat, mode: Mode) returns (addOne: bool)
      requires Valid() && shift >= 1
      ensures addOne == RoundsUp(Value() / Pow(2, shift), Value() % Pow(2, shift), Pow(2, shift), mode)
    {
      HalfBit(Value(), shift);
      if mode == RNDZ {
        addOne := false;
      } else {
        var bit1 := GetBit(shift - 1);
        if bit1 == 1 {
          var bit2 := true;
          if mode == RNDN {
            bit2 := false;
            if shift >= 2 {
              bit2 := AnyBitBelow(shift - 1);
            }
          }
          if bit2 {
            addOne := true;
          } else {
            var odd := GetBit(shift);
            addOne := odd == 1;
          }
        } else {
          addOne := false;
        }
      }
    }

    /** Shift left by any number of bits: part of a limb, then whole limbs. */
    method ShiftUp(shift: nat)
      requires Valid()
      modifies this
      ensures Valid() && Value() == old(Value()) * Pow(2, shift)
      ensures old(Normal()) && Value() > 0 ==> Normal()
    {
      var l, j := shift / 32, shift % 32;
      assert shift == 32 * l + j;
      PowAdd(2, 32 * l, j);
      BasePower(l);
      if j != 0 {
        var top := Shl(j, 0);
        ValSnoc(tab, top);
        tab := tab + [top];
        Renorm();
      }
      assert Value() == old(Value()) * Pow(2, j);
      if l > 0 {
        MoveUp(tab, l);
        tab := seq(l, i => 0) + tab;
        MulSwap3(old(Value()), Pow(2, j), Pow(BASE, l));
        MulAssoc(old(Value()), Pow(BASE, l), Pow(2, j));
      }
    }

    /** Drop shift bits and add one if asked to. */
    method DropBits(shift: nat, addOne: bool)
      requires Normal()
      modifies this
      ensures Normal()
      ensures Value() == old(Value()) / Pow(2, shift) + if addOne then 1 else 0
    {
      var l, j := shift / 32, shift % 32;
      hide Pow, Val;
      assert shift == 32 * l + j;
      DropSplit(tab, l, j);
      if l >= |tab| {
        tab := [if addOne then 1 else 0];
        ValSingle(tab[0]);
      } else {
        if l > 0 {
          tab := tab[l..];
        }
        if j != 0 {
          ghost var v := Value();
          var rem := Shr(j, 0);
          DivModUnique(v, Pow(2, j), Value(), rem);
          Renorm();
        }
        if addOne {
          NormalIff(tab);
          var a := AddUi(1);
          ValSnoc(tab, a);
          NormalIff(tab);
          if a != 0 {
            tab := tab + [a];
          }
        }
      }
    }

    /** mpb_shr_round: round(r / 2^shift); a negative shift multiplies. */
    method ShrRound(shift: int, mode: Mode)
      requires Normal()
      modifies this
      ensures Valid() && Value() == RoundShift(old(Value()), shift, mode)
      ensures shift >= 0 || Value() > 0 ==> Normal()
    {
      if shift == 0 {
        assert Pow(2, 0) == 1;
        return;
      }
      if shift < 0 {
        ShiftUp(-shift);
      } else {
        var addOne := RoundBit(shift, mode);
        DropBits(shift, addOne);
      }
    }

    /** mpb_cmp: compare lengths, then limbs from the top. */
    method Cmp(b: Mpb) returns (c: int)
      requires Normal() && b.Normal()
      ensures c == if Value() < b.Value() then -1 else if Value() > b.Value() then 1 else 0
    {
      if |tab| < |b.tab| {
        LongerIsGreater(tab, b.tab);
        return -1;
      } else if |tab| > |b.tab| {
        LongerIsGreater(b.tab, tab);
        return 1;
      }
      var i := |tab|;
      while i > 0
        invariant 0 <= i <= |tab|
        invariant forall j :: i <= j < |tab| ==> tab[j] == b.tab[j]
      {
        i := i - 1;
        if tab[i] != b.tab[i] {
          assert tab[i + 1..] == b.tab[i + 1..];
          FirstDifference(tab, b.tab, i);
          return if tab[i] < b.tab[i] then -1 else 1;
        }
      }
      assert tab == b.tab;
      return 0;
    }

    /** mpb_mul1_base: multiply by radixBase, where 0 stands for 2^32, and
        add a. */
    method Mul1Base(radixBase: Limb, a: Limb)
      requires Normal()
      modifies this
      ensures Normal()
      ensures Value() == old(Value()) * (if radixBase == 0 then BASE else radixBase) + a
    {
      if tab[0] == 0 && |tab| == 1 {
        ValSingle(0);
        ValSingle(a);
        assert tab == [0];
        tab := [a];
      } else {
        if radixBase == 0 {
          ValSuffix([a] + tab, 0);
          assert ([a] + tab)[1..] == tab;
          tab := [a] + tab;
        } else {
          var h := Mul1(radixBase, a);
          ValSnoc(tab, h);
          tab := tab + [h];
        }
        Renorm();
      }
    }
  }
}
