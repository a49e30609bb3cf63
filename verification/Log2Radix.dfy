/** mul_log2_radix: the exact floor of a / log2(radix) over the exponents of a
    float64, by an integer multiplication. */
module Log2Radix {
  import opened Arith
  import opened Reals
  import opened Tables

  const MULT: seq<nat> :=
    [0x000000, 0xa1849d, 0x000000, 0x6e40d2,
     0x6308c9, 0x5b3065, 0x000000, 0x50c24e,
     0x4d104d, 0x4a0027, 0x4768ce, 0x452e54,
     0x433d00, 0x418677, 0x000000, 0x3ea16b,
     0x3d645a, 0x3c43c2, 0x3b3b9a, 0x3a4899,
     0x39680b, 0x3897b3, 0x37d5af, 0x372069,
     0x367686, 0x35d6df, 0x354072, 0x34b261,
     0x342bea, 0x33ac62, 0x000000, 0x32bfd9,
     0x3251dd, 0x31e8d6, 0x318465]

  const SCALE: nat := 0x100_0000

  predicate IsPowerOfTwo(radix: nat)
    requires IsRadix(radix)
  {
    radix == 2 || radix == 4 || radix == 8 || radix == 16 || radix == 32
  }

  function RadixBits(radix: nat): (b: nat)
    requires IsRadix(radix) && IsPowerOfTwo(radix)
    ensures b >= 1 && Pow(2, b) == radix
  {
    var b := if radix == 2 then 1 else if radix == 4 then 2 else if radix == 8 then 3
             else if radix == 16 then 4 else 5;
    FastPowIsPow(2, b);
    b
  }

  /** The division of C: toward zero. */
  function TruncDiv(a: int, b: nat): int
    requires b > 0
  {
    if a >= 0 then a / b else -(-a / b)
  }

  function MulLog2Radix(a: int, radix: nat): int
    requires IsRadix(radix)
  {
    if IsPowerOfTwo(radix) then
      var b := RadixBits(radix);
      TruncDiv(if a < 0 then a - (b - 1) else a, b)
    else
      (a * MULT[radix - 2]) / SCALE
  }

  /** radix^k <= 2^a < radix^(k + 1) */
  ghost predicate IsFloorLog(radix: nat, a: int, k: int)
    requires radix > 0
  {
    PowR(radix, k) <= PowR(2, a) < PowR(radix, k + 1)
  }

  // ---- powers of two -------------------------------------------------------------

  lemma TruncDivFloor(a: int, b: nat)
    requires b > 0
    ensures var k := TruncDiv(if a < 0 then a - (b - 1) else a, b);
            k * b <= a < (k + 1) * b
  {
    if a >= 0 {
      DivModEq(a, b);
      MulDist(b, a / b, 1);
    } else {
      var n := -a + b - 1;
      DivModEq(n, b);
      MulDist(b, -(n / b), 1);
    }
  }

  lemma PowerOfTwoLog(a: int, radix: nat)
    requires IsRadix(radix) && IsPowerOfTwo(radix)
    ensures IsFloorLog(radix, a, MulLog2Radix(a, radix))
  {
    hide PowR;
    var b, k := RadixBits(radix), MulLog2Radix(a, radix);
    TruncDivFloor(a, b);
    PowRPow(2, b, k);
    PowRPow(2, b, k + 1);
    PowRMono(2, b * k, a);
    PowRStrict(2, a, b * (k + 1));
  }

  // ---- other radices ---------------------------------------------------------------

  /** No fraction with a denominator below q1 + q2 lies strictly between
      neighbours p1 / q1 and p2 / q2. */
  lemma NothingBetween(p1: nat, q1: nat, p2: nat, q2: nat, n: int, b: nat)
    requires q1 > 0 && q2 > 0 && p2 * q1 == p1 * q2 + 1
    requires b * p1 < n * q1 && n * q2 < b * p2
    ensures b >= q1 + q2
  {
    var x, y := b * p2 - n * q2, n * q1 - b * p1;
    assert q1 * x + q2 * y == b by {
      MulDist(q1, b * p2, n * q2);
      MulDist(q2, n * q1, b * p1);
      assert q1 * (n * q2) == q2 * (n * q1);
      assert q1 * (b * p2) == b * (p2 * q1);
      assert q2 * (b * p1) == b * (p1 * q2);
      MulDist(b, p1 * q2, 1);
    }
    MulMono(1, x, q1);
    MulMono(1, y, q2);
  }

  /** From r^p1 < 2^q1 and n / b <= p1 / q1: r^n < 2^b. */
  lemma LowerPower(r: nat, n: nat, b: nat, p1: nat, q1: nat)
    requires r >= 1 && q1 > 0 && b > 0 && Pow(r, p1) < Pow(2, q1) && n * q1 <= b * p1
    ensures Pow(r, n) < Pow(2, b)
  {
    hide Pow;
    PowPow(r, n, q1);
    PowMonoExp(r, n * q1, p1 * b);
    PowPow(r, p1, b);
    PowStrictBase(Pow(r, p1), Pow(2, q1), b);
    PowPow(2, q1, b);
    PowPow(2, b, q1);
    RootLess(Pow(r, n), Pow(2, b), q1);
  }

  /** From 2^q2 < r^p2 and p2 / q2 <= n / b: 2^b < r^n. */
  lemma UpperPower(r: nat, n: nat, b: nat, p2: nat, q2: nat)
    requires r >= 1 && q2 > 0 && b > 0 && Pow(2, q2) < Pow(r, p2) && b * p2 <= n * q2
    ensures Pow(2, b) < Pow(r, n)
  {
    hide Pow;
    PowPow(2, b, q2);
    PowPow(2, q2, b);
    PowStrictBase(Pow(2, q2), Pow(r, p2), b);
    PowPow(r, p2, b);
    PowMonoExp(r, p2 * b, n * q2);
    PowPow(r, n, q2);
    RootLess(Pow(2, b), Pow(r, n), q2);
  }

  lemma RootLess(x: nat, y: nat, q: nat)
    requires Pow(x, q) < Pow(y, q)
    ensures x < y
  {
    if x >= y { PowMonoBase(y, x, q); }
  }

  /** mult / SCALE lies strictly between neighbouring fractions on either side of
      log_radix(2). */
  ghost predicate Bracketed(radix: nat, mult: nat, p1: nat, q1: nat, p2: nat, q2: nat)
  {
    && q1 > 0 && q2 > 0 && p2 * q1 == p1 * q2 + 1 && q1 + q2 > 2048
    && p1 * SCALE < mult * q1 && mult * q2 < p2 * SCALE
    && Pow(radix, p1) < Pow(2, q1) && Pow(2, q2) < Pow(radix, p2)
  }

  /** The multiplication then rounds b / log2(radix) down, and up, correctly. */
  lemma BracketedPowers(radix: nat, mult: nat, p1: nat, q1: nat, p2: nat, q2: nat, b: nat, n: nat)
    requires radix >= 1 && Bracketed(radix, mult, p1, q1, p2, q2) && 0 < b <= 2048
    ensures n * SCALE <= b * mult ==> Pow(radix, n) < Pow(2, b)
    ensures n * SCALE >= b * mult ==> Pow(2, b) < Pow(radix, n)
  {
    if n * SCALE <= b * mult {
      BelowUpper(n, b, mult, p2, q2);
      if n * q1 > b * p1 { NothingBetween(p1, q1, p2, q2, n, b); }
      LowerPower(radix, n, b, p1, q1);
    }
    if n * SCALE >= b * mult {
      AboveLower(n, b, mult, p1, q1);
      if n * q2 < b * p2 { NothingBetween(p1, q1, p2, q2, n, b); }
      UpperPower(radix, n, b, p2, q2);
    }
  }

  lemma BelowUpper(n: nat, b: nat, mult: nat, p2: nat, q2: nat)
    requires b > 0 && q2 > 0 && n * SCALE <= b * mult && mult * q2 < p2 * SCALE
    ensures n * q2 < b * p2
  {
    MulMono(n * SCALE, b * mult, q2);
    MulStrict(mult * q2, p2 * SCALE, b);
    assert (n * q2) * SCALE < (b * p2) * SCALE by {
      assert (n * SCALE) * q2 == (n * q2) * SCALE;
      MulAssoc(b, mult, q2);
      MulAssoc(b, p2, SCALE);
    }
    MulCancelLt(n * q2, b * p2, SCALE);
  }

  lemma AboveLower(n: nat, b: nat, mult: nat, p1: nat, q1: nat)
    requires b > 0 && q1 > 0 && n * SCALE >= b * mult && p1 * SCALE < mult * q1
    ensures b * p1 < n * q1
  {
    MulMono(b * mult, n * SCALE, q1);
    MulStrict(p1 * SCALE, mult * q1, b);
    assert (b * p1) * SCALE < (n * q1) * SCALE by {
      assert (n * SCALE) * q1 == (n * q1) * SCALE;
      MulAssoc(b, mult, q1);
      MulAssoc(b, p1, SCALE);
    }
    MulCancelLt(b * p1, n * q1, SCALE);
  }

  /** So floor(a * mult / SCALE) is the floor of a / log2(radix). */
  lemma BracketedLog(radix: nat, mult: nat, p1: nat, q1: nat, p2: nat, q2: nat, a: int, k: int)
    requires radix >= 2 && Bracketed(radix, mult, p1, q1, p2, q2)
    requires -2048 <= a <= 2047 && k * SCALE <= a * mult < (k + 1) * SCALE
    ensures IsFloorLog(radix, a, k)
  {
    hide Bracketed;
    if a > 0 {
      PositiveLog(a, mult, k);
      BracketedPowers(radix, mult, p1, q1, p2, q2, a, k);
      BracketedPowers(radix, mult, p1, q1, p2, q2, a, k + 1);
    } else if a < 0 {
      NegativeLog(a, mult, k);
      var c := -k;
      BracketedPowers(radix, mult, p1, q1, p2, q2, -a, c);
      BracketedPowers(radix, mult, p1, q1, p2, q2, -a, c - 1);
      InverseOrder(Pow(2, -a) as real, Pow(radix, c) as real);
      InverseOrder(Pow(radix, c - 1) as real, Pow(2, -a) as real);
      PowRNeg(radix, c);
      PowRNeg(radix, c - 1);
    } else {
      assert k == 0;
      PowRZero(radix);
      PowRZero(2);
    }
  }

  lemma PositiveLog(a: int, mult: nat, k: int)
    requires a > 0 && k * SCALE <= a * mult < (k + 1) * SCALE
    ensures k >= 0
  {
    MulMono(0, mult, a);
  }

  lemma NegativeLog(a: int, mult: nat, k: int)
    requires a < 0 && k * SCALE <= a * mult < (k + 1) * SCALE && mult >= 0
    ensures mult > 0 ==> k < 0
    ensures -k * SCALE >= -a * mult && (-k - 1) * SCALE <= -a * mult
  {
    if mult > 0 { MulMono(1, mult, -a); }
    assert -a * mult == -(a * mult);
  }

  lemma InverseOrder(x: real, y: real)
    requires 0.0 < x < y
    ensures 1.0 / y < 1.0 / x
  {
    var i, j := 1.0 / x, 1.0 / y;
    assert i * x == 1.0 && j * y == 1.0;
    if j >= i { RMulMono(x, i, j); RMulStrict(j, x, y); }
  }

  // ---- the table -------------------------------------------------------------------

  /** r^(3 a + b) < 2^q from a bound on r^a. */
  lemma CubeBelow(r: nat, p: nat, q: nat, a: nat, b: nat, u: nat, x: nat)
    requires p == a + (a + (a + b)) && q >= x + (x + x)
    requires FastPow(r, a) <= u * FastPow(2, x)
    requires u * (u * (u * FastPow(r, b))) < FastPow(2, q - (x + (x + x)))
    ensures Pow(r, p) < Pow(2, q)
  {
    CubePowers(r, a, b, x, q);
    CubeUpper(Pow(r, a), Pow(r, b), u, Pow(2, x), Pow(2, q - (x + (x + x))));
  }

  /** 2^q < r^(3 a + b) from a bound on r^a. */
  lemma CubeAbove(r: nat, p: nat, q: nat, a: nat, b: nat, u: nat, x: nat)
    requires p == a + (a + (a + b)) && q >= x + (x + x)
    requires u * FastPow(2, x) <= FastPow(r, a)
    requires FastPow(2, q - (x + (x + x))) < u * (u * (u * FastPow(r, b)))
    ensures Pow(2, q) < Pow(r, p)
  {
    CubePowers(r, a, b, x, q);
    CubeLower(Pow(r, a), Pow(r, b), u, Pow(2, x), Pow(2, q - (x + (x + x))));
  }

  lemma CubePowers(r: nat, a: nat, b: nat, x: nat, q: nat)
    requires q >= x + (x + x)
    ensures Pow(r, a + (a + (a + b))) == Pow(r, a) * (Pow(r, a) * (Pow(r, a) * Pow(r, b)))
    ensures Pow(2, q) == Pow(2, x) * (Pow(2, x) * (Pow(2, x) * Pow(2, q - (x + (x + x)))))
    ensures FastPow(r, a) == Pow(r, a) && FastPow(r, b) == Pow(r, b)
    ensures FastPow(2, x) == Pow(2, x)
    ensures FastPow(2, q - (x + (x + x))) == Pow(2, q - (x + (x + x)))
  {
    hide Pow, FastPow;
    var c := q - (x + (x + x));
    PowAdd(r, a, b);
    PowAdd(r, a, a + b);
    PowAdd(r, a, a + (a + b));
    PowAdd(2, x, c);
    PowAdd(2, x, x + c);
    PowAdd(2, x, x + (x + c));
    assert q == x + (x + (x + c));
    FastPowIsPow(r, a);
    FastPowIsPow(r, b);
    FastPowIsPow(2, x);
    FastPowIsPow(2, c);
  }

  lemma CubeUpper(ra: nat, rb: nat, u: nat, t: nat, c: nat)
    requires ra <= u * t && u * (u * (u * rb)) < c && t > 0
    ensures ra * (ra * (ra * rb)) < t * (t * (t * c))
  {
    var n1, n2 := ra * rb, ra * (ra * rb);
    MulMono(ra, u * t, rb);
    MulMono(ra, u * t, n1);
    MulMono(ra, u * t, n2);
    Pull(u, t, rb);
    MulMono(n1, t * (u * rb), u * t);
    PullTwice(u, t, u * rb);
    MulMono(n2, t * (t * (u * (u * rb))), u * t);
    PullThrice(u, t, u * (u * rb));
    ThriceStrict(t, u * (u * (u * rb)), c);
  }

  lemma CubeLower(ra: nat, rb: nat, u: nat, t: nat, c: nat)
    requires u * t <= ra && c < u * (u * (u * rb)) && t > 0
    ensures t * (t * (t * c)) < ra * (ra * (ra * rb))
  {
    var n1, n2 := ra * rb, ra * (ra * rb);
    MulMono(u * t, ra, rb);
    MulMono(u * t, ra, n1);
    MulMono(u * t, ra, n2);
    Pull(u, t, rb);
    MulMono(t * (u * rb), n1, u * t);
    PullTwice(u, t, u * rb);
    MulMono(t * (t * (u * (u * rb))), n2, u * t);
    PullThrice(u, t, u * (u * rb));
    ThriceStrict(t, c, u * (u * (u * rb)));
  }

  lemma Pull(u: nat, t: nat, z: nat)
    ensures (u * t) * z == t * (u * z)
  {
    MulAssoc(t, u, z);
  }

  lemma PullTwice(u: nat, t: nat, z: nat)
    ensures (u * t) * (t * z) == t * (t * (u * z))
  {
    Pull(u, t, t * z);
    MulAssoc(u, t, z);
    Pull(u, t, z);
  }

  lemma PullThrice(u: nat, t: nat, z: nat)
    ensures (u * t) * (t * (t * z)) == t * (t * (t * (u * z)))
  {
    PullTwice(u, t, t * z);
    MulAssoc(u, t, z);
    Pull(u, t, z);
  }

  lemma ThriceStrict(t: nat, x: nat, y: nat)
    requires t > 0 && x < y
    ensures t * (t * (t * x)) < t * (t * (t * y))
  {
    MulStrict(x, y, t);
    MulStrict(t * x, t * y, t);
    MulStrict(t * (t * x), t * (t * y), t);
  }

  /** u^3 times the rest of r^p is below the rest of 2^q, and r^a <= u 2^x. */
  ghost predicate CubeBelow?(r: nat, p: nat, q: nat, a: nat, u: nat, x: nat)
  {
    && a + (a + a) <= p && x + (x + x) <= q
    && FastPow(r, a) <= u * FastPow(2, x)
    && u * (u * (u * FastPow(r, p - (a + (a + a))))) < FastPow(2, q - (x + (x + x)))
  }

  ghost predicate CubeAbove?(r: nat, p: nat, q: nat, a: nat, u: nat, x: nat)
  {
    && a + (a + a) <= p && x + (x + x) <= q
    && u * FastPow(2, x) <= FastPow(r, a)
    && FastPow(2, q - (x + (x + x))) < u * (u * (u * FastPow(r, p - (a + (a + a)))))
  }

  ghost predicate Neighbours(mult: nat, p1: nat, q1: nat, p2: nat, q2: nat)
  {
    && q1 > 0 && q2 > 0 && p2 * q1 == p1 * q2 + 1 && q1 + q2 > 2048
    && p1 * SCALE < mult * q1 && mult * q2 < p2 * SCALE
  }

  lemma CertifiedBracket(radix: nat, mult: nat, p1: nat, q1: nat, p2: nat, q2: nat,
                         a: nat, u: nat, x: nat, c: nat, v: nat, y: nat)
    requires Neighbours(mult, p1, q1, p2, q2)
    requires CubeBelow?(radix, p1, q1, a, u, x) && CubeAbove?(radix, p2, q2, c, v, y)
    ensures Bracketed(radix, mult, p1, q1, p2, q2)
  {
    hide Pow, FastPow;
    CubeBelow(radix, p1, q1, a, p1 - (a + (a + a)), u, x);
    CubeAbove(radix, p2, q2, c, p2 - (c + (c + c)), v, y);
  }

  lemma Below3()
    ensures Neighbours(0xa1849d, 971, 1539, 665, 1054)
    ensures CubeBelow?(3, 971, 1539, 323, 0x3d8412d3, 482)
  {
    assert FastPow(3, 323) <= 0x3d8412d3 * FastPow(2, 482);
  }

  lemma Above3()
    ensures CubeAbove?(3, 665, 1054, 221, 0x26c40bb1, 321)
  {
    assert 0x26c40bb1 * FastPow(2, 321) <= FastPow(3, 221);
  }

  lemma Below5()
    ensures Neighbours(0x6e40d2, 643, 1493, 789, 1832)
    ensures CubeBelow?(5, 643, 1493, 214, 0x3b68bb88, 467)
  {
    assert FastPow(5, 214) <= 0x3b68bb88 * FastPow(2, 467);
  }

  lemma Above5()
    ensures CubeAbove?(5, 789, 1832, 263, 0x32cfcbdd, 581)
  {
    assert 0x32cfcbdd * FastPow(2, 581) <= FastPow(5, 263);
  }

  lemma Below6()
    ensures Neighbours(0x6308c9, 306, 791, 665, 1719)
    ensures CubeBelow?(6, 306, 791, 102, 0x32c78f22, 234)
  {
    assert FastPow(6, 102) <= 0x32c78f22 * FastPow(2, 234);
  }

  lemma Above6()
    ensures CubeAbove?(6, 665, 1719, 221, 0x26c40bb1, 542)
  {
    assert 0x26c40bb1 * FastPow(2, 542) <= FastPow(6, 221);
  }

  lemma Below7()
    ensures Neighbours(0x5b3065, 571, 1603, 680, 1909)
    ensures CubeBelow?(7, 571, 1603, 190, 0x2a263583, 504)
  {
    assert FastPow(7, 190) <= 0x2a263583 * FastPow(2, 504);
  }

  lemma Above7()
    ensures CubeAbove?(7, 680, 1909, 226, 0x2c15bb69, 605)
  {
    assert 0x2c15bb69 * FastPow(2, 605) <= FastPow(7, 226);
  }

  lemma Below9()
    ensures Neighbours(0x50c24e, 153, 485, 512, 1623)
    ensures CubeBelow?(9, 153, 485, 51, 0x32c78f22, 132)
  {
    assert FastPow(9, 51) <= 0x32c78f22 * FastPow(2, 132);
  }

  lemma Above9()
    ensures CubeAbove?(9, 512, 1623, 170, 0x3b304faa, 509)
  {
    assert 0x3b304faa * FastPow(2, 509) <= FastPow(9, 170);
  }

  lemma Below10()
    ensures Neighbours(0x4d104d, 497, 1651, 146, 485)
    ensures CubeBelow?(10, 497, 1651, 165, 0x22bb08f6, 519)
  {
    assert FastPow(10, 165) <= 0x22bb08f6 * FastPow(2, 519);
  }

  lemma Above10()
    ensures CubeAbove?(10, 146, 485, 48, 0x2bca6341, 130)
  {
    assert 0x2bca6341 * FastPow(2, 130) <= FastPow(10, 48);
  }

  lemma Below11()
    ensures Neighbours(0x4a0027, 37, 128, 579, 2003)
    ensures CubeBelow?(11, 37, 128, 12, 0x2dab8e8a, 12)
  {
    assert FastPow(11, 12) <= 0x2dab8e8a * FastPow(2, 12);
  }

  lemma Above11()
    ensures CubeAbove?(11, 579, 2003, 193, 0x32eccd53, 638)
  {
    assert 0x32eccd53 * FastPow(2, 638) <= FastPow(11, 193);
  }

  lemma Below12()
    ensures Neighbours(0x4768ce, 306, 1097, 359, 1287)
    ensures CubeBelow?(12, 306, 1097, 102, 0x32c78f22, 336)
  {
    assert FastPow(12, 102) <= 0x32c78f22 * FastPow(2, 336);
  }

  lemma Above12()
    ensures CubeAbove?(12, 359, 1287, 119, 0x30dbc679, 397)
  {
    assert 0x30dbc679 * FastPow(2, 397) <= FastPow(12, 119);
  }

  lemma Below13()
    ensures Neighbours(0x452e54, 227, 840, 464, 1717)
    ensures CubeBelow?(13, 227, 840, 75, 0x2e4d1dee, 248)
  {
    assert FastPow(13, 75) <= 0x2e4d1dee * FastPow(2, 248);
  }

  lemma Above13()
    ensures CubeAbove?(13, 464, 1717, 154, 0x3a648941, 540)
  {
    assert 0x3a648941 * FastPow(2, 540) <= FastPow(13, 154);
  }

  lemma Below14()
    ensures Neighbours(0x433d00, 462, 1759, 109, 415)
    ensures CubeBelow?(14, 462, 1759, 154, 0x284c7163, 557)
  {
    assert FastPow(14, 154) <= 0x284c7163 * FastPow(2, 557);
  }

  lemma Above14()
    ensures CubeAbove?(14, 109, 415, 36, 0x21783458, 108)
  {
    assert 0x21783458 * FastPow(2, 108) <= FastPow(14, 36);
  }

  lemma Below15()
    ensures Neighbours(0x418677, 290, 1133, 247, 965)
    ensures CubeBelow?(15, 290, 1133, 96, 0x2164bf1b, 346)
  {
    assert FastPow(15, 96) <= 0x2164bf1b * FastPow(2, 346);
  }

  lemma Above15()
    ensures CubeAbove?(15, 247, 965, 82, 0x29368986, 291)
  {
    assert 0x29368986 * FastPow(2, 291) <= FastPow(15, 82);
  }

  lemma Below17()
    ensures Neighbours(0x3ea16b, 343, 1402, 263, 1075)
    ensures CubeBelow?(17, 343, 1402, 114, 0x3eb75237, 436)
  {
    assert FastPow(17, 114) <= 0x3eb75237 * FastPow(2, 436);
  }

  lemma Above17()
    ensures CubeAbove?(17, 263, 1075, 87, 0x30d0c422, 326)
  {
    assert 0x30d0c422 * FastPow(2, 326) <= FastPow(17, 87);
  }

  lemma Below18()
    ensures Neighbours(0x3d645a, 153, 638, 359, 1497)
    ensures CubeBelow?(18, 153, 638, 51, 0x32c78f22, 183)
  {
    assert FastPow(18, 51) <= 0x32c78f22 * FastPow(2, 183);
  }

  lemma Above18()
    ensures CubeAbove?(18, 359, 1497, 119, 0x254c9c6b, 467)
  {
    assert 0x254c9c6b * FastPow(2, 467) <= FastPow(18, 119);
  }

  lemma Below19()
    ensures Neighbours(0x3c43c2, 121, 514, 480, 2039)
    ensures CubeBelow?(19, 121, 514, 40, 0x3c6d1692, 140)
  {
    assert FastPow(19, 40) <= 0x3c6d1692 * FastPow(2, 140);
  }

  lemma Above19()
    ensures CubeAbove?(19, 480, 2039, 160, 0x32dba455, 650)
  {
    assert 0x32dba455 * FastPow(2, 650) <= FastPow(19, 160);
  }

  lemma Below20()
    ensures Neighbours(0x3b3b9a, 351, 1517, 146, 631)
    ensures CubeBelow?(20, 351, 1517, 117, 0x32c24321, 476)
  {
    assert FastPow(20, 117) <= 0x32c24321 * FastPow(2, 476);
  }

  lemma Above20()
    ensures CubeAbove?(20, 146, 631, 48, 0x2bca6341, 178)
  {
    assert 0x2bca6341 * FastPow(2, 178) <= FastPow(20, 48);
  }

  lemma Below21()
    ensures Neighbours(0x3a4899, 339, 1489, 130, 571)
    ensures CubeBelow?(21, 339, 1489, 113, 0x2846cd06, 467)
  {
    assert FastPow(21, 113) <= 0x2846cd06 * FastPow(2, 467);
  }

  lemma Above21()
    ensures CubeAbove?(21, 130, 571, 43, 0x3a7892f9, 159)
  {
    assert 0x3a7892f9 * FastPow(2, 159) <= FastPow(21, 43);
  }

  lemma Below22()
    ensures Neighbours(0x39680b, 37, 165, 431, 1922)
    ensures CubeBelow?(22, 37, 165, 12, 0x2dab8e8a, 24)
  {
    assert FastPow(22, 12) <= 0x2dab8e8a * FastPow(2, 24);
  }

  lemma Above22()
    ensures CubeAbove?(22, 431, 1922, 143, 0x33f027a2, 608)
  {
    assert 0x33f027a2 * FastPow(2, 608) <= FastPow(22, 143);
  }

  lemma Below23()
    ensures Neighbours(0x3897b3, 403, 1823, 191, 864)
    ensures CubeBelow?(23, 403, 1823, 134, 0x23afb756, 577)
  {
    assert FastPow(23, 134) <= 0x23afb756 * FastPow(2, 577);
  }

  lemma Above23()
    ensures CubeAbove?(23, 191, 864, 63, 0x3f4fd434, 255)
  {
    assert 0x3f4fd434 * FastPow(2, 255) <= FastPow(23, 63);
  }

  lemma Below24()
    ensures Neighbours(0x37d5af, 306, 1403, 359, 1646)
    ensures CubeBelow?(24, 306, 1403, 102, 0x32c78f22, 438)
  {
    assert FastPow(24, 102) <= 0x32c78f22 * FastPow(2, 438);
  }

  lemma Above24()
    ensures CubeAbove?(24, 359, 1646, 119, 0x30dbc679, 516)
  {
    assert 0x30dbc679 * FastPow(2, 516) <= FastPow(24, 119);
  }

  lemma Below25()
    ensures Neighbours(0x372069, 424, 1969, 73, 339)
    ensures CubeBelow?(25, 424, 1969, 141, 0x371714c1, 625)
  {
    assert FastPow(25, 141) <= 0x371714c1 * FastPow(2, 625);
  }

  lemma Above25()
    ensures CubeAbove?(25, 73, 339, 24, 0x2bca6341, 82)
  {
    assert 0x2bca6341 * FastPow(2, 82) <= FastPow(25, 24);
  }

  lemma Below26()
    ensures Neighbours(0x367686, 227, 1067, 237, 1114)
    ensures CubeBelow?(26, 227, 1067, 75, 0x2e4d1dee, 323)
  {
    assert FastPow(26, 75) <= 0x2e4d1dee * FastPow(2, 323);
  }

  lemma Above26()
    ensures CubeAbove?(26, 237, 1114, 79, 0x285b534f, 342)
  {
    assert 0x285b534f * FastPow(2, 342) <= FastPow(26, 79);
  }

  lemma Below27()
    ensures Neighbours(0x35d6df, 102, 485, 359, 1707)
    ensures CubeBelow?(27, 102, 485, 34, 0x32c78f22, 132)
  {
    assert FastPow(27, 34) <= 0x32c78f22 * FastPow(2, 132);
  }

  lemma Above27()
    ensures CubeAbove?(27, 359, 1707, 119, 0x38f31647, 536)
  {
    assert 0x38f31647 * FastPow(2, 536) <= FastPow(27, 119);
  }

  lemma Below28()
    ensures Neighbours(0x354072, 353, 1697, 109, 524)
    ensures CubeBelow?(28, 353, 1697, 117, 0x2c088bfc, 533)
  {
    assert FastPow(28, 117) <= 0x2c088bfc * FastPow(2, 533);
  }

  lemma Above28()
    ensures CubeAbove?(28, 109, 524, 36, 0x21783458, 144)
  {
    assert 0x21783458 * FastPow(2, 144) <= FastPow(28, 36);
  }

  lemma Below29()
    ensures Neighbours(0x34b261, 169, 821, 345, 1676)
    ensures CubeBelow?(29, 169, 821, 56, 0x210ee563, 243)
  {
    assert FastPow(29, 56) <= 0x210ee563 * FastPow(2, 243);
  }

  lemma Above29()
    ensures CubeAbove?(29, 345, 1676, 115, 0x32d656d5, 529)
  {
    assert 0x32d656d5 * FastPow(2, 529) <= FastPow(29, 115);
  }

  lemma Below30()
    ensures Neighbours(0x342bea, 290, 1423, 247, 1212)
    ensures CubeBelow?(30, 290, 1423, 96, 0x2164bf1b, 442)
  {
    assert FastPow(30, 96) <= 0x2164bf1b * FastPow(2, 442);
  }

  lemma Above30()
    ensures CubeAbove?(30, 247, 1212, 82, 0x29368986, 373)
  {
    assert 0x29368986 * FastPow(2, 373) <= FastPow(30, 82);
  }

  lemma Below31()
    ensures Neighbours(0x33ac62, 131, 649, 371, 1838)
    ensures CubeBelow?(31, 131, 649, 43, 0x20aeb0c3, 184)
  {
    assert FastPow(31, 43) <= 0x20aeb0c3 * FastPow(2, 184);
  }

  lemma Above31()
    ensures CubeAbove?(31, 371, 1838, 123, 0x293eb628, 580)
  {
    assert 0x293eb628 * FastPow(2, 580) <= FastPow(31, 123);
  }

  lemma Below33()
    ensures Neighbours(0x32bfd9, 45, 227, 383, 1932)
    ensures CubeBelow?(33, 45, 227, 15, 0x32c52fdf, 46)
  {
    assert FastPow(33, 15) <= 0x32c52fdf * FastPow(2, 46);
  }

  lemma Above33()
    ensures CubeAbove?(33, 383, 1932, 127, 0x31cc9e05, 611)
  {
    assert 0x31cc9e05 * FastPow(2, 611) <= FastPow(33, 127);
  }

  lemma Below34()
    ensures Neighbours(0x3251dd, 343, 1745, 263, 1338)
    ensures CubeBelow?(34, 343, 1745, 114, 0x3eb75237, 550)
  {
    assert FastPow(34, 114) <= 0x3eb75237 * FastPow(2, 550);
  }

  lemma Above34()
    ensures CubeAbove?(34, 263, 1338, 87, 0x30d0c422, 413)
  {
    assert 0x30d0c422 * FastPow(2, 413) <= FastPow(34, 87);
  }

  lemma Below35()
    ensures Neighbours(0x31e8d6, 379, 1944, 263, 1349)
    ensures CubeBelow?(35, 379, 1944, 126, 0x271d828b, 617)
  {
    assert FastPow(35, 126) <= 0x271d828b * FastPow(2, 617);
  }

  lemma Above35()
    ensures CubeAbove?(35, 263, 1349, 87, 0x25fdf17f, 417)
  {
    assert 0x25fdf17f * FastPow(2, 417) <= FastPow(35, 87);
  }

  lemma Below36()
    ensures Neighbours(0x318465, 153, 791, 359, 1856)
    ensures CubeBelow?(36, 153, 791, 51, 0x32c78f22, 234)
  {
    assert FastPow(36, 51) <= 0x32c78f22 * FastPow(2, 234);
  }

  lemma Above36()
    ensures CubeAbove?(36, 359, 1856, 119, 0x254c9c6b, 586)
  {
    assert 0x254c9c6b * FastPow(2, 586) <= FastPow(36, 119);
  }

  lemma TableRange0(radix: nat) returns (p1: nat, q1: nat, p2: nat, q2: nat)
    requires IsRadix(radix) && !IsPowerOfTwo(radix) && 3 <= radix <= 10
    ensures Bracketed(radix, MULT[radix - 2], p1, q1, p2, q2)
  {
    hide Pow, FastPow, Bracketed, Neighbours, CubeBelow?, CubeAbove?;
    if radix == 3 {
      Below3();
      Above3();
      p1, q1, p2, q2 := 971, 1539, 665, 1054;
      CertifiedBracket(3, 0xa1849d, 971, 1539, 665, 1054, 323, 0x3d8412d3, 482, 221, 0x26c40bb1, 321);
    } else if radix == 5 {
      Below5();
      Above5();
      p1, q1, p2, q2 := 643, 1493, 789, 1832;
      CertifiedBracket(5, 0x6e40d2, 643, 1493, 789, 1832, 214, 0x3b68bb88, 467, 263, 0x32cfcbdd, 581);
    } else if radix == 6 {
      Below6();
      Above6();
      p1, q1, p2, q2 := 306, 791, 665, 1719;
      CertifiedBracket(6, 0x6308c9, 306, 791, 665, 1719, 102, 0x32c78f22, 234, 221, 0x26c40bb1, 542);
    } else if radix == 7 {
      Below7();
      Above7();
      p1, q1, p2, q2 := 571, 1603, 680, 1909;
      CertifiedBracket(7, 0x5b3065, 571, 1603, 680, 1909, 190, 0x2a263583, 504, 226, 0x2c15bb69, 605);
    } else if radix == 9 {
      Below9();
      Above9();
      p1, q1, p2, q2 := 153, 485, 512, 1623;
      CertifiedBracket(9, 0x50c24e, 153, 485, 512, 1623, 51, 0x32c78f22, 132, 170, 0x3b304faa, 509);
    } else if radix == 10 {
      Below10();
      Above10();
      p1, q1, p2, q2 := 497, 1651, 146, 485;
      CertifiedBracket(10, 0x4d104d, 497, 1651, 146, 485, 165, 0x22bb08f6, 519, 48, 0x2bca6341, 130);
    }
  }

  lemma TableRange1(radix: nat) returns (p1: nat, q1: nat, p2: nat, q2: nat)
    requires IsRadix(radix) && !IsPowerOfTwo(radix) && 11 <= radix <= 17
    ensures Bracketed(radix, MULT[radix - 2], p1, q1, p2, q2)
  {
    hide Pow, FastPow, Bracketed, Neighbours, CubeBelow?, CubeAbove?;
    if radix == 11 {
      Below11();
      Above11();
      p1, q1, p2, q2 := 37, 128, 579, 2003;
      CertifiedBracket(11, 0x4a0027, 37, 128, 579, 2003, 12, 0x2dab8e8a, 12, 193, 0x32eccd53, 638);
    } else if radix == 12 {
      Below12();
      Above12();
      p1, q1, p2, q2 := 306, 1097, 359, 1287;
      CertifiedBracket(12, 0x4768ce, 306, 1097, 359, 1287, 102, 0x32c78f22, 336, 119, 0x30dbc679, 397);
    } else if radix == 13 {
      Below13();
      Above13();
      p1, q1, p2, q2 := 227, 840, 464, 1717;
      CertifiedBracket(13, 0x452e54, 227, 840, 464, 1717, 75, 0x2e4d1dee, 248, 154, 0x3a648941, 540);
    } else if radix == 14 {
      Below14();
      Above14();
      p1, q1, p2, q2 := 462, 1759, 109, 415;
      CertifiedBracket(14, 0x433d00, 462, 1759, 109, 415, 154, 0x284c7163, 557, 36, 0x21783458, 108);
    } else if radix == 15 {
      Below15();
      Above15();
      p1, q1, p2, q2 := 290, 1133, 247, 965;
      CertifiedBracket(15, 0x418677, 290, 1133, 247, 965, 96, 0x2164bf1b, 346, 82, 0x29368986, 291);
    } else if radix == 17 {
      Below17();
      Above17();
      p1, q1, p2, q2 := 343, 1402, 263, 1075;
      CertifiedBracket(17, 0x3ea16b, 343, 1402, 263, 1075, 114, 0x3eb75237, 436, 87, 0x30d0c422, 326);
    }
  }

  lemma TableRange2(radix: nat) returns (p1: nat, q1: nat, p2: nat, q2: nat)
    requires IsRadix(radix) && !IsPowerOfTwo(radix) && 18 <= radix <= 23
    ensures Bracketed(radix, MULT[radix - 2], p1, q1, p2, q2)
  {
    hide Pow, FastPow, Bracketed, Neighbours, CubeBelow?, CubeAbove?;
    if radix == 18 {
      Below18();
      Above18();
      p1, q1, p2, q2 := 153, 638, 359, 1497;
      CertifiedBracket(18, 0x3d645a, 153, 638, 359, 1497, 51, 0x32c78f22, 183, 119, 0x254c9c6b, 467);
    } else if radix == 19 {
      Below19();
      Above19();
      p1, q1, p2, q2 := 121, 514, 480, 2039;
      CertifiedBracket(19, 0x3c43c2, 121, 514, 480, 2039, 40, 0x3c6d1692, 140, 160, 0x32dba455, 650);
    } else if radix == 20 {
      Below20();
      Above20();
      p1, q1, p2, q2 := 351, 1517, 146, 631;
      CertifiedBracket(20, 0x3b3b9a, 351, 1517, 146, 631, 117, 0x32c24321, 476, 48, 0x2bca6341, 178);
    } else if radix == 21 {
      Below21();
      Above21();
      p1, q1, p2, q2 := 339, 1489, 130, 571;
      CertifiedBracket(21, 0x3a4899, 339, 1489, 130, 571, 113, 0x2846cd06, 467, 43, 0x3a7892f9, 159);
    } else if radix == 22 {
      Below22();
      Above22();
      p1, q1, p2, q2 := 37, 165, 431, 1922;
      CertifiedBracket(22, 0x39680b, 37, 165, 431, 1922, 12, 0x2dab8e8a, 24, 143, 0x33f027a2, 608);
    } else if radix == 23 {
      Below23();
      Above23();
      p1, q1, p2, q2 := 403, 1823, 191, 864;
      CertifiedBracket(23, 0x3897b3, 403, 1823, 191, 864, 134, 0x23afb756, 577, 63, 0x3f4fd434, 255);
    }
  }

  lemma TableRange3(radix: nat) returns (p1: nat, q1: nat, p2: nat, q2: nat)
    requires IsRadix(radix) && !IsPowerOfTwo(radix) && 24 <= radix <= 29
    ensures Bracketed(radix, MULT[radix - 2], p1, q1, p2, q2)
  {
    hide Pow, FastPow, Bracketed, Neighbours, CubeBelow?, CubeAbove?;
    if radix == 24 {
      Below24();
      Above24();
      p1, q1, p2, q2 := 306, 1403, 359, 1646;
      CertifiedBracket(24, 0x37d5af, 306, 1403, 359, 1646, 102, 0x32c78f22, 438, 119, 0x30dbc679, 516);
    } else if radix == 25 {
      Below25();
      Above25();
      p1, q1, p2, q2 := 424, 1969, 73, 339;
      CertifiedBracket(25, 0x372069, 424, 1969, 73, 339, 141, 0x371714c1, 625, 24, 0x2bca6341, 82);
    } else if radix == 26 {
      Below26();
      Above26();
      p1, q1, p2, q2 := 227, 1067, 237, 1114;
      CertifiedBracket(26, 0x367686, 227, 1067, 237, 1114, 75, 0x2e4d1dee, 323, 79, 0x285b534f, 342);
    } else if radix == 27 {
      Below27();
      Above27();
      p1, q1, p2, q2 := 102, 485, 359, 1707;
      CertifiedBracket(27, 0x35d6df, 102, 485, 359, 1707, 34, 0x32c78f22, 132, 119, 0x38f31647, 536);
    } else if radix == 28 {
      Below28();
      Above28();
      p1, q1, p2, q2 := 353, 1697, 109, 524;
      CertifiedBracket(28, 0x354072, 353, 1697, 109, 524, 117, 0x2c088bfc, 533, 36, 0x21783458, 144);
    } else if radix == 29 {
      Below29();
      Above29();
      p1, q1, p2, q2 := 169, 821, 345, 1676;
      CertifiedBracket(29, 0x34b261, 169, 821, 345, 1676, 56, 0x210ee563, 243, 115, 0x32d656d5, 529);
    }
  }

  lemma TableRange4(radix: nat) returns (p1: nat, q1: nat, p2: nat, q2: nat)
    requires IsRadix(radix) && !IsPowerOfTwo(radix) && 30 <= radix <= 36
    ensures Bracketed(radix, MULT[radix - 2], p1, q1, p2, q2)
  {
    hide Pow, FastPow, Bracketed, Neighbours, CubeBelow?, CubeAbove?;
    if radix == 30 {
      Below30();
      Above30();
      p1, q1, p2, q2 := 290, 1423, 247, 1212;
      CertifiedBracket(30, 0x342bea, 290, 1423, 247, 1212, 96, 0x2164bf1b, 442, 82, 0x29368986, 373);
    } else if radix == 31 {
      Below31();
      Above31();
      p1, q1, p2, q2 := 131, 649, 371, 1838;
      CertifiedBracket(31, 0x33ac62, 131, 649, 371, 1838, 43, 0x20aeb0c3, 184, 123, 0x293eb628, 580);
    } else if radix == 33 {
      Below33();
      Above33();
      p1, q1, p2, q2 := 45, 227, 383, 1932;
      CertifiedBracket(33, 0x32bfd9, 45, 227, 383, 1932, 15, 0x32c52fdf, 46, 127, 0x31cc9e05, 611);
    } else if radix == 34 {
      Below34();
      Above34();
      p1, q1, p2, q2 := 343, 1745, 263, 1338;
      CertifiedBracket(34, 0x3251dd, 343, 1745, 263, 1338, 114, 0x3eb75237, 550, 87, 0x30d0c422, 413);
    } else if radix == 35 {
      Below35();
      Above35();
      p1, q1, p2, q2 := 379, 1944, 263, 1349;
      CertifiedBracket(35, 0x31e8d6, 379, 1944, 263, 1349, 126, 0x271d828b, 617, 87, 0x25fdf17f, 417);
    } else if radix == 36 {
      Below36();
      Above36();
      p1, q1, p2, q2 := 153, 791, 359, 1856;
      CertifiedBracket(36, 0x318465, 153, 791, 359, 1856, 51, 0x32c78f22, 234, 119, 0x254c9c6b, 586);
    }
  }

  lemma TableBrackets(radix: nat) returns (p1: nat, q1: nat, p2: nat, q2: nat)
    requires IsRadix(radix) && !IsPowerOfTwo(radix)
    ensures Bracketed(radix, MULT[radix - 2], p1, q1, p2, q2)
  {
    hide Bracketed;
    if radix <= 10 { p1, q1, p2, q2 := TableRange0(radix); }
    else if radix <= 17 { p1, q1, p2, q2 := TableRange1(radix); }
    else if radix <= 23 { p1, q1, p2, q2 := TableRange2(radix); }
    else if radix <= 29 { p1, q1, p2, q2 := TableRange3(radix); }
    else { p1, q1, p2, q2 := TableRange4(radix); }
  }

  /** mul_log2_radix is exact for every exponent of a float64. */
  lemma MulLog2RadixIsFloor(a: int, radix: nat)
    requires IsRadix(radix) && -2048 <= a <= 2047
    ensures IsFloorLog(radix, a, MulLog2Radix(a, radix))
  {
    hide Bracketed, IsFloorLog;
    if IsPowerOfTwo(radix) {
      PowerOfTwoLog(a, radix);
    } else {
      var p1, q1, p2, q2 := TableBrackets(radix);
      var mult := MULT[radix - 2];
      var k := (a * mult) / SCALE;
      assert k * SCALE <= a * mult < (k + 1) * SCALE;
      BracketedLog(radix, mult, p1, q1, p2, q2, a, k);
    }
  }
}
