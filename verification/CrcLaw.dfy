/** The CRC-32 of section 8 of RFC 1952 as the remainder of a division of
    polynomials over the field of two elements. */
module CrcLaw {
  import opened BitSeq
  import opened Crc

  /** A polynomial, by the exponents of its terms. */
  type Poly = set<nat>

  /** x^32 + x^26 + ... + 1 */
  const GENERATOR: Poly := {32, 26, 23, 22, 16, 12, 11, 10, 8, 7, 5, 4, 2, 1, 0}

  ghost function Sum(a: Poly, b: Poly): Poly
  {
    (a - b) + (b - a)
  }

  /** The product with x^n. */
  ghost function Up(a: Poly, n: nat): Poly
  {
    set k <- a :: k + n
  }

  /** The product of the generator with the sum of the powers in q. */
  ghost function Product(q: seq<nat>): Poly
  {
    if q == [] then {} else Sum(Up(GENERATOR, q[0]), Product(q[1..]))
  }

  ghost predicate Congruent(a: Poly, b: Poly)
  {
    exists q: seq<nat> :: Sum(a, b) == Product(q)
  }

  // ---- congruence ---------------------------------------------------------------------------------

  lemma SumLaws(a: Poly, b: Poly, c: Poly)
    ensures Sum(Sum(a, b), c) == Sum(a, Sum(b, c)) && Sum(a, b) == Sum(b, a) && Sum(a, a) == {} && Sum(a, {}) == a
  {
  }

  lemma UpSum(a: Poly, b: Poly, n: nat)
    ensures Up(Sum(a, b), n) == Sum(Up(a, n), Up(b, n))
  {
    forall k: nat
      ensures k in Up(Sum(a, b), n) <==> k in Sum(Up(a, n), Up(b, n))
    {
      InUp(Sum(a, b), n, k);
      InUp(a, n, k);
      InUp(b, n, k);
    }
  }

  lemma InUp(a: Poly, n: nat, k: nat)
    ensures k in Up(a, n) <==> k >= n && k - n in a
  {
    if k >= n && k - n in a { assert k == (k - n) + n; }
  }

  lemma UpZero(a: Poly)
    ensures Up(a, 0) == a
  {
  }

  lemma UpUp(a: Poly, m: nat, n: nat)
    ensures Up(Up(a, m), n) == Up(a, m + n)
  {
    forall k: nat
      ensures k in Up(Up(a, m), n) <==> k in Up(a, m + n)
    {
      InUp(Up(a, m), n, k);
      if k >= n { InUp(a, m, k - n); }
      InUp(a, m + n, k);
    }
  }

  lemma {:induction false} ProductConcat(q: seq<nat>, r: seq<nat>)
    ensures Product(q + r) == Sum(Product(q), Product(r))
  {
    hide Sum, Up;
    SumLaws(Product(r), {}, {});
    if q == [] {
      assert q + r == r;
    } else {
      assert (q + r)[1..] == q[1..] + r;
      ProductConcat(q[1..], r);
      SumLaws(Up(GENERATOR, q[0]), Product(q[1..]), Product(r));
    }
  }

  lemma {:induction false} ProductUp(q: seq<nat>) returns (r: seq<nat>)
    ensures Up(Product(q), 1) == Product(r)
  {
    if q == [] {
      r := [];
    } else {
      hide Sum, Up;
      var s := ProductUp(q[1..]);
      r := [q[0] + 1] + s;
      assert r[1..] == s;
      UpSum(Up(GENERATOR, q[0]), Product(q[1..]), 1);
      UpUp(GENERATOR, q[0], 1);
    }
  }

  lemma CongruentTrans(a: Poly, b: Poly, c: Poly)
    requires Congruent(a, b) && Congruent(b, c)
    ensures Congruent(a, c)
  {
    hide Product;
    var q: seq<nat> :| Sum(a, b) == Product(q);
    var r: seq<nat> :| Sum(b, c) == Product(r);
    ProductConcat(q, r);
    assert Sum(Sum(a, b), Sum(b, c)) == Sum(a, c);
  }

  lemma CongruentSame(a: Poly)
    ensures Congruent(a, a)
  {
    assert Sum(a, a) == Product([]);
  }

  lemma CongruentUp(a: Poly, b: Poly)
    requires Congruent(a, b)
    ensures Congruent(Up(a, 1), Up(b, 1))
  {
    hide Product, Up;
    var q: seq<nat> :| Sum(a, b) == Product(q);
    var r := ProductUp(q);
    UpSum(a, b, 1);
  }

  lemma CongruentSum(a: Poly, b: Poly, c: Poly)
    requires Congruent(a, b)
    ensures Congruent(Sum(a, c), Sum(b, c))
  {
    hide Product;
    var q: seq<nat> :| Sum(a, b) == Product(q);
    assert Sum(Sum(a, c), Sum(b, c)) == Sum(a, b);
  }

  // ---- the register as a polynomial ------------------------------------------------------------------

  predicate Odd(c: bv32) { c & 1 == 1 }

  function Half(c: bv32): bv32 { c >> 1 }

  function Xor32(a: bv32, b: bv32): bv32 { a ^ b }

  ghost function Term(present: bool, k: nat): Poly { if present then {k} else {} }

  /** The n low bits of c, the lowest one the highest term. */
  ghost function Coeffs(c: bv32, n: nat): (a: Poly)
    ensures forall k :: k in a ==> k < n
    decreases n
  {
    if n == 0 then {} else Term(Odd(c), n - 1) + Coeffs(Half(c), n - 1)
  }

  lemma XorSplit(a: bv32, b: bv32)
    ensures Odd(Xor32(a, b)) <==> Odd(a) != Odd(b)
    ensures Half(Xor32(a, b)) == Xor32(Half(a), Half(b))
  {
  }

  lemma {:induction false} CoeffsXor(a: bv32, b: bv32, n: nat)
    ensures Coeffs(Xor32(a, b), n) == Sum(Coeffs(a, n), Coeffs(b, n))
    decreases n
  {
    hide Odd, Half, Xor32;
    if n == 0 {
    } else {
      CoeffsXor(Half(a), Half(b), n - 1);
      XorSplit(a, b);
    }
  }

  /** c has n bits. */
  ghost predicate Fits(c: bv32, n: nat)
    decreases n
  {
    if n == 0 then c == 0 else Fits(Half(c), n - 1)
  }

  lemma EightHalves(c: bv32)
    ensures Half(Half(Half(Half(Half(Half(Half(Half(c)))))))) == c >> 8
  {
  }

  lemma FitsEight(c: bv32, n: nat)
    requires Fits(c >> 8, n)
    ensures Fits(c, n + 8)
  {
    hide Half;
    EightHalves(c);
    var c1 := Half(c);
    var c2 := Half(c1);
    var c3 := Half(c2);
    var c4 := Half(c3);
    var c5 := Half(c4);
    var c6 := Half(c5);
    var c7 := Half(c6);
    assert Fits(c7, n + 1);
    assert Fits(c6, n + 2);
    assert Fits(c5, n + 3);
    assert Fits(c4, n + 4);
    assert Fits(c3, n + 5);
    assert Fits(c2, n + 6);
    assert Fits(c1, n + 7);
  }

  lemma FitsAll(c: bv32)
    ensures Fits(c, 32)
  {
    hide Half;
    var d := c >> 8;
    var e := d >> 8;
    var f := e >> 8;
    NoneLeft(c);
    FitsEight(f, 0);
    FitsEight(e, 8);
    FitsEight(d, 16);
    FitsEight(c, 24);
  }

  lemma NoneLeft(c: bv32)
    ensures ((c >> 8) >> 8) >> 8 >> 8 == 0
  {
  }

  lemma UpFirst(odd: bool, n: nat, rest: Poly)
    ensures Up(Term(odd, n) + rest, 1) == Term(odd, n + 1) + Up(rest, 1)
  {
    forall k: nat
      ensures k in Up(Term(odd, n) + rest, 1) <==> k in Term(odd, n + 1) + Up(rest, 1)
    {
      InUp(Term(odd, n) + rest, 1, k);
      InUp(rest, 1, k);
    }
  }

  lemma WidenZero()
    ensures Fits(0, 1) && Coeffs(0, 1) == Up(Coeffs(0, 0), 1)
  {
    assert Half(0) == 0 && !Odd(0);
  }

  /** One more bit, which is 0. */
  lemma {:induction false} Widen(c: bv32, n: nat)
    requires Fits(c, n)
    ensures Fits(c, n + 1) && Coeffs(c, n + 1) == Up(Coeffs(c, n), 1)
    decreases n
  {
    hide Odd, Half, Up;
    if n == 0 {
      WidenZero();
    } else {
      Widen(Half(c), n - 1);
      UpFirst(Odd(c), n - 1, Coeffs(Half(c), n - 1));
    }
  }

  lemma {:induction false} WidenBy(c: bv32, n: nat, k: nat)
    requires Fits(c, n)
    ensures Fits(c, n + k) && Coeffs(c, n + k) == Up(Coeffs(c, n), k)
    decreases k
  {
    hide Up, Coeffs, Fits;
    UpZero(Coeffs(c, n));
    if k == 0 {
    } else {
      WidenBy(c, n, k - 1);
      Widen(c, n + k - 1);
      UpUp(Coeffs(c, n), k - 1, 1);
    }
  }

  // ---- the generator -----------------------------------------------------------------------------------

  /** The first bit of c with c = 2 * d + odd. */
  lemma CoeffsStep(c: bv32, d: bv32, n: nat, odd: bool)
    requires Half(c) == d && Odd(c) == odd
    ensures Coeffs(c, n + 1) == Term(odd, n) + Coeffs(d, n)
  {
  }

  lemma {:induction false} CoeffsZero(n: nat)
    ensures Coeffs(0, n) == {}
  {
    if n == 0 {
    } else {
      CoeffsZero(n - 1);
      CoeffsStep(0, 0, n - 1, false);
    }
  }

  lemma GeneratorLast()
    ensures Coeffs(0xed, 8) == {7, 5, 4, 2, 1, 0}
  {
    hide Coeffs;
    CoeffsZero(0);
    CoeffsStep(0x1, 0x0, 0, true);
    CoeffsStep(0x3, 0x1, 1, true);
    CoeffsStep(0x7, 0x3, 2, true);
    CoeffsStep(0xe, 0x7, 3, false);
    CoeffsStep(0x1d, 0xe, 4, true);
    CoeffsStep(0x3b, 0x1d, 5, true);
    CoeffsStep(0x76, 0x3b, 6, false);
    CoeffsStep(0xed, 0x76, 7, true);
  }

  lemma GeneratorThird()
    ensures Coeffs(0xedb8, 16) == {12, 11, 10, 8, 7, 5, 4, 2, 1, 0}
  {
    hide Coeffs;
    GeneratorLast();
    CoeffsStep(0x1db, 0xed, 8, true);
    CoeffsStep(0x3b6, 0x1db, 9, false);
    CoeffsStep(0x76d, 0x3b6, 10, true);
    CoeffsStep(0xedb, 0x76d, 11, true);
    CoeffsStep(0x1db7, 0xedb, 12, true);
    CoeffsStep(0x3b6e, 0x1db7, 13, false);
    CoeffsStep(0x76dc, 0x3b6e, 14, false);
    CoeffsStep(0xedb8, 0x76dc, 15, false);
  }

  lemma GeneratorSecond()
    ensures Coeffs(0xedb883, 24) == {23, 22, 16, 12, 11, 10, 8, 7, 5, 4, 2, 1, 0}
  {
    hide Coeffs;
    GeneratorThird();
    CoeffsStep(0x1db71, 0xedb8, 16, true);
    CoeffsStep(0x3b6e2, 0x1db71, 17, false);
    CoeffsStep(0x76dc4, 0x3b6e2, 18, false);
    CoeffsStep(0xedb88, 0x76dc4, 19, false);
    CoeffsStep(0x1db710, 0xedb88, 20, false);
    CoeffsStep(0x3b6e20, 0x1db710, 21, false);
    CoeffsStep(0x76dc41, 0x3b6e20, 22, true);
    CoeffsStep(0xedb883, 0x76dc41, 23, true);
  }

  lemma GeneratorFirst()
    ensures Coeffs(0xedb88320, 32) == GENERATOR - {32}
  {
    hide Coeffs;
    GeneratorSecond();
    CoeffsStep(0x1db7106, 0xedb883, 24, false);
    CoeffsStep(0x3b6e20c, 0x1db7106, 25, false);
    CoeffsStep(0x76dc419, 0x3b6e20c, 26, true);
    CoeffsStep(0xedb8832, 0x76dc419, 27, false);
    CoeffsStep(0x1db71064, 0xedb8832, 28, false);
    CoeffsStep(0x3b6e20c8, 0x1db71064, 29, false);
    CoeffsStep(0x76dc4190, 0x3b6e20c8, 30, false);
    CoeffsStep(0xedb88320, 0x76dc4190, 31, false);
  }

  // ---- the register is the remainder ----------------------------------------------------------------------

  lemma StepIs(c: bv32)
    ensures CrcStep(c) == Xor32(Half(c), if Odd(c) then 0xedb88320 else 0)
  {
  }

  /** What is left of x times the register: nothing, or the generator once. */
  lemma StepSum(half: Poly, up: Poly, poly: Poly, odd: bool)
    requires up == Term(odd, 32) + half && 32 !in half
    requires poly == if odd then GENERATOR - {32} else {}
    ensures Sum(Sum(half, poly), up) == if odd then GENERATOR else {}
  {
  }

  lemma CongruentBy(a: Poly, b: Poly, odd: bool)
    requires Sum(a, b) == if odd then GENERATOR else {}
    ensures Congruent(a, b)
  {
    UpZero(GENERATOR);
    SumLaws(GENERATOR, {}, {});
    assert Product([]) == {} && Product([0][1..]) == {};
    assert Sum(a, b) == Product(if odd then [0] else []);
  }

  lemma TimesX(c: bv32)
    ensures Up(Coeffs(c, 32), 1) == Term(Odd(c), 32) + Coeffs(Half(c), 32) && 32 !in Coeffs(Half(c), 32)
  {
    FitsAll(c);
    hide Odd, Half, Coeffs, Up;
    Widen(Half(c), 31);
    CoeffsStep(c, Half(c), 31, Odd(c));
    UpFirst(Odd(c), 31, Coeffs(Half(c), 31));
  }

  lemma StepTerms(c: bv32)
    ensures Coeffs(CrcStep(c), 32) == Sum(Coeffs(Half(c), 32), if Odd(c) then GENERATOR - {32} else {})
  {
    hide Odd, Half, Xor32, CrcStep, Coeffs, Sum;
    StepIs(c);
    if Odd(c) {
      CoeffsXor(Half(c), 0xedb88320, 32);
      GeneratorFirst();
    } else {
      CoeffsXor(Half(c), 0, 32);
      CoeffsZero(32);
    }
  }

  /** One step multiplies by x. */
  lemma StepLaw(c: bv32)
    ensures Congruent(Coeffs(CrcStep(c), 32), Up(Coeffs(c, 32), 1))
  {
    hide Odd, Half, CrcStep, Congruent, Sum, Up, Coeffs;
    TimesX(c);
    StepTerms(c);
    var rest := if Odd(c) then GENERATOR - {32} else {};
    StepSum(Coeffs(Half(c), 32), Up(Coeffs(c, 32), 1), rest, Odd(c));
    CongruentBy(Coeffs(CrcStep(c), 32), Up(Coeffs(c, 32), 1), Odd(c));
  }

  lemma {:induction false} BitsLaw(c: bv32, k: nat)
    ensures Congruent(Coeffs(CrcBits(c, k), 32), Up(Coeffs(c, 32), k))
    decreases k
  {
    hide CrcStep, Congruent, Up, Coeffs;
    if k == 0 {
      UpZero(Coeffs(c, 32));
      CongruentSame(Coeffs(c, 32));
    } else {
      BitsLaw(CrcStep(c), k - 1);
      StepLaw(c);
      CongruentUpBy(Coeffs(CrcStep(c), 32), Up(Coeffs(c, 32), 1), k - 1);
      UpUp(Coeffs(c, 32), 1, k - 1);
      CongruentTrans(Coeffs(CrcBits(c, k), 32), Up(Coeffs(CrcStep(c), 32), k - 1), Up(Coeffs(c, 32), k));
    }
  }

  lemma {:induction false} CongruentUpBy(a: Poly, b: Poly, k: nat)
    requires Congruent(a, b)
    ensures Congruent(Up(a, k), Up(b, k))
  {
    hide Congruent, Up;
    UpZero(a);
    UpZero(b);
    if k == 0 {
    } else {
      CongruentUpBy(a, b, k - 1);
      CongruentUp(Up(a, k - 1), Up(b, k - 1));
      UpUp(a, k - 1, 1);
      UpUp(b, k - 1, 1);
    }
  }

  // ---- bytes ----------------------------------------------------------------------------------------------

  lemma NextByte(z: bv32)
    requires z < 0xff
    ensures (z + 1) as int == z as int + 1 && z + 1 <= 0xff
  {
  }

  lemma {:induction false} ByteOf(b: Byte) returns (z: bv32)
    ensures z as int == b && z <= 0xff
  {
    if b == 0 {
      z := 0;
    } else {
      z := ByteOf(b - 1);
      LastByte(z);
      NextByte(z);
      z := z + 1;
    }
  }

  lemma LastByte(z: bv32)
    requires z <= 0xff && z as int != 255
    ensures z < 0xff
  {
  }

  lemma VectorBack(z: bv32)
    ensures (z as int) as bv32 == z
  {
  }

  lemma ByteFits(b: Byte)
    ensures Fits(b as bv32, 8)
  {
    var z := ByteOf(b);
    VectorBack(z);
    assert z >> 8 == 0;
    FitsEight(z, 0);
  }

  /** The terms of a byte: its lowest bit comes first. */
  ghost function ByteTerms(b: Byte): Poly
  {
    Coeffs(b as bv32, 8)
  }

  /** The bits of the bytes, first to last, as a polynomial. */
  ghost function MessageTerms(p: seq<Byte>): Poly
  {
    if p == [] then {} else Sum(Up(MessageTerms(p[..|p| - 1]), 8), ByteTerms(p[|p| - 1]))
  }

  const ONES: bv32 := 0xffffffff

  lemma MixIs(c: bv32, b: Byte)
    ensures CrcMix(c, b) == Xor32(c, b as bv32)
  {
  }

  lemma MixLaw(c: bv32, b: Byte)
    ensures Coeffs(CrcMix(c, b), 32) == Sum(Coeffs(c, 32), Up(ByteTerms(b), 24))
  {
    hide Xor32, CrcMix, Sum, Up, Coeffs;
    MixIs(c, b);
    CoeffsXor(c, b as bv32, 32);
    ByteFits(b);
    WidenBy(b as bv32, 8, 24);
  }

  /** One byte more: the register times x^8 and the byte times x^32. */
  lemma ByteLaw(c: bv32, b: Byte)
    ensures Congruent(Coeffs(CrcBits(CrcMix(c, b), 8), 32), Sum(Up(Coeffs(c, 32), 8), Up(ByteTerms(b), 32)))
  {
    hide CrcBits, CrcMix, Congruent, Sum, Up, Coeffs, ByteTerms;
    BitsLaw(CrcMix(c, b), 8);
    MixLaw(c, b);
    UpSum(Coeffs(c, 32), Up(ByteTerms(b), 24), 8);
    UpUp(ByteTerms(b), 24, 8);
  }

  /** What the register is the remainder of: the message times x^32, the first 32
      bits inverted. */
  ghost function Dividend(p: seq<Byte>): Poly
  {
    Sum(Up(MessageTerms(p), 32), Up(Coeffs(ONES, 32), 8 * |p|))
  }

  lemma DividendStep(q: seq<Byte>, b: Byte, p: seq<Byte>)
    requires p == q + [b]
    ensures Dividend(p) == Sum(Up(Dividend(q), 8), Up(ByteTerms(b), 32))
  {
    hide Sum, Up, Coeffs, ByteTerms;
    assert p[..|p| - 1] == q;
    var m, t, o := MessageTerms(q), ByteTerms(b), Coeffs(ONES, 32);
    UpSum(Up(m, 8), t, 32);
    UpUp(m, 8, 32);
    UpUp(m, 32, 8);
    UpSum(Up(m, 32), Up(o, 8 * |q|), 8);
    UpUp(o, 8 * |q|, 8);
    SumLaws(Up(m, 40), Up(t, 32), Up(o, 8 * |p|));
    SumLaws(Up(m, 40), Up(o, 8 * |p|), Up(t, 32));
    SumLaws(Up(t, 32), Up(o, 8 * |p|), {});
  }

  /** The register after p is the remainder: it has no term above x^31 and differs
      from the dividend by a multiple of the generator. */
  lemma {:induction false} RegisterLaw(p: seq<Byte>)
    ensures Congruent(Coeffs(CrcOf(p), 32), Dividend(p))
  {
    hide CrcBits, CrcMix, Congruent, Sum, Up, Coeffs, ByteTerms;
    if p == [] {
      EmptyDividend();
      CongruentSame(Coeffs(ONES, 32));
    } else {
      var q, b := p[..|p| - 1], p[|p| - 1];
      var c, t := CrcOf(q), Up(ByteTerms(b), 32);
      RegisterLaw(q);
      ByteLaw(c, b);
      CongruentUpBy(Coeffs(c, 32), Dividend(q), 8);
      CongruentSum(Up(Coeffs(c, 32), 8), Up(Dividend(q), 8), t);
      DividendStep(q, b, p);
      CongruentTrans(Coeffs(CrcOf(p), 32), Sum(Up(Coeffs(c, 32), 8), t), Dividend(p));
    }
  }

  lemma EmptyDividend()
    ensures Dividend([]) == Coeffs(ONES, 32)
  {
    UpZero(Coeffs(ONES, 32));
    SumLaws(Coeffs(ONES, 32), {}, {});
  }

  lemma ComplementIs(c: bv32)
    ensures Complement(c) as bv32 == Xor32(c, ONES)
  {
  }

  /** The CRC of p, its bits inverted, is the remainder of the dividend. */
  lemma CrcIsRemainder(p: seq<Byte>)
    ensures Congruent(Sum(Coeffs(Crc32(p) as bv32, 32), Coeffs(ONES, 32)), Dividend(p))
  {
    hide Congruent, Coeffs, CrcOf, Xor32, Complement, Dividend;
    RegisterLaw(p);
    ComplementIs(CrcOf(p));
    CoeffsXor(CrcOf(p), ONES, 32);
    SumLaws(Coeffs(CrcOf(p), 32), Coeffs(ONES, 32), Coeffs(ONES, 32));
    SumLaws(Coeffs(ONES, 32), {}, {});
  }
}
