/** What Miller-Rabin rests on: Euclid's lemma, Fermat's little theorem, and that a
    prime has no square roots of 1 but 1 and -1. */
module NumberTheory {
  import opened Arith

  ghost predicate IsPrime(n: int)
  {
    n >= 2 && forall d :: 1 < d < n ==> n % d != 0
  }

  ghost predicate Divides(p: int, x: int)
    requires p > 0
  {
    x % p == 0
  }

  // ---- divisibility --------------------------------------------------------------------------

  lemma DividesProduct(p: int, k: int)
    requires p > 0
    ensures Divides(p, p * k) && Divides(p, k * p)
  {
  }

  lemma Quotient(p: int, x: int) returns (k: int)
    requires p > 0 && Divides(p, x)
    ensures x == p * k
  {
    k := x / p;
    DivModEq(x, p);
  }

  lemma DividesMul(p: int, x: int, y: int)
    requires p > 0 && Divides(p, x)
    ensures Divides(p, x * y) && Divides(p, y * x)
  {
    var k := Quotient(p, x);
    MulAssoc(p, k, y);
    DividesProduct(p, k * y);
  }

  lemma DividesSum(p: int, x: int, y: int)
    requires p > 0 && Divides(p, x) && Divides(p, y)
    ensures Divides(p, x + y) && Divides(p, x - y)
  {
    var a := Quotient(p, x);
    var b := Quotient(p, y);
    MulDist(p, a, b);
    MulDist(p, a, -b);
    DividesProduct(p, a + b);
    DividesProduct(p, a - b);
  }

  lemma DividesSmall(p: int, x: int)
    requires p > 0 && Divides(p, x) && 0 <= x < p
    ensures x == 0
  {
  }

  /** Equal remainders mean a difference that divides. */
  lemma SameRemainder(p: int, x: int, y: int)
    requires p > 0
    ensures x % p == y % p <==> Divides(p, x - y)
  {
    if x % p == y % p { RemainderDivides(p, x, y); }
    if Divides(p, x - y) { DividesRemainder(p, x, y); }
  }

  lemma RemainderDivides(p: int, x: int, y: int)
    requires p > 0 && x % p == y % p
    ensures Divides(p, x - y)
  {
    var a, b := x / p, y / p;
    DivModEq(x, p);
    DivModEq(y, p);
    MulDist(p, a, -b);
    DividesProduct(p, a - b);
  }

  lemma DividesRemainder(p: int, x: int, y: int)
    requires p > 0 && Divides(p, x - y)
    ensures x % p == y % p
  {
    var k := Quotient(p, x - y);
    var b, r := y / p, y % p;
    DivModEq(y, p);
    MulDist(p, k, b);
    DivModUnique(x, p, k + b, r);
  }

  // ---- Euclid ------------------------------------------------------------------------------------

  /** A prime that divides a product divides a factor. */
  lemma {:induction false} Euclid(p: int, a: int, b: int)
    requires IsPrime(p) && 0 < a < p && Divides(p, a * b)
    ensures Divides(p, b)
    decreases a
  {
    if a <= 1 {
    } else {
      var q, r := p / a, p % a;
      DivModEq(p, a);
      assert 0 < r < a;
      assert r * b == p * b - q * (a * b) by {
        MulDist(b, q * a, r);
        MulAssoc(q, a, b);
      }
      DividesProduct(p, b);
      DividesMul(p, a * b, q);
      DividesSum(p, p * b, q * (a * b));
      Euclid(p, r, b);
    }
  }

  lemma EuclidAny(p: int, a: int, b: int)
    requires IsPrime(p) && Divides(p, a * b) && !Divides(p, a)
    ensures Divides(p, b)
  {
    var k, r := a / p, a % p;
    DivModEq(a, p);
    assert r * b == a * b - p * (k * b) by {
      MulDist(b, k * p, r);
      MulAssoc(p, k, b);
    }
    DividesProduct(p, k * b);
    DividesSum(p, a * b, p * (k * b));
    Euclid(p, r, b);
  }

  // ---- binomial coefficients --------------------------------------------------------------------------

  ghost function Binomial(n: nat, k: nat): nat
  {
    if k == 0 then 1 else if n == 0 then 0 else Binomial(n - 1, k - 1) + Binomial(n - 1, k)
  }

  lemma {:induction false} BinomialTop(n: nat, k: nat)
    requires k > n
    ensures Binomial(n, k) == 0
  {
    if n == 0 {
    } else {
      BinomialTop(n - 1, k - 1);
      BinomialTop(n - 1, k);
    }
  }

  /** k C(n, k) == n C(n - 1, k - 1) */
  lemma {:induction false} Absorption(n: nat, k: nat)
    requires n >= 1 && k >= 1
    ensures k * Binomial(n, k) == n * Binomial(n - 1, k - 1)
  {
    if n == 1 {
      BinomialSmall(k);
    } else {
      var a, b := Binomial(n - 1, k - 1), Binomial(n - 1, k);
      Absorption(n - 1, k);
      MulDist(k, a, b);
      if k == 1 {
        assert a == 1;
      } else {
        Absorption(n - 1, k - 1);
        AbsorptionStep(n, k, a, b, Binomial(n - 2, k - 1), Binomial(n - 2, k - 2));
      }
    }
  }

  lemma BinomialSmall(k: nat)
    requires k >= 1
    ensures k * Binomial(1, k) == Binomial(0, k - 1)
  {
  }

  lemma AbsorptionStep(n: nat, k: nat, a: int, b: int, c: int, d: int)
    requires k * b == (n - 1) * c && (k - 1) * a == (n - 1) * d && a == c + d
    ensures k * (a + b) == n * a
  {
  }

  lemma BinomialDivides(p: int, k: nat)
    requires IsPrime(p) && 1 <= k < p
    ensures Divides(p, Binomial(p, k))
  {
    Absorption(p, k);
    DividesProduct(p, Binomial(p - 1, k - 1));
    Euclid(p, k, Binomial(p, k));
  }

  /** The terms C(n, i) x^i for i <= k. */
  ghost function Expansion(n: nat, x: nat, k: nat): nat
  {
    Binomial(n, k) * Pow(x, k) + if k == 0 then 0 else Expansion(n, x, k - 1)
  }

  lemma {:induction false} ExpansionStep(n: nat, x: nat, k: nat)
    requires k >= 1
    ensures Expansion(n + 1, x, k) == Expansion(n, x, k) + x * Expansion(n, x, k - 1)
  {
    var a, b, q := Binomial(n, k - 1), Binomial(n, k), Pow(x, k - 1);
    assert (a + b) * (x * q) == a * (x * q) + b * (x * q);
    assert a * (x * q) == x * (a * q) by { MulAssoc(x, a, q); MulAssoc(a, x, q); }
    if k > 1 {
      ExpansionStep(n, x, k - 1);
      MulDist(x, a * q, Expansion(n, x, k - 2));
    } else {
      assert Expansion(n + 1, x, 0) == 1 == Expansion(n, x, 0);
    }
  }

  lemma {:induction false} BinomialTheorem(n: nat, x: nat)
    ensures Expansion(n, x, n) == Pow(x + 1, n)
  {
    if n == 0 {
    } else {
      BinomialTheorem(n - 1, x);
      ExpansionStep(n - 1, x, n);
      BinomialTop(n - 1, n);
      MulDist(Pow(x + 1, n - 1), x, 1);
    }
  }

  /** Modulo p only the ends of the expansion remain. */
  lemma {:induction false} ExpansionMod(p: int, x: nat, k: nat)
    requires IsPrime(p) && k < p
    ensures Divides(p, Expansion(p, x, k) - 1)
  {
    if k == 0 {
    } else {
      ExpansionMod(p, x, k - 1);
      BinomialDivides(p, k);
      DividesMul(p, Binomial(p, k), Pow(x, k));
      DividesSum(p, Binomial(p, k) * Pow(x, k), Expansion(p, x, k - 1) - 1);
    }
  }

  // ---- Fermat ------------------------------------------------------------------------------------------

  lemma {:induction false} BinomialFull(n: nat)
    ensures Binomial(n, n) == 1
  {
    if n == 0 {
    } else {
      BinomialFull(n - 1);
      BinomialTop(n - 1, n);
    }
  }

  /** a^p and a leave the same remainder. */
  lemma {:induction false} FermatSum(p: int, a: nat)
    requires IsPrime(p)
    ensures Divides(p, Pow(a, p) - a)
  {
    hide Pow, Binomial, Expansion, IsPrime, Divides;
    PrimeAtLeast2(p);
    if a == 0 {
      ZeroPower(p);
    } else {
      var x := a - 1;
      FermatSum(p, x);
      SumOfPowers(p, x);
      ExpansionMod(p, x, p - 1);
      DividesSum(p, Pow(x, p) - x, Expansion(p, x, p - 1) - 1);
    }
  }

  lemma PrimeAtLeast2(p: int)
    requires IsPrime(p)
    ensures p >= 2
  {
  }

  lemma ZeroPower(p: int)
    requires p >= 1
    ensures Divides(p, Pow(0, p) - 0)
  {
  }

  lemma SumOfPowers(n: nat, x: nat)
    requires n >= 1
    ensures Pow(x + 1, n) == Pow(x, n) + Expansion(n, x, n - 1)
  {
    BinomialTheorem(n, x);
    BinomialFull(n);
  }

  /** Fermat's little theorem. */
  lemma Fermat(p: int, a: nat)
    requires IsPrime(p) && !Divides(p, a)
    ensures Pow(a, p - 1) % p == 1
  {
    FermatSum(p, a);
    var q := Pow(a, p - 1);
    assert Pow(a, p) - a == a * (q - 1) by { MulDist(a, q, -1); }
    EuclidAny(p, a, q - 1);
    SameRemainder(p, q, 1);
    DivModUnique(1, p, 0, 1);
  }

  /** Only 1 and -1 square to 1. */
  lemma SquareRoots(p: int, x: int)
    requires IsPrime(p) && 0 <= x < p && (x * x) % p == 1
    ensures x == 1 || x == p - 1
  {
    DivModUnique(1, p, 0, 1);
    SameRemainder(p, x * x, 1);
    assert x * x - 1 == (x - 1) * (x + 1);
    if Divides(p, x - 1) {
      if x == 0 {
        DivModUnique(-1, p, -1, p - 1);
      } else {
        DividesSmall(p, x - 1);
      }
    } else {
      EuclidAny(p, x - 1, x + 1);
      if x + 1 < p { DividesSmall(p, x + 1); }
    }
  }
}
