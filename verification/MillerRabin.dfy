/** The deterministic Miller-Rabin test of dyna:mathx. */
module MillerRabin {
  import opened Arith
  import opened NumberTheory

  const SMALL_PRIMES: seq<nat> := [2, 3, 5, 7, 11, 13, 17, 19, 23, 29, 31, 37]

  /** mulmod64: the product is taken in 128 bits. */
  function Mulmod(a: nat, b: nat, m: nat): (r: nat)
    requires m > 0
    ensures r < m
  {
    (a * b) % m
  }

  /** powmod64: square and multiply. */
  method Powmod(base0: nat, exp0: nat, m: nat) returns (result: nat)
    requires m >= 2
    ensures result == Pow(base0, exp0) % m
  {
    hide Pow;
    result := 1;
    var base: nat := base0 % m;
    var exp: nat := exp0;
    PowmodStart(base0, exp0, m);
    while exp > 0
      invariant result < m && base < m && 0 <= exp
      invariant (result * Pow(base, exp)) % m == Pow(base0, exp0) % m
    {
      PowmodStep(result, base, exp, m);
      if exp % 2 == 1 {
        result := Mulmod(result, base, m);
      }
      base := Mulmod(base, base, m);
      exp := exp / 2;
    }
    PowmodEnd(result, base, exp, m);
  }

  /** A power of a remainder leaves the remainder of the power. */
  lemma {:induction false} PowMod(b: nat, n: nat, m: nat)
    requires m > 0
    ensures Pow(b % m, n) % m == Pow(b, n) % m
  {
    if n == 0 {
    } else {
      PowMod(b, n - 1, m);
      ModMul(b % m, Pow(b % m, n - 1), m);
      ModMul(b, Pow(b, n - 1), m);
      RemainderTwice(b, m);
    }
  }

  lemma RemainderTwice(b: nat, m: nat)
    requires m > 0
    ensures b % m % m == b % m
  {
  }

  lemma PowmodStart(b: nat, n: nat, m: nat)
    requires m >= 2
    ensures (1 * Pow(b % m, n)) % m == Pow(b, n) % m
  {
    PowMod(b, n, m);
  }

  lemma PowmodEnd(r: nat, b: nat, e: int, m: nat)
    requires r < m && e == 0
    ensures (r * Pow(b, e)) % m == r
  {
  }

  /** r b^e stays the same modulo m. */
  lemma PowmodStep(r: nat, b: nat, e: nat, m: nat)
    requires m >= 2 && e > 0
    ensures ((if e % 2 == 1 then (r * b) % m else r) * Pow((b * b) % m, e / 2)) % m == (r * Pow(b, e)) % m
  {
    hide Pow;
    var h := e / 2;
    var q := Pow(b * b, h);
    PowMod(b * b, h, m);
    SquarePower(b, h);
    if e % 2 == 1 {
      PowerAfter(b, 2 * h);
      MulAssoc(r, b, q);
      SameProduct((r * b) % m, Pow((b * b) % m, h), r * b, q, m);
    } else {
      SameProduct(r, Pow((b * b) % m, h), r, q, m);
    }
  }

  lemma SquarePower(b: nat, h: nat)
    ensures Pow(b * b, h) == Pow(b, 2 * h)
  {
  }

  lemma PowerAfter(b: nat, n: nat)
    ensures Pow(b, n + 1) == b * Pow(b, n)
  {
  }

  lemma SameProduct(x: nat, y: nat, x': nat, y': nat, m: nat)
    requires m > 0 && (x == x' || x == x' % m) && y % m == y' % m
    ensures (x * y) % m == (x' * y') % m
  {
    RemainderTwice(x', m);
    ModMul(x, y, m);
    ModMul(x', y', m);
  }

  // ---- the squaring sequence --------------------------------------------------------------------------

  /** a^(d 2^j) mod n */
  ghost function Square(a: nat, d: nat, j: nat, n: nat): nat
    requires n > 0
  {
    Pow(a, d * Pow(2, j)) % n
  }

  lemma SquareStep(a: nat, d: nat, j: nat, n: nat)
    requires n > 0
    ensures Square(a, d, j + 1, n) == Mulmod(Square(a, d, j, n), Square(a, d, j, n), n)
  {
    var e := d * Pow(2, j);
    assert d * Pow(2, j + 1) == e + e by { MulAssoc(d, 2, Pow(2, j)); MulSwap3(d, 2, Pow(2, j)); }
    PowAdd(a, e, e);
    ModMul(Pow(a, e), Pow(a, e), n);
  }

  lemma SquareRange(a: nat, d: nat, j: nat, n: nat)
    requires n > 0
    ensures 0 <= Square(a, d, j, n) < n
  {
  }

  /** For a prime n the sequence ends in 1, so going back from there it is all 1
      unless -1 comes before. */
  lemma {:induction false} WitnessFails(a: nat, d: nat, r: nat, n: int, j: nat)
    requires IsPrime(n) && !Divides(n, a) && d * Pow(2, r) == n - 1 && j <= r
    requires forall k :: j <= k < r ==> Square(a, d, k, n) != n - 1
    ensures Square(a, d, j, n) == 1
    decreases r - j
  {
    hide Square;
    if j == r {
      LastSquare(a, d, r, n);
    } else {
      WitnessFails(a, d, r, n, j + 1);
      SquareStep(a, d, j, n);
      SquareRange(a, d, j, n);
      SquareRoots(n, Square(a, d, j, n));
    }
  }

  lemma LastSquare(a: nat, d: nat, r: nat, n: int)
    requires IsPrime(n) && !Divides(n, a) && d * Pow(2, r) == n - 1
    ensures Square(a, d, r, n) == 1
  {
    Fermat(n, a);
  }

  /** The base a, raised to the odd number d and squared on, reaches neither 1 first nor -1. */
  ghost predicate Accuses(a: nat, d: nat, r: nat, n: nat)
    requires n > 0
  {
    Square(a, d, 0, n) != 1 && forall k :: 0 <= k < r ==> Square(a, d, k, n) != n - 1
  }

  /** The inner loop: whether the base a proves n composite. */
  method IsWitness(a: nat, d: nat, r: nat, n: nat) returns (composite: bool)
    requires n >= 2 && r >= 1 && d * Pow(2, r) == n - 1
    ensures composite <==> Accuses(a, d, r, n)
  {
    hide Square, Pow;
    var x := Powmod(a, d, n);
    FirstSquare(a, d, n);
    if x == 1 || x == n - 1 {
      assert x == n - 1 ==> Square(a, d, 0, n) == n - 1;
      return false;
    }
    var j := 0;
    while j < r - 1
      invariant 0 <= j <= r - 1 && x == Square(a, d, j, n)
      invariant forall k :: 0 <= k <= j ==> Square(a, d, k, n) != n - 1
    {
      SquareStep(a, d, j, n);
      x := Mulmod(x, x, n);
      j := j + 1;
      if x == n - 1 {
        return false;
      }
    }
    composite := true;
  }

  lemma FirstSquare(a: nat, d: nat, n: nat)
    requires n > 0
    ensures Square(a, d, 0, n) == Pow(a, d) % n
  {
  }

  /** No base below n exposes a prime. */
  lemma PrimeHasNoWitness(a: nat, d: nat, r: nat, n: int)
    requires IsPrime(n) && 0 < a < n && r >= 1 && d * Pow(2, r) == n - 1
    ensures !Accuses(a, d, r, n)
  {
    hide Square;
    if forall k :: 0 <= k < r ==> Square(a, d, k, n) != n - 1 {
      if Divides(n, a) { DividesSmall(n, a); }
      WitnessFails(a, d, r, n, 0);
    }
  }

  /** The odd part of n and the power of two beside it. */
  function OddPart(n: nat): (d: nat)
  {
    if n > 0 && n % 2 == 0 then OddPart(n / 2) else n
  }

  function Twos(n: nat): (r: nat)
  {
    if n > 0 && n % 2 == 0 then 1 + Twos(n / 2) else 0
  }

  method SplitPowerOfTwo(n: nat) returns (d: nat, r: nat)
    requires n >= 3 && n % 2 == 1
    ensures d == OddPart(n - 1) && r == Twos(n - 1)
    ensures r >= 1 && d % 2 == 1 && d * Pow(2, r) == n - 1
  {
    d, r := n - 1, 0;
    assert Pow(2, 0) == 1;
    while d % 2 == 0
      invariant d > 0 && d * Pow(2, r) == n - 1 && (r == 0 ==> d == n - 1)
      invariant OddPart(d) == OddPart(n - 1) && r + Twos(d) == Twos(n - 1)
      decreases d
    {
      MulAssoc(d / 2, 2, Pow(2, r));
      d, r := d / 2, r + 1;
    }
  }

  /** One of the twelve, or divided by none of them and accused by none of them. */
  ghost predicate Passes(n: nat)
  {
    n in SMALL_PRIMES
    || (n >= 2 && (forall k :: 0 <= k < |SMALL_PRIMES| ==> n % SMALL_PRIMES[k] != 0)
        && forall k :: 0 <= k < |SMALL_PRIMES| ==> !Accuses(SMALL_PRIMES[k], OddPart(n - 1), Twos(n - 1), n))
  }

  /** dyn_mathx_is_prime_u64: it accepts exactly what passes the twelve bases, never rejects
      a prime, and is exact below 41^2. */
  method IsPrimeU64(n: nat) returns (prime: bool)
    requires n < TWO64
    ensures prime <==> Passes(n)
    ensures IsPrime(n) ==> prime
    ensures n < 41 * 41 ==> (prime <==> IsPrime(n))
  {
    hide Accuses;
    if n < 2 {
      return false;
    }
    for i := 0 to |SMALL_PRIMES|
      invariant forall k :: 0 <= k < i ==> n % SMALL_PRIMES[k] != 0
    {
      if n == SMALL_PRIMES[i] {
        SmallPrime(i);
        return true;
      }
      if n % SMALL_PRIMES[i] == 0 {
        NotPrime(n, SMALL_PRIMES[i]);
        NotSmall(n);
        return false;
      }
    }
    LargeEnough(n);
    if n < 41 * 41 { NoSmallFactor(n); }
    var d, r := SplitPowerOfTwo(n);
    for i := 0 to |SMALL_PRIMES|
      invariant forall k :: 0 <= k < i ==> !Accuses(SMALL_PRIMES[k], d, r, n)
    {
      var a := SMALL_PRIMES[i];
      var composite := IsWitness(a, d, r, n);
      if composite {
        if IsPrime(n) { PrimeHasNoWitness(a, d, r, n); }
        return false;
      }
    }
    return true;
  }

  lemma NotSmall(n: nat)
    requires !IsPrime(n)
    ensures n !in SMALL_PRIMES
  {
    forall i | 0 <= i < |SMALL_PRIMES|
      ensures IsPrime(SMALL_PRIMES[i])
    {
      SmallPrime(i);
    }
  }

  lemma NotPrime(n: nat, d: nat)
    requires n >= 2 && d >= 2 && n % d == 0 && n != d
    ensures !IsPrime(n)
  {
  }

  lemma SmallPrime(i: nat)
    requires i < |SMALL_PRIMES|
    ensures IsPrime(SMALL_PRIMES[i])
  {
  }

  /** A number none of them divides is odd and beyond them all. */
  lemma LargeEnough(n: nat)
    requires n >= 2 && forall k :: 0 <= k < |SMALL_PRIMES| ==> n % SMALL_PRIMES[k] != 0
    ensures n > 37 && n % 2 == 1
  {
    assert n % SMALL_PRIMES[0] != 0;
    DivModUnique(n, n, 1, 0);
    if n <= 37 { SmallFactor(n, n); }
  }

  /** Every number up to 40 has one of the small primes as a factor. */
  lemma SmallFactor(n: nat, d: nat)
    requires 2 <= d <= 40 && forall k :: 0 <= k < |SMALL_PRIMES| ==> n % SMALL_PRIMES[k] != 0
    ensures n % d != 0
  {
    if n % d == 0 {
      if d % 2 == 0 { FactorOfFactor(n, d, SMALL_PRIMES[0]); }
      else if d % 3 == 0 { FactorOfFactor(n, d, SMALL_PRIMES[1]); }
      else if d % 5 == 0 { FactorOfFactor(n, d, SMALL_PRIMES[2]); }
      else { LargeSmallPrime(d); }
    }
  }

  lemma FactorOfFactor(n: nat, d: nat, q: nat)
    requires d > 0 && q > 0 && n % d == 0 && d % q == 0
    ensures n % q == 0
  {
    var k := Quotient(d, n);
    DividesMul(q, d, k);
  }

  lemma LargeSmallPrime(d: nat)
    requires 2 <= d <= 40 && d % 2 != 0 && d % 3 != 0 && d % 5 != 0
    ensures exists k :: 0 <= k < |SMALL_PRIMES| && SMALL_PRIMES[k] == d
  {
    assert SMALL_PRIMES[3] == 7 && SMALL_PRIMES[4] == 11 && SMALL_PRIMES[5] == 13 && SMALL_PRIMES[6] == 17;
    assert SMALL_PRIMES[7] == 19 && SMALL_PRIMES[8] == 23 && SMALL_PRIMES[9] == 29 && SMALL_PRIMES[10] == 31;
    assert SMALL_PRIMES[11] == 37;
  }

  lemma NoSmallFactor(n: nat)
    requires 37 < n < 41 * 41 && forall k :: 0 <= k < |SMALL_PRIMES| ==> n % SMALL_PRIMES[k] != 0
    ensures IsPrime(n)
  {
    forall d | 1 < d < n
      ensures n % d != 0
    {
      if d <= 40 {
        SmallFactor(n, d);
      } else if n % d == 0 {
        var e := n / d;
        DivModEq(n, d);
        if e >= 41 { MulMono(41, e, d); MulMono(41, d, 41); }
        if e <= 1 { MulMono(e, 1, d); }
        DividesProduct(e, d);
        SmallFactor(n, e);
      }
    }
  }
}
