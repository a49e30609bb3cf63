/** Powers, Euclidean division and the few facts about products that the
    number-crunching modules share. */
module Arith {
  const TWO64: nat := 0x1_0000_0000_0000_0000

  function Pow(b: nat, n: nat): (p: nat)
    ensures b > 0 ==> p > 0
  {
    if n == 0 then 1 else b * Pow(b, n - 1)
  }

  /** Pow by repeated squaring: the form in which powers of literals are
      evaluated. */
  function FastPow(b: nat, n: nat): nat
  {
    if n == 0 then 1
    else
      var h := FastPow(b, n / 2);
      if n % 2 == 0 then h * h else b * (h * h)
  }

  lemma {:induction false} FastPowIsPow(b: nat, n: nat)
    ensures FastPow(b, n) == Pow(b, n)
  {
    if n == 0 {
    } else {
      FastPowIsPow(b, n / 2);
      PowAdd(b, n / 2, n / 2);
      if n % 2 == 0 {
        assert n == n / 2 + n / 2;
      } else {
        assert n == 1 + (n / 2 + n / 2);
      }
    }
  }

  function Max(a: int, b: int): int { if a < b then b else a }

  function Min(a: int, b: int): int { if a < b then a else b }

  function Abs(a: int): nat { if a < 0 then -a else a }

  lemma MulMono(a: nat, b: nat, c: nat)
    requires a <= b
    ensures a * c <= b * c
    ensures c * a <= c * b
  {
  }

  lemma MulStrict(a: nat, b: nat, c: nat)
    requires a < b && c > 0
    ensures a * c < b * c
    ensures c * a < c * b
  {
  }

  lemma MulCancelLe(a: int, b: int, c: int)
    requires c > 0 && a * c <= b * c
    ensures a <= b
  {
  }

  lemma MulCancelLt(a: int, b: int, c: int)
    requires c > 0 && a * c < b * c
    ensures a < b
  {
  }

  lemma MulCancelEq(a: int, b: int, c: int)
    requires c > 0 && a * c == b * c
    ensures a == b
  {
  }

  lemma MulAssoc(a: int, b: int, c: int)
    ensures a * (b * c) == (a * b) * c
  {
  }

  lemma MulDist(a: int, b: int, c: int)
    ensures a * (b + c) == a * b + a * c
    ensures (b + c) * a == b * a + c * a
    ensures a * (b - c) == a * b - a * c
    ensures (b - c) * a == b * a - c * a
  {
  }

  lemma {:induction false} PowAdd(b: nat, m: nat, n: nat)
    ensures Pow(b, m + n) == Pow(b, m) * Pow(b, n)
  {
    if m == 0 {
    } else {
      PowAdd(b, m - 1, n);
      MulAssoc(b, Pow(b, m - 1), Pow(b, n));
    }
  }

  lemma MulSwap(a: int, b: int, x: int, y: int)
    ensures (a * b) * (x * y) == (a * x) * (b * y)
  {
  }

  lemma {:induction false} PowOne(n: nat)
    ensures Pow(1, n) == 1
  {
    if n == 0 {
    } else {
      PowOne(n - 1);
    }
  }

  lemma {:induction false} PowMulBase(a: nat, b: nat, n: nat)
    ensures Pow(a * b, n) == Pow(a, n) * Pow(b, n)
  {
    if n == 0 {
    } else {
      PowMulBase(a, b, n - 1);
      MulSwap(a, b, Pow(a, n - 1), Pow(b, n - 1));
    }
  }

  lemma {:induction false} PowPow(b: nat, m: nat, n: nat)
    ensures Pow(b, m * n) == Pow(Pow(b, m), n)
  {
    if n > 0 {
      PowPow(b, m, n - 1);
      assert m * n == m + m * (n - 1);
      PowAdd(b, m, m * (n - 1));
    } else {
      assert m * n == 0;
    }
  }

  lemma {:induction false} PowMonoExp(b: nat, m: nat, n: nat)
    requires b >= 1 && m <= n
    ensures Pow(b, m) <= Pow(b, n)
  {
    PowAdd(b, m, n - m);
    MulMono(1, Pow(b, n - m), Pow(b, m));
  }

  lemma {:induction false} PowStrictExp(b: nat, m: nat, n: nat)
    requires b >= 2 && m < n
    ensures Pow(b, m) < Pow(b, n)
  {
    PowMonoExp(b, m + 1, n);
    MulStrict(1, b, Pow(b, m));
  }

  lemma {:induction false} PowMonoBase(a: nat, b: nat, n: nat)
    requires a <= b
    ensures Pow(a, n) <= Pow(b, n)
  {
    if n == 0 {
    } else {
      PowMonoBase(a, b, n - 1);
      MulMono(a, b, Pow(a, n - 1));
      MulMono(Pow(a, n - 1), Pow(b, n - 1), b);
    }
  }

  lemma {:induction false} PowStrictBase(a: nat, b: nat, n: nat)
    requires a < b && n > 0
    ensures Pow(a, n) < Pow(b, n)
  {
    PowMonoBase(a, b, n - 1);
    MulStrict(a, b, Pow(b, n - 1));
    MulMono(Pow(a, n - 1), Pow(b, n - 1), a);
  }

  /** Quotient and remainder are determined by the division equation. */
  lemma DivModUnique(n: int, d: int, q: int, r: int)
    requires d > 0 && n == q * d + r && 0 <= r < d
    ensures n / d == q && n % d == r
  {
    var q', r' := n / d, n % d;
    assert n == q' * d + r';
    assert (q - q') * d == r' - r;
    if q > q' {
      MulMono(1, q - q', d);
    } else if q < q' {
      MulMono(1, q' - q, d);
    }
  }

  lemma QuotientAtLeast(n: nat, d: nat, t: nat)
    requires d > 0 && t * d <= n
    ensures n / d >= t
  {
    DivModEq(n, d);
    if n / d + 1 <= t {
      MulMono(n / d + 1, t, d);
      MulDist(d, n / d, 1);
    }
  }

  lemma DivModEq(n: int, d: int)
    requires d > 0
    ensures n == (n / d) * d + n % d && 0 <= n % d < d
  {
  }

  lemma DivAddMultiple(x: int, p: int, m: int)
    requires p > 0
    ensures (x + p * m) / p == x / p + m && (x + p * m) % p == x % p
  {
    DivModEq(x, p);
    MulDist(p, x / p, m);
    DivModUnique(x + p * m, p, x / p + m, x % p);
  }

  lemma ModMul(x: nat, y: nat, m: nat)
    requires m > 0
    ensures ((x % m) * (y % m)) % m == (x * y) % m
  {
    DivModEq(x, m);
    DivModEq(y, m);
    var qx, rx, qy, ry := x / m, x % m, y / m, y % m;
    var k := qx * y + rx * qy;
    assert x * y == rx * ry + m * k by {
      MulDist(y, qx * m, rx);
      MulDist(rx, qy * m, ry);
      MulAssoc(rx, qy, m);
      MulSwap3(qx, m, y);
      MulDist(m, qx * y, rx * qy);
    }
    DivAddMultiple(rx * ry, m, k);
  }

  lemma MulSwap3(a: int, b: int, c: int)
    ensures a * b * c == a * c * b
  {
  }

  /** Dividing twice is dividing by the product, and the two remainders
      vanish together exactly when the single one does. */
  lemma DivTwice(n: nat, a: nat, b: nat)
    requires a > 0 && b > 0
    ensures a * b > 0
    ensures (n / a) / b == n / (a * b)
    ensures n % (a * b) == (n / a) % b * a + n % a
    ensures n % (a * b) == 0 <==> n % a == 0 && (n / a) % b == 0
  {
    MulMono(1, a, b);
    var q1, r1 := n / a, n % a;
    var q2, r2 := q1 / b, q1 % b;
    assert n == q2 * (a * b) + (r2 * a + r1) by {
      MulDist(a, q2 * b, r2);
      MulAssoc(q2, b, a);
    }
    assert r2 * a + a <= a * b by {
      MulMono(r2 + 1, b, a);
      MulDist(a, r2, 1);
    }
    MulMono(0, r2, a);
    DivModUnique(n, a * b, q2, r2 * a + r1);
    if r2 > 0 { MulMono(1, r2, a); }
  }
}
