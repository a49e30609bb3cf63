/** Rounding an exact quotient, and why rounding a truncated one is safe: with a
    sticky low bit it rounds as the exact one does. */
module Rounding {
  import opened Arith

  /** To nearest with ties to even, to nearest with ties away from zero,
      toward zero. */
  datatype Mode = RNDN | RNDNA | RNDZ

  /** Whether a remainder r of den above quotient q rounds up. */
  predicate RoundsUp(q: int, r: int, den: int, mode: Mode)
  {
    match mode
    case RNDZ => false
    case RNDN => 2 * r > den || (2 * r == den && q % 2 == 1)
    case RNDNA => 2 * r >= den
  }

  /** num / den rounded to an integer. */
  function RoundDiv(num: nat, den: nat, mode: Mode): (n: nat)
    requires den > 0
  {
    num / den + if RoundsUp(num / den, num % den, den, mode) then 1 else 0
  }

  /** The result is a nearest integer; a tie goes to the even neighbour, or
      upward. */
  lemma RoundDivNearest(num: nat, den: nat, mode: Mode)
    requires den > 0 && mode != RNDZ
    ensures var n := RoundDiv(num, den, mode);
            && 0 - den <= 2 * (n * den - num) <= den
            && (2 * (n * den - num) == 0 - den ==> mode == RNDN && n % 2 == 0)
            && (2 * (n * den - num) == den ==> mode == RNDNA || n % 2 == 0)
  {
    DivModEq(num, den);
    var q := num / den;
    assert (q + 1) * den == q * den + den;
  }

  /** round(v / 2^shift); a negative shift is a multiplication. */
  function RoundShift(v: nat, shift: int, mode: Mode): (n: nat)
  {
    if shift <= 0 then v * Pow(2, -shift) else RoundDiv(v, Pow(2, shift), mode)
  }

  // ---- truncated quotients with a sticky bit --------------------------------

  /** q with its low bit forced to one when inexact. */
  function SetSticky(q: nat, inexact: bool): (v: nat)
  {
    if inexact && q % 2 == 0 then q + 1 else q
  }

  lemma SameParity(q: nat, k: nat, g: nat, s: nat)
    requires q == k * (2 * g) + s
    ensures q % 2 == s % 2
  {
    MulAssoc(k, 2, g);
    var n := k * g;
    assert k * (2 * g) == 2 * n;
  }

  lemma StickySum(q: nat, m: nat, s: nat, inexact: bool, g: nat)
    requires q == m + s && q % 2 == s % 2 && s < 2 * g
    ensures SetSticky(q, inexact) == m + SetSticky(s, inexact) && SetSticky(s, inexact) < 2 * g
  {
    var half := s / 2;
    assert s == 2 * half || s == 2 * half + 1;
  }

  lemma StickyPart(q: nat, inexact: bool, g: nat, k: nat, s: nat)
    requires q == k * (2 * g) + s && s < 2 * g
    ensures SetSticky(q, inexact) == k * (2 * g) + SetSticky(s, inexact) && SetSticky(s, inexact) < 2 * g
  {
    hide SetSticky;
    SameParity(q, k, g, s);
    StickySum(q, k * (2 * g), s, inexact, g);
  }

  ghost predicate Even(p: nat) { p % 2 == 0 }

  lemma Halved(p: nat)
    requires Even(p)
    ensures p == 2 * (p / 2)
  {
  }

  /** Setting the sticky bit only touches the part below an even modulus. */
  lemma StickySplit(q: nat, inexact: bool, p: nat)
    requires p > 0 && Even(p)
    ensures SetSticky(q, inexact) / p == q / p
    ensures SetSticky(q, inexact) % p == SetSticky(q % p, inexact)
  {
    hide SetSticky, Even;
    var k: nat, s: nat := q / p, q % p;
    DivModEq(q, p);
    EvenPart(q, inexact, p, k, s);
    DivModUnique(SetSticky(q, inexact), p, k, SetSticky(s, inexact));
  }

  lemma EvenPart(q: nat, inexact: bool, p: nat, k: nat, s: nat)
    requires Even(p) && q == k * p + s && s < p
    ensures SetSticky(q, inexact) == k * p + SetSticky(s, inexact) && SetSticky(s, inexact) < p
  {
    hide SetSticky, Even;
    Halved(p);
    StickyPart(q, inexact, p / 2, k, s);
  }

  /** With at least two bits still to be dropped, the sticky bit lies below the
      half-way bit, so rounding the truncated quotient rounds the exact one. */
  lemma StickyRounds(num: nat, den: nat, shift: nat, mode: Mode)
    requires den > 0 && shift >= 2
    ensures den * Pow(2, shift) > 0
    ensures RoundDiv(SetSticky(num / den, num % den != 0), Pow(2, shift), mode)
            == RoundDiv(num, den * Pow(2, shift), mode)
  {
    var h := Pow(2, shift - 2);
    assert Pow(2, shift) == 2 * Pow(2, shift - 1) == 4 * h;
    StickyRoundsBy(num, den, h, mode);
  }

  lemma StickyRoundsBy(num: nat, den: nat, h: nat, mode: Mode)
    requires den > 0 && h > 0
    ensures den * (4 * h) > 0
    ensures RoundDiv(SetSticky(num / den, num % den != 0), 4 * h, mode)
            == RoundDiv(num, den * (4 * h), mode)
  {
    var q, r := num / den, num % den;
    StickySplit(q, r != 0, 4 * h);
    DivTwice(num, den, 4 * h);
    HalfCompare(q % (4 * h), r, den, h);
  }

  lemma HalfCompare(s: nat, r: nat, den: nat, h: nat)
    requires r < den && h > 0
    ensures var s' := SetSticky(s, r != 0);
            && (2 * s' > 4 * h <==> 2 * (s * den + r) > den * (4 * h))
            && (2 * s' == 4 * h <==> 2 * (s * den + r) == den * (4 * h))
  {
    var hh := 2 * h;
    assert den * (4 * h) == 2 * (hh * den);
    if s < hh {
      MulMono(s + 1, hh, den);
      assert (s + 1) * den == s * den + den;
    } else if s > hh {
      MulMono(hh + 1, s, den);
      assert (hh + 1) * den == hh * den + den;
    }
  }
}
