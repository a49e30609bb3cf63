/** Positional notation: the integer a digit string stands for, and the digits of an
    integer, most significant first. */
module Digits {
  import opened Arith

  predicate AreDigits(s: seq<nat>, radix: nat)
  {
    forall i :: 0 <= i < |s| ==> s[i] < radix
  }

  /** The integer a digit string stands for. */
  ghost function DigitsVal(s: seq<nat>, radix: nat): nat
  {
    if s == [] then 0 else DigitsVal(s[..|s| - 1], radix) * radix + s[|s| - 1]
  }

  lemma DigitsSnoc(s: seq<nat>, i: nat, radix: nat)
    requires i < |s|
    ensures DigitsVal(s[..i + 1], radix) == DigitsVal(s[..i], radix) * radix + s[i]
  {
    assert s[..i + 1][..i] == s[..i];
  }

  lemma {:induction false} DigitsBound(s: seq<nat>, radix: nat)
    requires radix > 0 && AreDigits(s, radix)
    ensures DigitsVal(s, radix) < Pow(radix, |s|)
    ensures |s| > 0 && s[0] > 0 ==> DigitsVal(s, radix) >= Pow(radix, |s| - 1)
  {
    if |s| == 0 {
    } else {
      var t := s[..|s| - 1];
      DigitsBound(t, radix);
      DigitStep(DigitsVal(t, radix), Pow(radix, |s| - 1), radix, s[|s| - 1]);
      if |s| > 1 && s[0] > 0 { MulMono(Pow(radix, |s| - 2), DigitsVal(t, radix), radix); }
    }
  }

  lemma DigitStep(v: nat, p: nat, radix: nat, c: nat)
    requires v < p && c < radix
    ensures v * radix + c < radix * p
  {
    MulMono(v + 1, p, radix);
  }

  /** Cutting a digit string in two. */
  lemma {:induction false} DigitsSplit(s: seq<nat>, k: nat, radix: nat)
    requires k <= |s|
    ensures DigitsVal(s, radix) == DigitsVal(s[..k], radix) * Pow(radix, |s| - k) + DigitsVal(s[k..], radix)
  {
    if k == |s| {
      assert s[..k] == s;
    } else {
      var n := |s| - 1;
      DigitsSplit(s[..n], k, radix);
      assert s[..n][..k] == s[..k] && s[..n][k..] == s[k..n] && s[k..][..n - k] == s[k..n];
      var a, p := DigitsVal(s[..k], radix), Pow(radix, n - k);
      assert (a * p) * radix == a * (radix * p) by { MulAssoc(a, p, radix); }
      MulDist(radix, a * p, DigitsVal(s[k..n], radix));
    }
  }

  lemma {:induction false} ZerosVal(z: seq<nat>, radix: nat)
    requires forall i :: 0 <= i < |z| ==> z[i] == 0
    ensures DigitsVal(z, radix) == 0
  {
    if z == [] {
    } else {
      ZerosVal(z[..|z| - 1], radix);
    }
  }

  // ---- the digits of an integer ------------------------------------------------------

  function ToDigits(v: nat, radix: nat, n: nat): (s: seq<nat>)
    requires radix > 0
    ensures |s| == n
    decreases n
  {
    if n == 0 then [] else ToDigits(v / radix, radix, n - 1) + [v % radix]
  }

  lemma ToDigitsStep(v: nat, radix: nat, n: nat, t: seq<nat>)
    requires radix > 0 && n > 0 && t == ToDigits(v / radix, radix, n - 1)
    ensures ToDigits(v, radix, n) == t + [v % radix]
    ensures ToDigits(v, radix, n)[..n - 1] == t && v % radix < radix
  {
  }

  lemma {:induction false} DigitsBelow(v: nat, radix: nat, n: nat)
    requires radix > 0
    ensures AreDigits(ToDigits(v, radix, n), radix)
    decreases n
  {
    if n == 0 {
    } else {
      DigitsBelow(v / radix, radix, n - 1);
      ToDigitsStep(v, radix, n, ToDigits(v / radix, radix, n - 1));
    }
  }

  lemma DigitsAppend(t: seq<nat>, radix: nat, c: nat)
    requires AreDigits(t, radix) && c < radix
    ensures AreDigits(t + [c], radix) && DigitsVal(t + [c], radix) == DigitsVal(t, radix) * radix + c
  {
  }

  lemma {:induction false} DigitsOfValue(s: seq<nat>, radix: nat)
    requires radix > 0 && AreDigits(s, radix)
    ensures ToDigits(DigitsVal(s, radix), radix, |s|) == s
  {
    if s == [] {
    } else {
      var n := |s| - 1;
      var t, c := s[..n], s[n];
      DigitsOfValue(t, radix);
      DivModUnique(DigitsVal(s, radix), radix, DigitsVal(t, radix), c);
      assert s == t + [c];
    }
  }

  lemma {:induction false} ValueOfDigits(v: nat, radix: nat, n: nat, s: seq<nat>)
    requires radix > 0 && v < Pow(radix, n) && s == ToDigits(v, radix, n)
    ensures AreDigits(s, radix) && DigitsVal(s, radix) == v
    decreases n
  {
    hide ToDigits;
    if n == 0 {
      assert s == [];
    } else {
      QuotientBelow(v, radix, Pow(radix, n - 1));
      var t := ToDigits(v / radix, radix, n - 1);
      ValueOfDigits(v / radix, radix, n - 1, t);
      ToDigitsStep(v, radix, n, t);
      DigitsAppend(t, radix, v % radix);
    }
  }

  /** A number has the given digits exactly when it is their value. */
  lemma DigitsAre(x: nat, radix: nat, s: seq<nat>)
    requires radix > 0 && AreDigits(s, radix) && x < Pow(radix, |s|)
    ensures ToDigits(x, radix, |s|) == s <==> x == DigitsVal(s, radix)
  {
    hide ToDigits, DigitsVal;
    ValueOfDigits(x, radix, |s|, ToDigits(x, radix, |s|));
    DigitsOfValue(s, radix);
  }

  lemma QuotientBelow(v: nat, radix: nat, p: nat)
    requires radix > 0 && v < radix * p
    ensures v / radix < p && v == v / radix * radix + v % radix
  {
  }

  /** The leading digits are those of the quotient. */
  lemma {:induction false} LeadingDigits(v: nat, radix: nat, n: nat, m: nat)
    requires radix > 0 && m <= n
    ensures ToDigits(v, radix, n)[..m] == ToDigits(v / Pow(radix, n - m), radix, m)
    decreases n
  {
    hide ToDigits;
    if m == n {
      assert Pow(radix, 0) == 1;
    } else {
      var t := ToDigits(v / radix, radix, n - 1);
      LeadingDigits(v / radix, radix, n - 1, m);
      DivTwice(v, radix, Pow(radix, n - 1 - m));
      ToDigitsStep(v, radix, n, t);
      assert ToDigits(v, radix, n)[..m] == ToDigits(v, radix, n)[..n - 1][..m];
    }
  }

  /** A string survives when the value of its digits is known up to less than one unit
      of its last place. */
  lemma Survives(s: seq<nat>, radix: nat, n: nat, p: nat)
    requires radix > 0 && AreDigits(s, radix) && |s| <= n
    requires DigitsVal(s, radix) * Pow(radix, n - |s|) <= p < (DigitsVal(s, radix) + 1) * Pow(radix, n - |s|)
    ensures ToDigits(p, radix, n)[..|s|] == s
  {
    var unit, v := Pow(radix, n - |s|), DigitsVal(s, radix);
    MulDist(unit, v, 1);
    DivModUnique(p, unit, v, p - v * unit);
    LeadingDigits(p, radix, n, |s|);
    DigitsOfValue(s, radix);
  }
}
