/** Reading the significant digits of a number: the accumulation loop of js_atod,
    which keeps up to 16 decimal digits in one word, and packs the others limb by
    limb into a multi-limb integer. */
module Mantissa {
  import opened Arith
  import opened Limbs
  import opened Bignum
  import opened Tables
  import opened Scaling
  import opened Digits

  // ---- tables ----------------------------------------------------------------------

  /** radix_base_table: radix^digits_per_limb, where 0 stands for 2^32. */
  function RadixBaseEntry(radix: nat): Limb
    requires IsRadix(radix)
  {
    match radix
    case 2 => 0x00000000
    case 3 => 0xcfd41b91
    case 4 => 0x00000000
    case 5 => 0x48c27395
    case 6 => 0x81bf1000
    case 7 => 0x75db9c97
    case 8 => 0x40000000
    case 9 => 0xcfd41b91
    case 10 => 0x3b9aca00
    case 11 => 0x8c8b6d2b
    case 12 => 0x19a10000
    case 13 => 0x309f1021
    case 14 => 0x57f6c100
    case 15 => 0x98c29b81
    case 16 => 0x00000000
    case 17 => 0x18754571
    case 18 => 0x247dbc80
    case 19 => 0x3547667b
    case 20 => 0x4c4b4000
    case 21 => 0x6b5a6e1d
    case 22 => 0x94ace180
    case 23 => 0xcaf18367
    case 24 => 0x0b640000
    case 25 => 0x0e8d4a51
    case 26 => 0x1269ae40
    case 27 => 0x17179149
    case 28 => 0x1cb91000
    case 29 => 0x23744899
    case 30 => 0x2b73a840
    case 31 => 0x34e63b41
    case 32 => 0x40000000
    case 33 => 0x4cfa3cc1
    case 34 => 0x5c13d840
    case 35 => 0x6d91b519
    case _ => 0x81bf1000
  }

  function RadixBase(radix: nat): nat
    requires IsRadix(radix)
  {
    if RadixBaseEntry(radix) == 0 then BASE else RadixBaseEntry(radix)
  }

  lemma RadixBaseIsPower(radix: nat)
    requires IsRadix(radix)
    ensures RadixBase(radix) == Pow(radix, DigitsPerLimb(radix)) <= BASE
  {
    hide Pow;
    FastPowIsPow(radix, DigitsPerLimb(radix));
    if radix <= 6 { BaseRows0(radix); }
    else if radix <= 11 { BaseRows1(radix); }
    else if radix <= 16 { BaseRows2(radix); }
    else if radix <= 21 { BaseRows3(radix); }
    else if radix <= 26 { BaseRows4(radix); }
    else if radix <= 31 { BaseRows5(radix); }
    else { BaseRows6(radix); }
  }

  lemma BaseRows0(radix: nat)
    requires 2 <= radix <= 6
    ensures RadixBase(radix) == FastPow(radix, DigitsPerLimb(radix)) <= BASE
  {
    match radix {
      case 2 => assert FastPow(2, 32) == BASE;
      case 3 => assert FastPow(3, 20) == 0xcfd41b91;
      case 4 => assert FastPow(4, 16) == BASE;
      case 5 => assert FastPow(5, 13) == 0x48c27395;
      case 6 => assert FastPow(6, 12) == 0x81bf1000;
    }
  }

  lemma BaseRows1(radix: nat)
    requires 7 <= radix <= 11
    ensures RadixBase(radix) == FastPow(radix, DigitsPerLimb(radix)) <= BASE
  {
    match radix {
      case 7 => assert FastPow(7, 11) == 0x75db9c97;
      case 8 => assert FastPow(8, 10) == 0x40000000;
      case 9 => assert FastPow(9, 10) == 0xcfd41b91;
      case 10 => assert FastPow(10, 9) == 0x3b9aca00;
      case 11 => assert FastPow(11, 9) == 0x8c8b6d2b;
    }
  }

  lemma BaseRows2(radix: nat)
    requires 12 <= radix <= 16
    ensures RadixBase(radix) == FastPow(radix, DigitsPerLimb(radix)) <= BASE
  {
    match radix {
      case 12 => assert FastPow(12, 8) == 0x19a10000;
      case 13 => assert FastPow(13, 8) == 0x309f1021;
      case 14 => assert FastPow(14, 8) == 0x57f6c100;
      case 15 => assert FastPow(15, 8) == 0x98c29b81;
      case 16 => assert FastPow(16, 8) == BASE;
    }
  }

  lemma BaseRows3(radix: nat)
    requires 17 <= radix <= 21
    ensures RadixBase(radix) == FastPow(radix, DigitsPerLimb(radix)) <= BASE
  {
    match radix {
      case 17 => assert FastPow(17, 7) == 0x18754571;
      case 18 => assert FastPow(18, 7) == 0x247dbc80;
      case 19 => assert FastPow(19, 7) == 0x3547667b;
      case 20 => assert FastPow(20, 7) == 0x4c4b4000;
      case 21 => assert FastPow(21, 7) == 0x6b5a6e1d;
    }
  }

  lemma BaseRows4(radix: nat)
    requires 22 <= radix <= 26
    ensures RadixBase(radix) == FastPow(radix, DigitsPerLimb(radix)) <= BASE
  {
    match radix {
      case 22 => assert FastPow(22, 7) == 0x94ace180;
      case 23 => assert FastPow(23, 7) == 0xcaf18367;
      case 24 => assert FastPow(24, 6) == 0x0b640000;
      case 25 => assert FastPow(25, 6) == 0x0e8d4a51;
      case 26 => assert FastPow(26, 6) == 0x1269ae40;
    }
  }

  lemma BaseRows5(radix: nat)
    requires 27 <= radix <= 31
    ensures RadixBase(radix) == FastPow(radix, DigitsPerLimb(radix)) <= BASE
  {
    match radix {
      case 27 => assert FastPow(27, 6) == 0x17179149;
      case 28 => assert FastPow(28, 6) == 0x1cb91000;
      case 29 => assert FastPow(29, 6) == 0x23744899;
      case 30 => assert FastPow(30, 6) == 0x2b73a840;
      case 31 => assert FastPow(31, 6) == 0x34e63b41;
    }
  }

  lemma BaseRows6(radix: nat)
    requires 32 <= radix <= 36
    ensures RadixBase(radix) == FastPow(radix, DigitsPerLimb(radix)) <= BASE
  {
    match radix {
      case 32 => assert FastPow(32, 6) == 0x40000000;
      case 33 => assert FastPow(33, 6) == 0x4cfa3cc1;
      case 34 => assert FastPow(34, 6) == 0x5c13d840;
      case 35 => assert FastPow(35, 6) == 0x6d91b519;
      case 36 => assert FastPow(36, 6) == 0x81bf1000;
    }
  }

  /** atod_max_digits_table: digits kept, about 128 bits' worth, or 64 bits' worth
      for a power of two. */
  function AtodMaxDigits(radix: nat): nat
    requires IsRadix(radix)
  {
    match radix
    case 2 => 64
    case 3 => 80
    case 4 => 32
    case 5 => 55
    case 6 => 49
    case 7 => 45
    case 8 => 21
    case 9 => 40
    case 10 => 38
    case 11 => 37
    case 12 => 35
    case 13 => 34
    case 14 => 33
    case 15 => 32
    case 16 => 16
    case 17 => 31
    case 18 => 30
    case 19 => 30
    case 20 => 29
    case 21 => 29
    case 22 => 28
    case 23 => 28
    case 24 => 27
    case 25 => 27
    case 26 => 27
    case 27 => 26
    case 28 => 26
    case 29 => 26
    case 30 => 26
    case 31 => 25
    case 32 => 12
    case 33 => 25
    case 34 => 25
    case 35 => 24
    case _ => 24
  }

  lemma AtodMaxDecimal()
    ensures AtodMaxDigits(10) == 38
  {
  }

  // ---- the loop -----------------------------------------------------------------------

  /** What the bignum, the unfinished limb and the digits read so far have to do
      with each other. */
  ghost predicate Packed(v: nat, cur: nat, n: nat, radix: nat, read: nat)
  {
    cur < Pow(radix, n) && v * Pow(radix, n) + cur == read
  }

  lemma PackDigit(v: nat, cur: nat, n: nat, radix: nat, read: nat, c: nat)
    requires Packed(v, cur, n, radix, read) && c < radix
    ensures Packed(v, cur * radix + c, n + 1, radix, read * radix + c)
  {
    var p := Pow(radix, n);
    DigitStep(cur, p, radix, c);
    MulDist(radix, v * p, cur);
    assert (v * p) * radix == v * (radix * p) by { MulAssoc(v, p, radix); }
  }

  lemma LimbRoom(radix: nat, n: nat)
    requires IsRadix(radix) && n <= DigitsPerLimb(radix)
    ensures 0 < Pow(radix, n) <= BASE
    ensures n < DigitsPerLimb(radix) ==> Pow(radix, n) < BASE
  {
    RadixBaseIsPower(radix);
    PowMonoExp(radix, n, DigitsPerLimb(radix));
    if n < DigitsPerLimb(radix) { PowStrictExp(radix, n, DigitsPerLimb(radix)); }
  }

  lemma PackFull(v: nat, cur: nat, n: nat, radix: nat, read: nat)
    requires Packed(v, cur, n, radix, read)
    ensures v * Pow(radix, n) + cur == read && Packed(read, 0, 0, radix, read)
  {
  }

  /** Add one digit to the unfinished limb, and move a full limb into the bignum. */
  method AppendDigit(tmp: Mpb, curLimb: nat, limbDigitCount: nat, radix: nat, c: nat, ghost read: nat)
    returns (cur: nat, n: nat)
    requires IsRadix(radix) && c < radix && tmp.Normal() && limbDigitCount < DigitsPerLimb(radix)
    requires Packed(tmp.Value(), curLimb, limbDigitCount, radix, read)
    modifies tmp
    ensures tmp.Normal() && n < DigitsPerLimb(radix)
    ensures Packed(tmp.Value(), cur, n, radix, read * radix + c)
  {
    hide RadixBaseEntry, Packed, Pow;
    ghost var next := read * radix + c;
    PackDigit(tmp.Value(), curLimb, limbDigitCount, radix, read, c);
    cur, n := curLimb * radix + c, limbDigitCount + 1;
    LimbRoom(radix, n);
    if n == DigitsPerLimb(radix) {
      RadixBaseIsPower(radix);
      PackFull(tmp.Value(), cur, n, radix, next);
      PackLimb(tmp.Value(), cur, n, radix, next);
      tmp.Mul1Base(RadixBaseEntry(radix), cur);
      cur, n := 0, 0;
    }
  }

  lemma PackLimb(v: nat, cur: nat, n: nat, radix: nat, read: nat)
    requires Packed(v, cur, n, radix, read)
    ensures cur < Pow(radix, n)
  {
  }

  /** Move the last, unfinished limb into the bignum. */
  method FlushLimb(tmp: Mpb, curLimb: nat, limbDigitCount: nat, radix: nat, ghost read: nat)
    requires IsRadix(radix) && tmp.Normal() && limbDigitCount < DigitsPerLimb(radix)
    requires Packed(tmp.Value(), curLimb, limbDigitCount, radix, read)
    modifies tmp
    ensures tmp.Normal() && tmp.Value() == read
  {
    hide Pow, DigitsPerLimb;
    if limbDigitCount != 0 {
      LimbRoom(radix, limbDigitCount);
      var b := PowUi(radix, limbDigitCount);
      SmallMod(Pow(radix, limbDigitCount));
      tmp.Mul1Base(b, curLimb);
    } else {
      NoDigits(tmp.Value(), curLimb, radix, read);
    }
  }

  lemma NoDigits(v: nat, cur: nat, radix: nat, read: nat)
    requires Packed(v, cur, 0, radix, read)
    ensures v == read
  {
  }

  lemma SmallMod(x: nat)
    requires x < BASE
    ensures x % BASE2 == x
  {
  }

  /** The mantissa loop for the digits from the first nonzero one on. The kept
      digits end up in fastM if fastOk, else in tmp. */
  method ReadMantissa(tmp: Mpb, digits: seq<nat>, radix: nat)
    returns (digitCount: nat, fastOk: bool, fastM: nat, extra: bool)
    requires IsRadix(radix) && AreDigits(digits, radix) && (|digits| > 0 ==> digits[0] > 0)
    modifies tmp
    ensures digitCount == Min(|digits|, AtodMaxDigits(radix))
    ensures fastOk ==> radix == 10 && |digits| <= 16 && fastM == DigitsVal(digits, 10) < BASE2
    ensures !fastOk ==> tmp.Normal() && tmp.Value() == DigitsVal(digits[..digitCount], radix)
    ensures extra <==> DigitsVal(digits[digitCount..], radix) != 0
  {
    hide Packed, Pow, DigitsPerLimb, Val, AtodMaxDigits;
    var maxDigits := AtodMaxDigits(radix);
    AtodMaxDecimal();
    var curLimb: nat, limbDigitCount: nat := 0, 0;
    fastM, fastOk, digitCount, extra := 0, radix == 10, 0, false;
    tmp.tab := [0];
    ValSingle(0);
    StartPacking(radix);
    var pos := 0;
    while pos < |digits|
      invariant 0 <= pos <= |digits| && digitCount == Min(pos, maxDigits)
      invariant fastOk ==> radix == 10 && pos <= 16 && fastM == DigitsVal(digits[..pos], 10)
      invariant fastOk ==> limbDigitCount == 0 && curLimb == 0
      invariant !fastOk ==> tmp.Normal() && limbDigitCount < DigitsPerLimb(radix)
      invariant !fastOk ==> Packed(tmp.Value(), curLimb, limbDigitCount, radix, DigitsVal(digits[..digitCount], radix))
      invariant extra <==> DigitsVal(digits[digitCount..pos], radix) != 0
    {
      var c := digits[pos];
      pos := pos + 1;
      if fastOk && pos <= 16 {
        DigitsSnoc(digits, pos - 1, 10);
        fastM := fastM * 10 + c;
        if digitCount < maxDigits {
          digitCount := digitCount + 1;
        }
      } else {
        if fastOk {
          fastOk := false;
          SixteenDigits(digits[..pos - 1], fastM);
          tmp.SetU64(fastM);
          StartPacking(radix);
          PackSeed(fastM, radix);
        }
        if digitCount < maxDigits {
          DigitsSnoc(digits, digitCount, radix);
          curLimb, limbDigitCount := AppendDigit(tmp, curLimb, limbDigitCount, radix, c,
                                                 DigitsVal(digits[..digitCount], radix));
          digitCount := digitCount + 1;
        } else {
          ExtraDigit(digits, digitCount, pos - 1, radix);
          extra := extra || c != 0;
        }
      }
    }
    assert digits[..pos] == digits;
    if fastOk {
      DigitsBound(digits, 10);
      PowMonoExp(10, |digits|, 16);
      TenTo16();
    } else {
      FlushLimb(tmp, curLimb, limbDigitCount, radix, DigitsVal(digits[..digitCount], radix));
    }
  }

  lemma ExtraDigit(s: seq<nat>, k: nat, i: nat, radix: nat)
    requires k <= i < |s| && radix > 0
    ensures DigitsVal(s[k..i + 1], radix) != 0 <==> DigitsVal(s[k..i], radix) != 0 || s[i] != 0
  {
    assert s[k..i + 1][..i - k] == s[k..i];
  }

  lemma StartPacking(radix: nat)
    requires IsRadix(radix)
    ensures DigitsPerLimb(radix) > 0 && Packed(0, 0, 0, radix, DigitsVal([], radix))
  {
  }

  lemma PackSeed(v: nat, radix: nat)
    ensures Packed(v, 0, 0, radix, v)
  {
  }

  lemma TenTo16()
    ensures Pow(10, 16) < BASE2 && Pow(10, 15) > BASE
  {
    hide Pow;
    FastPowIsPow(10, 16);
    FastPowIsPow(10, 15);
  }

  lemma SixteenDigits(s: seq<nat>, v: nat)
    requires |s| == 16 && AreDigits(s, 10) && s[0] > 0 && v == DigitsVal(s, 10)
    ensures BASE < v < BASE2
  {
    DigitsBound(s, 10);
    TenTo16();
  }
}
