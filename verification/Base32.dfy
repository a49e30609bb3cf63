/** base32 and base32hex (sections 6 and 7 of RFC 4648): five bytes written as eight
    digits, a short last block filled up with '='. */
module Base32 {
  import opened Arith
  import opened BitSeq
  import opened Digits
  import opened Common

  const PAD: Byte := 61 // '='

  function StdAlphabet(): (a: seq<Byte>)
    ensures |a| == 32
  {
    seq(32, i requires 0 <= i < 32 => if i < 26 then 65 + i else 24 + i)
  }

  function HexAlphabet(): (a: seq<Byte>)
    ensures |a| == 32
  {
    seq(32, i requires 0 <= i < 32 => if i < 10 then 48 + i else 55 + i)
  }

  /** Thirty-two different characters, none of them the filler. */
  ghost predicate Alphabet(a: seq<Byte>)
  {
    |a| == 32 && (forall i, j :: 0 <= i < j < 32 ==> a[i] != a[j]) && PAD !in a
  }

  lemma BothAlphabets()
    ensures Alphabet(StdAlphabet()) && Alphabet(HexAlphabet())
    ensures forall i :: 0 <= i < 32 ==> "ABCDEFGHIJKLMNOPQRSTUVWXYZ234567"[i] as int == StdAlphabet()[i]
    ensures forall i :: 0 <= i < 32 ==> "0123456789ABCDEFGHIJKLMNOPQRSTUV"[i] as int == HexAlphabet()[i]
  {
  }

  /** The digit a character stands for. */
  ghost function DigitOf(a: seq<Byte>, c: Byte): (d: Option<nat>)
    ensures d.Some? ==> d.value < |a| && a[d.value] == c
    ensures d.None? ==> c !in a
  {
    if c in a then
      var d :| 0 <= d < |a| && a[d] == c;
      Some(d)
    else None
  }

  lemma DigitOfIs(a: seq<Byte>, d: nat)
    requires Alphabet(a) && d < 32
    ensures DigitOf(a, a[d]) == Some(d)
  {
  }

  /** How many characters n bytes need, and how many bytes n characters hold. */
  function CharCount(n: nat): (c: nat)
    requires n <= 5
    ensures c <= 8 && 5 * c >= 8 * n > 5 * (c - 1)
  {
    [0, 2, 4, 5, 7, 8][n]
  }

  function ByteCount(n: nat): (b: Option<nat>)
    requires n <= 8
    ensures b.Some? ==> 1 <= b.value <= 5 && CharCount(b.value) == n
    ensures b.None? ==> forall k :: 1 <= k <= 5 ==> CharCount(k) != n
  {
    [None, None, Some(1), None, Some(2), Some(3), None, Some(4), Some(5)][n]
  }

  // ---- what the encoder writes ----------------------------------------------------------------------

  function Chars(a: seq<Byte>, ds: seq<nat>): (s: seq<Byte>)
    requires |a| == 32 && AreDigits(ds, 32)
    ensures |s| == |ds| && forall i :: 0 <= i < |s| ==> s[i] == a[ds[i]]
  {
    seq(|ds|, i requires 0 <= i < |ds| => a[ds[i]])
  }

  function Fill(n: nat): (s: seq<Byte>)
    ensures |s| == n && forall i :: 0 <= i < n ==> s[i] == PAD
  {
    seq(n, i => PAD)
  }

  /** One to five bytes as a 40-bit word, the missing ones zero. */
  ghost function Word(bs: seq<Byte>): nat
    requires |bs| <= 5
  {
    DigitsVal(bs, 256) * Pow(256, 5 - |bs|)
  }

  ghost function BlockDigits(bs: seq<Byte>): (ds: seq<nat>)
    requires |bs| <= 5
    ensures |ds| == CharCount(|bs|) && AreDigits(ds, 32)
  {
    WordDigits(Word(bs));
    ToDigits(Word(bs), 32, 8)[..CharCount(|bs|)]
  }

  lemma WordDigits(v: nat)
    ensures AreDigits(ToDigits(v, 32, 8), 32)
  {
  }

  ghost function Block(a: seq<Byte>, bs: seq<Byte>): (s: seq<Byte>)
    requires |a| == 32 && |bs| <= 5
    ensures |s| == 8
  {
    Chars(a, BlockDigits(bs)) + Fill(8 - CharCount(|bs|))
  }

  ghost function Encoded(a: seq<Byte>, data: seq<Byte>): seq<Byte>
    requires |a| == 32
    decreases |data|
  {
    if data == [] then []
    else if |data| <= 5 then Block(a, data)
    else Block(a, data[..5]) + Encoded(a, data[5..])
  }

  // ---- what the decoder accepts ------------------------------------------------------------------------

  /** The length of the block without its trailing filler. */
  function RealChars(block: seq<Byte>): (n: nat)
    ensures n <= |block| && (n > 0 ==> block[n - 1] != PAD)
    ensures forall i :: n <= i < |block| ==> block[i] == PAD
  {
    if block == [] || block[|block| - 1] != PAD then |block| else RealChars(block[..|block| - 1])
  }

  /** The digits of a text, if all its characters are in the alphabet. */
  ghost function DigitsOf(a: seq<Byte>, t: seq<Byte>): (ds: Option<seq<nat>>)
    ensures ds.Some? ==> |ds.value| == |t| && AreDigits(ds.value, |a|)
    ensures ds.Some? ==> forall i :: 0 <= i < |t| ==> t[i] == a[ds.value[i]]
    ensures ds.None? ==> exists i :: 0 <= i < |t| && t[i] !in a
  {
    if forall i :: 0 <= i < |t| ==> t[i] in a then
      var ds := seq(|t|, i requires 0 <= i < |t| => DigitOf(a, t[i]).value);
      Some(ds)
    else None
  }

  /** One block. Filler is allowed in the last one only. */
  ghost function DecodedBlock(a: seq<Byte>, block: seq<Byte>, last: bool): (r: Option<seq<Byte>>)
    requires |a| == 32 && |block| == 8
  {
    var n := RealChars(block);
    if n < 8 && !last then None
    else if ByteCount(n).None? || DigitsOf(a, block[..n]).None? then None
    else Some(Leading(DigitsOf(a, block[..n]).value, ByteCount(n).value))
  }

  /** The first n bytes of the 40-bit word of up to eight digits, the missing ones zero. */
  ghost function Leading(ds: seq<nat>, n: nat): (s: seq<Byte>)
    requires |ds| <= 8 && n <= 5
    ensures |s| == n
  {
    var v := DigitsVal(ds, 32) * Pow(32, 8 - |ds|);
    DigitsBelow(v, 256, 5);
    ToDigits(v, 256, 5)[..n]
  }

  ghost function Decoded(a: seq<Byte>, text: seq<Byte>): (r: Option<seq<Byte>>)
    requires |a| == 32
    decreases |text|
  {
    if |text| % 8 != 0 then None
    else if text == [] then Some([])
    else
      var head := DecodedBlock(a, text[..8], |text| == 8);
      var rest := Decoded(a, text[8..]);
      if head.None? || rest.None? then None else Some(head.value + rest.value)
  }

  // ---- decode after encode -------------------------------------------------------------------------------

  lemma Powers()
    ensures Pow(256, 0) == Pow(32, 0) == 1 && Pow(256, 1) == 256 && Pow(32, 1) == 32
    ensures Pow(256, 2) == 0x1_0000 && Pow(256, 3) == 0x100_0000 && Pow(256, 4) == 0x1_0000_0000
    ensures Pow(256, 5) == 0x100_0000_0000 == Pow(32, 8)
    ensures Pow(32, 3) == 0x8000 && Pow(32, 4) == 0x10_0000 && Pow(32, 6) == 0x4000_0000
  {
  }

  lemma Exact(b: nat, m: nat, unit: nat, u: nat)
    requires unit > 0 && u == m * unit
    ensures b * u / unit == b * m && b * m * unit == b * u
  {
    MulAssoc(b, m, unit);
    DivModUnique(b * u, unit, b * m, 0);
  }

  /** The digits that are not written are zero. */
  lemma UnwrittenZero(b: nat, n: nat, c: nat)
    requires 1 <= n <= 5 && c == CharCount(n) && b < Pow(256, n)
    ensures b * Pow(256, 5 - n) / Pow(32, 8 - c) * Pow(32, 8 - c) == b * Pow(256, 5 - n)
    ensures b * Pow(256, 5 - n) / Pow(32, 8 - c) < Pow(32, c)
  {
    hide Pow;
    Powers();
    MorePowers();
    var m := if n == 1 then 4 else if n == 2 then 16 else if n == 3 then 2 else if n == 4 then 8 else 1;
    Exact(b, m, Pow(32, 8 - c), Pow(256, 5 - n));
  }

  lemma MorePowers()
    ensures Pow(32, 2) == 1024 && Pow(32, 5) == 0x200_0000 && Pow(32, 7) == 0x8_0000_0000
  {
  }

  lemma WordBack(bs: seq<Byte>)
    requires 1 <= |bs| <= 5
    ensures Leading(BlockDigits(bs), |bs|) == bs
  {
    hide DigitsVal, ToDigits, Pow, CharCount;
    var n := |bs|;
    var c := CharCount(n);
    var b := DigitsVal(bs, 256);
    DigitsBound(bs, 256);
    UnwrittenZero(b, n, c);
    var ds := BlockDigits(bs);
    LeadingDigits(Word(bs), 32, 8, c);
    ValueOfDigits(b * Pow(256, 5 - n) / Pow(32, 8 - c), 32, c, ds);
    UnitRoom(b, Pow(256, 5 - n));
    Survives(bs, 256, 5, Word(bs));
  }

  lemma UnitRoom(b: nat, unit: nat)
    requires unit > 0
    ensures b * unit < (b + 1) * unit
  {
  }

  lemma CharsBack(a: seq<Byte>, ds: seq<nat>)
    requires Alphabet(a) && AreDigits(ds, 32)
    ensures DigitsOf(a, Chars(a, ds)) == Some(ds)
  {
    var t := Chars(a, ds);
    forall i | 0 <= i < |t|
      ensures t[i] in a && DigitOf(a, t[i]) == Some(ds[i])
    {
      DigitOfIs(a, ds[i]);
    }
    assert DigitsOf(a, t).value == ds;
  }

  lemma BlockDecodes(a: seq<Byte>, bs: seq<Byte>, last: bool)
    requires Alphabet(a) && 1 <= |bs| <= 5 && (|bs| < 5 ==> last)
    ensures DecodedBlock(a, Block(a, bs), last) == Some(bs)
  {
    hide Leading, BlockDigits, DigitsOf;
    var ds := BlockDigits(bs);
    BlockShape(a, bs, ds);
    var block := Block(a, bs);
    RealCharsIs(a, block, |ds|);
    CharsBack(a, ds);
    WordBack(bs);
  }

  lemma BlockShape(a: seq<Byte>, bs: seq<Byte>, ds: seq<nat>)
    requires Alphabet(a) && 1 <= |bs| <= 5 && ds == BlockDigits(bs)
    ensures AreDigits(ds, 32) && |ds| == CharCount(|bs|) && |ds| > 0 && Block(a, bs)[..|ds|] == Chars(a, ds)
    ensures Block(a, bs)[|ds| - 1] in a && forall i :: |ds| <= i < 8 ==> Block(a, bs)[i] == PAD
    ensures |ds| < 8 ==> |bs| < 5
    ensures ByteCount(|ds|) == Some(|bs|)
  {
    hide BlockDigits;
    assert Chars(a, ds)[|ds| - 1] == a[ds[|ds| - 1]];
  }

  lemma RealCharsIs(a: seq<Byte>, block: seq<Byte>, n: nat)
    requires Alphabet(a) && 0 < n <= |block| && block[n - 1] in a && forall i :: n <= i < |block| ==> block[i] == PAD
    ensures RealChars(block) == n
  {
  }

  lemma RealCharsEnds(block: seq<Byte>)
    ensures RealChars(block) <= |block| && (RealChars(block) > 0 ==> block[RealChars(block) - 1] != PAD)
    ensures forall i :: RealChars(block) <= i < |block| ==> block[i] == PAD
  {
  }

  /** Every byte string survives, with any alphabet. */
  lemma {:induction false} RoundTrip(a: seq<Byte>, data: seq<Byte>)
    requires Alphabet(a)
    ensures |Encoded(a, data)| % 8 == 0 && Decoded(a, Encoded(a, data)) == Some(data)
    decreases |data|
  {
    hide Block, DecodedBlock;
    if data == [] {
    } else if |data| <= 5 {
      BlockDecodes(a, data, true);
      OneBlock(a, Block(a, data), data);
    } else {
      var head, rest := data[..5], data[5..];
      RoundTrip(a, rest);
      BlockDecodes(a, head, false);
      RestLonger(a, rest);
      MoreBlocks(a, Block(a, head), Encoded(a, rest), head, rest);
      assert head + rest == data;
    }
  }

  lemma RestLonger(a: seq<Byte>, rest: seq<Byte>)
    requires |a| == 32 && rest != []
    ensures |Encoded(a, rest)| >= 8
  {
  }

  lemma OneBlock(a: seq<Byte>, block: seq<Byte>, data: seq<Byte>)
    requires |a| == 32 && |block| == 8 && DecodedBlock(a, block, true) == Some(data)
    ensures Decoded(a, block) == Some(data)
  {
    assert block[..8] == block && block[8..] == [];
    assert data + [] == data;
  }

  lemma MoreBlocks(a: seq<Byte>, block: seq<Byte>, text: seq<Byte>, head: seq<Byte>, rest: seq<Byte>)
    requires |a| == 32 && |block| == 8 && DecodedBlock(a, block, false) == Some(head)
    requires |text| >= 8 && |text| % 8 == 0 && Decoded(a, text) == Some(rest)
    ensures |block + text| % 8 == 0 && Decoded(a, block + text) == Some(head + rest)
  {
    hide DecodedBlock;
    var t := block + text;
    assert t[..8] == block && t[8..] == text;
  }

  // ---- encode after decode -------------------------------------------------------------------------------

  /** The bits of a block that no byte takes are zero. */
  ghost predicate BlockClean(a: seq<Byte>, block: seq<Byte>)
    requires |a| == 32 && |block| == 8
  {
    var n := RealChars(block);
    var ds := DigitsOf(a, block[..n]);
    ByteCount(n).Some? && ds.Some?
    && DigitsVal(ds.value, 32) * Pow(32, 8 - n) % Pow(256, 5 - ByteCount(n).value) == 0
  }

  ghost predicate Clean(a: seq<Byte>, text: seq<Byte>)
    requires |a| == 32 && |text| % 8 == 0
  {
    text == [] || BlockClean(a, text[|text| - 8..])
  }

  /** Bytes taken from a 40-bit word: their word is the same one with its low bits
      cleared. */
  lemma BytesOf(p: nat, n: nat, bs: seq<Byte>, unit: nat)
    requires 1 <= n <= 5 && p < Pow(32, 8) && bs == ToDigits(p, 256, 5)[..n] && unit == Pow(256, 5 - n)
    ensures Word(bs) == p - p % unit
  {
    hide ToDigits, DigitsVal, Pow;
    Powers();
    LeadingDigits(p, 256, 5, n);
    DivModEq(p, unit);
    PowAdd(256, n, 5 - n);
    QuotientBelow(p, unit, Pow(256, n));
    ValueOfDigits(p / unit, 256, n, bs);
  }

  lemma DigitsKept(q: nat, k: nat, ds: seq<nat>, w: nat)
    requires |ds| + k == 8 && AreDigits(ds, 32) && q == DigitsVal(ds, 32) && w <= q * Pow(32, k)
    ensures ToDigits(w, 32, 8)[..|ds|] == ds <==> w == q * Pow(32, k)
  {
    hide ToDigits, DigitsVal, Pow;
    var unit := Pow(32, k);
    LeadingDigits(w, 32, 8, |ds|);
    DigitsOfValue(ds, 32);
    if w == q * unit {
      DivModUnique(w, unit, q, 0);
    } else {
      SmallQuotient(w, unit, q);
      DigitsDiffer(ds, w / unit, q);
    }
  }

  lemma DigitsDiffer(ds: seq<nat>, x: nat, q: nat)
    requires AreDigits(ds, 32) && q == DigitsVal(ds, 32) && x < q
    ensures ToDigits(x, 32, |ds|) != ds
  {
    hide ToDigits, DigitsVal, Pow;
    DigitsBound(ds, 32);
    ValueOfDigits(x, 32, |ds|, ToDigits(x, 32, |ds|));
  }

  lemma SmallQuotient(w: nat, unit: nat, q: nat)
    requires unit > 0 && w < q * unit
    ensures w / unit < q
  {
  }

  /** A block is what its bytes encode to exactly when it is clean. */
  lemma BlockCanonical(a: seq<Byte>, block: seq<Byte>, last: bool, bs: seq<Byte>)
    requires Alphabet(a) && |block| == 8 && DecodedBlock(a, block, last) == Some(bs)
    ensures 1 <= |bs| <= 5 && (!last ==> |bs| == 5)
    ensures Block(a, bs) == block <==> BlockClean(a, block)
  {
    hide ToDigits, DigitsVal, Pow, DigitsOf, RealChars, CharCount, Word;
    var n := RealChars(block);
    RealCharsEnds(block);
    var ds := DigitsOf(a, block[..n]).value;
    DigitsOfIs(a, block[..n], ds);
    FullBlock(n);
    var q, k, unit := DigitsVal(ds, 32), 8 - n, Pow(256, 5 - |bs|);
    var p := q * Pow(32, k);
    WordFits(ds, k);
    BytesOf(p, |bs|, bs, unit);
    DivModEq(p, unit);
    DigitsKept(q, k, ds, Word(bs));
    BlockIs(a, block, bs, ds, n);
  }

  lemma FullBlock(n: nat)
    requires n <= 8
    ensures n == 8 ==> ByteCount(n) == Some(5)
  {
  }

  lemma WordFits(ds: seq<nat>, k: nat)
    requires |ds| + k == 8 && AreDigits(ds, 32)
    ensures DigitsVal(ds, 32) * Pow(32, k) < Pow(32, 8) && Pow(32, k) > 0
  {
    DigitsBound(ds, 32);
    PowAdd(32, |ds|, k);
    MulStrict(DigitsVal(ds, 32), Pow(32, |ds|), Pow(32, k));
  }

  lemma DigitsOfIs(a: seq<Byte>, t: seq<Byte>, ds: seq<nat>)
    requires |a| == 32 && DigitsOf(a, t) == Some(ds)
    ensures AreDigits(ds, 32) && |ds| == |t| && Chars(a, ds) == t
  {
  }

  /** Blocks are equal when their digits are. */
  lemma BlockIs(a: seq<Byte>, block: seq<Byte>, bs: seq<Byte>, ds: seq<nat>, n: nat)
    requires Alphabet(a) && |block| == 8 && 1 <= |bs| <= 5 && n == CharCount(|bs|) && |ds| == n && AreDigits(ds, 32)
    requires block[..n] == Chars(a, ds) && forall i :: n <= i < 8 ==> block[i] == PAD
    ensures Block(a, bs) == block <==> BlockDigits(bs) == ds
  {
  }

  lemma DecodedParts(a: seq<Byte>, text: seq<Byte>, d: seq<Byte>) returns (head: seq<Byte>, rest: seq<Byte>)
    requires |a| == 32 && text != [] && Decoded(a, text) == Some(d)
    ensures |text| >= 8 && |text| % 8 == 0
    ensures DecodedBlock(a, text[..8], |text| == 8) == Some(head) && Decoded(a, text[8..]) == Some(rest)
    ensures d == head + rest
  {
    head, rest := DecodedBlock(a, text[..8], |text| == 8).value, Decoded(a, text[8..]).value;
  }

  lemma CleanTail(a: seq<Byte>, text: seq<Byte>)
    requires |a| == 32 && |text| % 8 == 0 && |text| > 8
    ensures Clean(a, text) <==> Clean(a, text[8..])
  {
  }

  lemma EncodedSplit(a: seq<Byte>, head: seq<Byte>, rest: seq<Byte>)
    requires |a| == 32 && |head| == 5 && rest != []
    ensures Encoded(a, head + rest) == Block(a, head) + Encoded(a, rest)
  {
  }

  lemma FullIsClean(a: seq<Byte>, block: seq<Byte>)
    requires |a| == 32 && |block| == 8 && DecodedBlock(a, block, false).Some?
    ensures BlockClean(a, block)
  {
  }

  lemma Paired<T>(a: seq<T>, b: seq<T>, c: seq<T>, d: seq<T>)
    requires |a| == |c|
    ensures a + b == c + d <==> a == c && b == d
  {
    if a + b == c + d {
      assert a == (a + b)[..|a|] && c == (c + d)[..|a|] && b == (a + b)[|a|..] && d == (c + d)[|a|..];
    }
  }

  /** A text that decodes is the encoding of its bytes exactly when the bits left over in
      its last block are zero. */
  lemma {:induction false} Canonical(a: seq<Byte>, text: seq<Byte>, d: seq<Byte>)
    requires Alphabet(a) && Decoded(a, text) == Some(d)
    ensures |text| % 8 == 0 && (Encoded(a, d) == text <==> Clean(a, text)) && (text == [] <==> d == [])
    decreases |text|
  {
    hide Block, DecodedBlock, Clean, BlockClean;
    if text == [] {
      NothingClean(a);
    } else {
      var head, rest := DecodedParts(a, text, d);
      BlockCanonical(a, text[..8], |text| == 8, head);
      if |text| == 8 {
        LastClean(a, text);
        assert head + rest == head;
      } else {
        Canonical(a, text[8..], rest);
        CleanTail(a, text);
        FullIsClean(a, text[..8]);
        EncodedSplit(a, head, rest);
        assert text == text[..8] + text[8..];
        Paired(Block(a, head), Encoded(a, rest), text[..8], text[8..]);
      }
    }
  }

  lemma NothingClean(a: seq<Byte>)
    requires |a| == 32
    ensures Clean(a, [])
  {
  }

  lemma LastClean(a: seq<Byte>, text: seq<Byte>)
    requires |a| == 32 && |text| == 8
    ensures Clean(a, text) <==> BlockClean(a, text[..8])
    ensures Decoded(a, text[8..]) == Some([]) && text[..8] == text
  {
    assert text[0..] == text[..8] == text;
  }

  // ---- the loops ---------------------------------------------------------------------------------------------

  /** The word of a zero-filled chunk. */
  method LoadWord(data: seq<Byte>, i: nat, nb: nat) returns (v: nat)
    requires nb <= 5 && i + nb <= |data|
    ensures v == Word(data[i..i + nb])
  {
    hide DigitsVal, Pow, Word;
    var chunk: seq<nat> := data[i..i + nb] + [0, 0, 0, 0, 0][nb..];
    v := chunk[0] * 0x1_0000_0000 + chunk[1] * 0x100_0000 + chunk[2] * 0x1_0000 + chunk[3] * 256 + chunk[4];
    FiveBytes(chunk);
    Filled(data[i..i + nb], chunk);
  }

  lemma FiveBytes(c: seq<nat>)
    requires |c| == 5
    ensures DigitsVal(c, 256) == c[0] * 0x1_0000_0000 + c[1] * 0x100_0000 + c[2] * 0x1_0000 + c[3] * 256 + c[4]
  {
    hide DigitsVal;
    assert c[..5] == c;
    DigitsSnoc(c, 4, 256);
    DigitsSnoc(c, 3, 256);
    DigitsSnoc(c, 2, 256);
    DigitsSnoc(c, 1, 256);
    DigitsSnoc(c, 0, 256);
    ZerosVal(c[..0], 256);
  }

  lemma Filled(bs: seq<Byte>, chunk: seq<nat>)
    requires |bs| <= 5 == |chunk| && chunk[..|bs|] == bs && forall i :: |bs| <= i < 5 ==> chunk[i] == 0
    ensures DigitsVal(chunk, 256) == Word(bs)
  {
    hide DigitsVal, Pow;
    DigitsSplit(chunk, |bs|, 256);
    ZerosVal(chunk[|bs|..], 256);
  }

  /** A digit of a word, taken by a shift and a mask. */
  lemma {:induction false} DigitAt(v: nat, n: nat, j: nat)
    requires j < n
    ensures Pow(32, n - 1 - j) > 0 && ToDigits(v, 32, n)[j] == v / Pow(32, n - 1 - j) % 32
  {
    hide Pow, ToDigits;
    LeadingDigits(v, 32, n, j + 1);
    var q := v / Pow(32, n - 1 - j);
    ToDigitsStep(q, 32, j + 1, ToDigits(q / 32, 32, j));
    assert ToDigits(v, 32, n)[..j + 1][j] == ToDigits(v, 32, n)[j];
  }

  method EmitBlock(a: seq<Byte>, v: nat, nb: nat, ghost bs: seq<Byte>) returns (s: seq<Byte>)
    requires |a| == 32 && |bs| == nb <= 5 && v == Word(bs)
    ensures s == Block(a, bs)
  {
    hide ToDigits, Word, CharCount, Pow;
    var nc := CharCount(nb);
    s := [];
    ghost var ds := BlockDigits(bs);
    for j := 0 to nc
      invariant |s| == j && s == Chars(a, ds)[..j]
    {
      DigitAt(v, 8, j);
      s := s + [a[v / Pow(32, 7 - j) % 32]];
    }
    for j := nc to 8
      invariant s == Chars(a, ds) + Fill(j - nc)
    {
      s := s + [PAD];
    }
  }

  method Encode(a: seq<Byte>, data: seq<Byte>) returns (out: seq<Byte>)
    requires |a| == 32
    ensures out == Encoded(a, data)
  {
    hide Word, Block, Encoded;
    out := [];
    var i := 0;
    assert data[0..] == data;
    while i < |data|
      invariant i <= |data| && out + Encoded(a, data[i..]) == Encoded(a, data)
    {
      var nb := if |data| - i < 5 then |data| - i else 5;
      EncodedStep(a, data, i, nb);
      var v := LoadWord(data, i, nb);
      var s := EmitBlock(a, v, nb, data[i..i + nb]);
      Assoc(out, s, Encoded(a, data[i + nb..]));
      out := out + s;
      i := i + nb;
    }
    EncodedNone(a, data[i..]);
  }

  lemma EncodedNone(a: seq<Byte>, data: seq<Byte>)
    requires |a| == 32
    ensures data == [] ==> Encoded(a, data) == []
  {
  }

  lemma EncodedStep(a: seq<Byte>, data: seq<Byte>, i: nat, nb: nat)
    requires |a| == 32 && i < |data| && nb == if |data| - i < 5 then |data| - i else 5
    ensures Encoded(a, data[i..]) == Block(a, data[i..i + nb]) + Encoded(a, data[i + nb..])
  {
    var s := data[i..];
    if |s| <= 5 {
      assert data[i..i + nb] == s && data[i + nb..] == [];
    } else {
      assert s[..5] == data[i..i + nb] && s[5..] == data[i + nb..];
    }
  }

  ghost predicate IsReverse(rev: array<int>, a: seq<Byte>)
    reads rev
  {
    && rev.Length == 256
    && forall c: Byte :: rev[c] == if DigitOf(a, c).Some? then DigitOf(a, c).value else -1
  }

  /** The table from characters to digits, -1 for a character outside the alphabet. */
  method Reverse(a: seq<Byte>) returns (rev: array<int>)
    requires Alphabet(a)
    ensures fresh(rev) && IsReverse(rev, a)
  {
    rev := new int[256](_ => -1);
    for k := 0 to 32
      invariant IsReverse(rev, a[..k])
    {
      ReverseStep(a, k);
      rev[a[k]] := k;
    }
    assert a[..32] == a;
  }

  lemma ReverseStep(a: seq<Byte>, k: nat)
    requires Alphabet(a) && k < 32
    ensures forall c: Byte :: DigitOf(a[..k + 1], c) == if c == a[k] then Some(k) else DigitOf(a[..k], c)
  {
    forall c: Byte
      ensures DigitOf(a[..k + 1], c) == if c == a[k] then Some(k) else DigitOf(a[..k], c)
    {
      if c != a[k] {
        assert c in a[..k + 1] <==> c in a[..k] by { assert a[..k + 1] == a[..k] + [a[k]]; }
        if c in a[..k] {
          DigitUnique(a[..k + 1], c, DigitOf(a[..k], c).value);
        }
      } else {
        DigitUnique(a[..k + 1], c, k);
      }
    }
  }

  lemma DigitUnique(a: seq<Byte>, c: Byte, d: nat)
    requires (forall i, j :: 0 <= i < j < |a| ==> a[i] != a[j]) && d < |a| && a[d] == c
    ensures DigitOf(a, c) == Some(d)
  {
    assert c in a;
  }

  /** The bytes of a 40-bit word. */
  method Bytes(v: nat) returns (bytes: seq<Byte>)
    requires v < 0x100_0000_0000
    ensures bytes == ToDigits(v, 256, 5)
  {
    bytes := [v / 0x1_0000_0000, v / 0x100_0000 % 256, v / 0x1_0000 % 256, v / 256 % 256, v % 256];
    BytesAre(v, v / 256, v / 256 / 256, v / 256 / 256 / 256, v / 256 / 256 / 256 / 256);
    Shifts(v);
  }

  lemma BytesAre(v: nat, a: nat, b: nat, c: nat, d: nat)
    requires a == v / 256 && b == a / 256 && c == b / 256 && d == c / 256 && d < 256
    ensures ToDigits(v, 256, 5) == [d, c % 256, b % 256, a % 256, v % 256]
  {
    hide ToDigits;
    assert ToDigits(d / 256, 256, 0) == [];
    ToDigitsStep(d, 256, 1, []);
    ToDigitsStep(c, 256, 2, [d]);
    ToDigitsStep(b, 256, 3, [d, c % 256]);
    ToDigitsStep(a, 256, 4, [d, c % 256, b % 256]);
    ToDigitsStep(v, 256, 5, [d, c % 256, b % 256, a % 256]);
  }

  lemma Shifts(v: nat)
    requires v < 0x100_0000_0000
    ensures v / 256 / 256 == v / 0x1_0000 && v / 256 / 256 / 256 == v / 0x100_0000
    ensures v / 256 / 256 / 256 / 256 == v / 0x1_0000_0000 < 256
  {
    DivTwice(v, 256, 256);
    DivTwice(v, 0x1_0000, 256);
    DivTwice(v, 0x100_0000, 256);
  }

  method CountPad(block: seq<Byte>) returns (pad: nat)
    requires |block| == 8
    ensures pad == 8 - RealChars(block)
  {
    pad := 0;
    while pad < 8 && block[7 - pad] == PAD
      invariant pad <= 8 && forall i :: 8 - pad <= i < 8 ==> block[i] == PAD
    {
      pad := pad + 1;
    }
    RealCharsFrom(block, 8 - pad);
  }

  lemma RealCharsFrom(block: seq<Byte>, n: nat)
    requires n <= |block| && (n > 0 ==> block[n - 1] != PAD) && forall i :: n <= i < |block| ==> block[i] == PAD
    ensures RealChars(block) == n
  {
    hide RealChars;
    RealCharsEnds(block);
  }

  /** The digits of the characters, if all are in the alphabet. */
  method LookUp(rev: array<int>, t: seq<Byte>, ghost a: seq<Byte>) returns (ds: Option<seq<nat>>)
    requires Alphabet(a) && IsReverse(rev, a)
    ensures ds == DigitsOf(a, t)
  {
    var c: seq<nat> := [];
    for j := 0 to |t|
      invariant |c| == j && forall i :: 0 <= i < j ==> DigitOf(a, t[i]) == Some(c[i])
    {
      var val := rev[t[j]];
      if val < 0 {
        assert t[j] !in a;
        return None;
      }
      c := c + [val];
    }
    assert forall i :: 0 <= i < |t| ==> t[i] in a;
    assert DigitsOf(a, t).value == c;
    return Some(c);
  }

  /** The 40-bit word of the digits and of zeros for the filler. */
  method Pack(ds: seq<nat>) returns (v: nat)
    requires |ds| <= 8 && AreDigits(ds, 32)
    ensures v == DigitsVal(ds, 32) * Pow(32, 8 - |ds|) < 0x100_0000_0000
  {
    hide DigitsVal, Pow;
    var c := ds + seq(8 - |ds|, _ => 0);
    v := 0;
    ZerosVal(c[..0], 32);
    for j := 0 to 8
      invariant v == DigitsVal(c[..j], 32)
    {
      DigitsSnoc(c, j, 32);
      v := v * 32 + c[j];
    }
    assert c[..8] == c && c[..|ds|] == ds;
    DigitsSplit(c, |ds|, 32);
    ZerosVal(c[|ds|..], 32);
    WordFits(ds, 8 - |ds|);
    Powers();
  }

  method DecodeBlock(a: seq<Byte>, rev: array<int>, block: seq<Byte>, last: bool) returns (r: Option<seq<Byte>>)
    requires Alphabet(a) && IsReverse(rev, a) && |block| == 8
    ensures r == DecodedBlock(a, block, last)
  {
    hide DigitsVal, Pow, DigitsOf, RealChars, ToDigits, ByteCount;
    var pad := CountPad(block);
    if pad > 0 && !last { return None; }
    var nbytes := ByteCount(8 - pad);
    if nbytes.None? { return None; }
    var ds := LookUp(rev, block[..8 - pad], a);
    if ds.None? { return None; }
    DigitsOfIs(a, block[..8 - pad], ds.value);
    ByteCountIs(8 - pad);
    var v := Pack(ds.value);
    var bytes := Bytes(v);
    return Some(bytes[..nbytes.value]);
  }

  lemma ByteCountIs(n: nat)
    requires n <= 8
    ensures ByteCount(n).Some? ==> 1 <= ByteCount(n).value <= 5
  {
  }

  method Decode(a: seq<Byte>, text: seq<Byte>) returns (r: Option<seq<Byte>>)
    requires Alphabet(a)
    ensures r == Decoded(a, text)
  {
    hide Decoded, DecodedBlock, IsReverse;
    DecodedShape(a, text, 0);
    if |text| % 8 != 0 { return None; }
    var rev := Reverse(a);
    var i: nat, out := 0, [];
    assert text[0..] == text;
    PrefixedTwice([], [], Decoded(a, text));
    while i < |text|
      invariant i <= |text| && (|text| - i) % 8 == 0 && IsReverse(rev, a)
      invariant Decoded(a, text) == Prefixed(out, Decoded(a, text[i..]))
    {
      DecodedShape(a, text, i);
      var bytes := DecodeBlock(a, rev, text[i..i + 8], i + 8 == |text|);
      if bytes.None? { return None; }
      PrefixedTwice(out, bytes.value, Decoded(a, text[i + 8..]));
      out := out + bytes.value;
      i := i + 8;
    }
    DecodedShape(a, text, i);
    assert out + [] == out;
    return Some(out);
  }

  ghost function Prefixed(out: seq<Byte>, r: Option<seq<Byte>>): Option<seq<Byte>>
  {
    if r.None? then None else Some(out + r.value)
  }

  lemma PrefixedTwice(out: seq<Byte>, bytes: seq<Byte>, r: Option<seq<Byte>>)
    ensures Prefixed(out, Prefixed(bytes, r)) == Prefixed(out + bytes, r)
    ensures Prefixed([], r) == r
  {
    if r.Some? {
      Assoc(out, bytes, r.value);
      assert [] + r.value == r.value;
    }
  }

  lemma DecodedShape(a: seq<Byte>, text: seq<Byte>, i: nat)
    requires |a| == 32 && i <= |text|
    ensures (|text| - i) % 8 != 0 ==> Decoded(a, text[i..]) == None
    ensures i == |text| ==> Decoded(a, text[i..]) == Some([])
    ensures i < |text| && (|text| - i) % 8 == 0 ==>
              i + 8 <= |text|
              && Decoded(a, text[i..])
                 == var head := DecodedBlock(a, text[i..i + 8], i + 8 == |text|);
                    if head.None? then None else Prefixed(head.value, Decoded(a, text[i + 8..]))
  {
    if i < |text| && (|text| - i) % 8 == 0 {
      assert text[i..][..8] == text[i..i + 8] && text[i..][8..] == text[i + 8..];
    }
  }
}
