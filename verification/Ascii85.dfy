/** ascii85: four bytes written as five base-85 digits, with a short form for zero and
    short tails. */
module Ascii85 {
  import opened Arith
  import opened BitSeq
  import opened Digits
  import opened Common

  const BANG: Byte := 33 // '!', the digit 0
  const LAST: Byte := 117 // 'u', the digit 84
  const ZED: Byte := 122 // 'z', four zero bytes
  const WORD := 0x1_0000_0000

  predicate IsSpace(c: Byte)
  {
    c == 32 || 9 <= c <= 13
  }

  predicate IsDigit(c: Byte)
  {
    BANG <= c <= LAST
  }

  // ---- what the encoder writes -----------------------------------------------------------------

  /** One to four bytes as a 32-bit word, the missing ones zero. */
  ghost function Word(bs: seq<Byte>): nat
    requires |bs| <= 4
  {
    DigitsVal(bs, 256) * Pow(256, 4 - |bs|)
  }

  function Chars(ds: seq<nat>): (s: seq<Byte>)
    requires AreDigits(ds, 85)
    ensures |s| == |ds| && forall i :: 0 <= i < |s| ==> s[i] == BANG + ds[i]
  {
    seq(|ds|, i requires 0 <= i < |ds| => BANG + ds[i])
  }

  /** A group of n bytes is the first n + 1 digits of its word. */
  ghost function GroupDigits(bs: seq<Byte>): (ds: seq<nat>)
    requires |bs| <= 4
    ensures |ds| == |bs| + 1 && AreDigits(ds, 85)
  {
    WordDigits(Word(bs));
    ToDigits(Word(bs), 85, 5)[..|bs| + 1]
  }

  lemma WordDigits(v: nat)
    ensures AreDigits(ToDigits(v, 85, 5), 85)
  {
  }

  ghost function Group(bs: seq<Byte>): seq<Byte>
    requires |bs| <= 4
  {
    if |bs| == 4 && Word(bs) == 0 then [ZED] else Chars(GroupDigits(bs))
  }

  ghost function Encoded(data: seq<Byte>): seq<Byte>
  {
    if |data| <= 4 then if data == [] then [] else Group(data)
    else Group(data[..4]) + Encoded(data[4..])
  }

  // ---- what the decoder reads ------------------------------------------------------------------

  /** The decoder between two characters: the digits of the group so far as a 32-bit
      word, how many, and the bytes written. */
  datatype State = Corrupt | Reading(v: nat, nb: nat, out: seq<Byte>)

  /** The first n bytes of a word. */
  function Top(v: nat, n: nat): (s: seq<Byte>)
    requires v < WORD && n <= 4
    ensures |s| == n
  {
    [v / 0x100_0000, v / 0x1_0000 % 256, v / 256 % 256, v % 256][..n]
  }

  function Step(s: State, c: Byte): State
    requires s.Reading? ==> s.v < WORD
  {
    if s.Corrupt? || IsSpace(c) then s
    else if c == ZED && s.nb == 0 then Reading(s.v, 0, s.out + [0, 0, 0, 0])
    else if !IsDigit(c) then Corrupt
    else
      var v := (s.v * 85 + (c - BANG)) % WORD;
      if s.nb + 1 == 5 then Reading(0, 0, s.out + Top(v, 4)) else Reading(v, s.nb + 1, s.out)
  }

  ghost predicate InRange(s: State)
  {
    s.Reading? ==> s.v < WORD && s.nb < 5 && (s.nb == 0 ==> s.v == 0)
  }

  ghost function Feed(s: State, text: seq<Byte>): (t: State)
    requires InRange(s)
    ensures InRange(t)
    decreases |text|
  {
    if text == [] then s else Feed(Step(s, text[0]), text[1..])
  }

  /** A word completed by k digits 84. */
  function Padded(v: nat, k: nat): (p: nat)
    requires v < WORD
    ensures p < WORD
    decreases k
  {
    if k == 0 then v else Padded((v * 85 + 84) % WORD, k - 1)
  }

  function Finish(s: State): (r: Option<seq<Byte>>)
    requires s.Reading? ==> s.v < WORD && s.nb < 5
  {
    if s.Corrupt? || s.nb == 1 then None
    else if s.nb == 0 then Some(s.out)
    else Some(s.out + Top(Padded(s.v, 5 - s.nb), s.nb - 1))
  }

  ghost function Decoded(text: seq<Byte>): Option<seq<Byte>>
  {
    Finish(Feed(Reading(0, 0, []), text))
  }

  lemma {:induction false} FeedConcat(s: State, a: seq<Byte>, b: seq<Byte>)
    requires InRange(s)
    ensures Feed(s, a + b) == Feed(Feed(s, a), b)
    decreases |a|
  {
    if a == [] {
      assert a + b == b;
    } else {
      assert (a + b)[1..] == a[1..] + b;
      FeedConcat(Step(s, a[0]), a[1..], b);
    }
  }

  // ---- spaces ------------------------------------------------------------------------------------

  function NoSpaces(text: seq<Byte>): seq<Byte>
  {
    if text == [] then [] else (if IsSpace(text[0]) then [] else [text[0]]) + NoSpaces(text[1..])
  }

  lemma {:induction false} FeedNoSpaces(s: State, text: seq<Byte>)
    requires InRange(s)
    ensures Feed(s, text) == Feed(s, NoSpaces(text))
    decreases |text|
  {
    if text == [] {
    } else {
      var rest := NoSpaces(text[1..]);
      FeedNoSpaces(Step(s, text[0]), text[1..]);
      if IsSpace(text[0]) {
        assert NoSpaces(text) == rest;
      } else {
        assert NoSpaces(text) == [text[0]] + rest && ([text[0]] + rest)[1..] == rest;
      }
    }
  }

  /** Texts that differ only in white space decode alike. */
  lemma SpacesIgnored(a: seq<Byte>, b: seq<Byte>)
    requires NoSpaces(a) == NoSpaces(b)
    ensures Decoded(a) == Decoded(b)
  {
    FeedNoSpaces(Reading(0, 0, []), a);
    FeedNoSpaces(Reading(0, 0, []), b);
  }

  // ---- decode after encode -----------------------------------------------------------------------

  lemma FeedOne(s: State, c: Byte)
    requires InRange(s)
    ensures Feed(s, [c]) == Step(s, c)
  {
  }

  lemma StepDigit(v: nat, nb: nat, out: seq<Byte>, d: nat)
    requires d < 85 && nb < 4 && v * 85 + d < WORD
    ensures Step(Reading(v, nb, out), BANG + d) == Reading(v * 85 + d, nb + 1, out)
  {
  }

  lemma {:induction false} ValueSplit(ds: seq<nat>, n: nat)
    requires AreDigits(ds, 85) && |ds| == n + 1
    ensures AreDigits(ds[..n], 85) && DigitsVal(ds, 85) == DigitsVal(ds[..n], 85) * 85 + ds[n]
  {
  }

  lemma CharsSplit(ds: seq<nat>, n: nat)
    requires AreDigits(ds, 85) && |ds| == n + 1
    ensures AreDigits(ds[..n], 85) && Chars(ds) == Chars(ds[..n]) + [BANG + ds[n]]
  {
  }

  /** Digits collect into the word, as long as it fits and the group is not full. */
  lemma {:induction false} FeedDigits(ds: seq<nat>, out: seq<Byte>)
    requires AreDigits(ds, 85) && |ds| < 5 && DigitsVal(ds, 85) < WORD
    ensures Feed(Reading(0, 0, out), Chars(ds)) == Reading(DigitsVal(ds, 85), |ds|, out)
  {
    hide DigitsVal, Step, Chars;
    if ds == [] {
      NoDigits(ds, out);
    } else {
      var n := |ds| - 1;
      var t, d := ds[..n], ds[n];
      ValueSplit(ds, n);
      CharsSplit(ds, n);
      FeedDigits(t, out);
      FeedConcat(Reading(0, 0, out), Chars(t), [BANG + d]);
      FeedOne(Feed(Reading(0, 0, out), Chars(t)), BANG + d);
      StepDigit(DigitsVal(t, 85), n, out, d);
    }
  }

  lemma NoDigits(ds: seq<nat>, out: seq<Byte>)
    requires ds == []
    ensures DigitsVal(ds, 85) == 0 && Chars(ds) == [] && Feed(Reading(0, 0, out), Chars(ds)) == Reading(0, 0, out)
  {
  }

  lemma FourDigits(v: nat, a: nat, b: nat, c: nat)
    requires a == v / 256 && b == a / 256 && c == b / 256 && c < 256
    ensures ToDigits(v, 256, 4) == [c, b % 256, a % 256, v % 256]
  {
  }

  lemma Shifts(v: nat)
    requires v < WORD
    ensures v / 256 / 256 == v / 0x1_0000 && v / 256 / 256 / 256 == v / 0x100_0000 < 256
  {
  }

  lemma TopIsDigits(v: nat, n: nat)
    requires v < WORD && n <= 4
    ensures Top(v, n) == ToDigits(v, 256, 4)[..n]
  {
    hide ToDigits;
    Shifts(v);
    FourDigits(v, v / 256, v / 256 / 256, v / 256 / 256 / 256);
  }

  lemma Powers()
    ensures Pow(256, 0) == Pow(85, 0) == 1 && Pow(256, 1) == 256 && Pow(85, 1) == 85
    ensures Pow(256, 2) == 0x1_0000 && Pow(85, 2) == 7225 && Pow(256, 3) == 0x100_0000 && Pow(85, 3) == 614125
    ensures Pow(256, 4) == WORD && Pow(85, 4) == 52200625 && Pow(85, 5) == 4437053125
  {
  }

  /** q with k digits 84 after it. */
  ghost function Topped(q: nat, k: nat): nat
  {
    (q + 1) * Pow(85, k) - 1
  }

  /** Padding in 32-bit arithmetic. */
  lemma {:induction false} PaddedWraps(q: nat, k: nat)
    ensures Padded(q % WORD, k) == Topped(q, k) % WORD
    decreases k
  {
    if k == 0 {
    } else {
      PadStep(q);
      PaddedWraps(q * 85 + 84, k - 1);
      MulAssoc(q + 1, 85, Pow(85, k - 1));
    }
  }

  lemma PadStep(q: nat)
    ensures (q % WORD * 85 + 84) % WORD == (q * 85 + 84) % WORD
  {
    DivModEq(q, WORD);
    DivAddMultiple(q % WORD * 85 + 84, WORD, 85 * (q / WORD));
  }

  /** Padding with the digit 84 completes the word with the largest digits. */
  lemma PaddedIs(q: nat, k: nat)
    requires Topped(q, k) < WORD && q < WORD
    ensures Padded(q, k) == Topped(q, k)
  {
    hide Topped, Padded;
    PaddedWraps(q, k);
  }

  lemma LastDigit(v: nat, out: seq<Byte>, q: nat, d: nat)
    requires v < WORD && v == q * 85 + d && d < 85
    ensures Step(Reading(q, 4, out), BANG + d) == Reading(0, 0, out + Top(v, 4))
  {
  }

  /** Five digits of a word give the word's bytes. */
  lemma FiveDigits(v: nat, out: seq<Byte>, ds: seq<nat>)
    requires v < WORD && ds == ToDigits(v, 85, 5) && AreDigits(ds, 85)
    ensures Feed(Reading(0, 0, out), Chars(ds)) == Reading(0, 0, out + Top(v, 4))
  {
    hide DigitsVal, ToDigits, Chars, Feed, Step, Pow;
    Powers();
    ValueOfDigits(v, 85, 5, ds);
    ValueSplit(ds, 4);
    CharsSplit(ds, 4);
    var q := DigitsVal(ds[..4], 85);
    FeedDigits(ds[..4], out);
    FeedConcat(Reading(0, 0, out), Chars(ds[..4]), [BANG + ds[4]]);
    FeedOne(Reading(q, 4, out), BANG + ds[4]);
    LastDigit(v, out, q, ds[4]);
  }

  lemma WordOfFour(bs: seq<Byte>, v: nat)
    requires |bs| == 4 && v == DigitsVal(bs, 256)
    ensures Word(bs) == v < WORD && Top(v, 4) == bs
    ensures AreDigits(ToDigits(v, 85, 5), 85) && GroupDigits(bs) == ToDigits(v, 85, 5)
  {
    hide DigitsVal, ToDigits, Pow;
    Powers();
    DigitsBound(bs, 256);
    WordDigits(v);
    TopIsDigits(v, 4);
    DigitsOfValue(bs, 256);
  }

  /** A whole group reads back. */
  lemma FullGroup(bs: seq<Byte>, out: seq<Byte>)
    requires |bs| == 4
    ensures Feed(Reading(0, 0, out), Group(bs)) == Reading(0, 0, out + bs)
  {
    hide DigitsVal, ToDigits, Pow, Feed, Chars, GroupDigits;
    var v := DigitsVal(bs, 256);
    WordOfFour(bs, v);
    if v == 0 {
      assert bs == [0, 0, 0, 0];
      FeedOne(Reading(0, 0, out), ZED);
    } else {
      FiveDigits(v, out, GroupDigits(bs));
    }
  }

  lemma TailBounds(b: nat, n: nat, q: nat, k: nat)
    requires 1 <= n <= 3 && k == 4 - n && b < Pow(256, n) && q == b * Pow(256, k) / Pow(85, k)
    ensures (q + 1) * Pow(85, k) <= WORD && q < WORD && q < Pow(85, n + 1)
    ensures b * Pow(256, k) <= (q + 1) * Pow(85, k) - 1 < (b + 1) * Pow(256, k)
  {
  }

  /** The one to three bytes of a tail survive the digits that are not written. */
  lemma TailGroup(bs: seq<Byte>, out: seq<Byte>)
    requires 1 <= |bs| <= 3
    ensures Finish(Feed(Reading(0, 0, out), Group(bs))) == Some(out + bs)
  {
    hide DigitsVal, ToDigits, Pow, Feed, Chars, Padded, Top;
    var n := |bs|;
    var k := 4 - n;
    var b := DigitsVal(bs, 256);
    DigitsBound(bs, 256);
    Powers();
    var q := b * Pow(256, k) / Pow(85, k);
    TailBounds(b, n, q, k);
    var ds := GroupDigits(bs);
    LeadingDigits(Word(bs), 85, 5, n + 1);
    ValueOfDigits(q, 85, n + 1, ds);
    FeedDigits(ds, out);
    var p := Topped(q, k);
    PaddedIs(q, k);
    Survives(bs, 256, 4, p);
    TopIsDigits(p, n);
  }

  lemma {:induction false} FeedEncoded(data: seq<Byte>, out: seq<Byte>)
    ensures Finish(Feed(Reading(0, 0, out), Encoded(data))) == Some(out + data)
    decreases |data|
  {
    hide Group;
    if data == [] {
      assert out + data == out;
    } else if |data| < 4 {
      TailGroup(data, out);
    } else {
      var head, rest := data[..4], data[4..];
      FullGroup(head, out);
      FeedEncoded(rest, out + head);
      FeedConcat(Reading(0, 0, out), Group(head), Encoded(rest));
      EncodedSplit(data);
      assert out + head + rest == out + data;
    }
  }

  lemma EncodedSplit(data: seq<Byte>)
    requires |data| >= 4
    ensures Encoded(data) == Group(data[..4]) + Encoded(data[4..])
  {
    if |data| == 4 {
      assert data[..4] == data && data[4..] == [];
    }
  }

  /** Every byte string survives. */
  lemma RoundTrip(data: seq<Byte>)
    ensures Decoded(Encoded(data)) == Some(data)
  {
    FeedEncoded(data, []);
    assert [] + data == data;
  }

  // ---- which texts decode --------------------------------------------------------------------------

  ghost predicate AllDigits(t: seq<Byte>)
  {
    forall i :: 0 <= i < |t| ==> IsDigit(t[i])
  }

  /** Without spaces: z and groups of five digits, then at most four digits, not one. */
  ghost predicate WellFormed(t: seq<Byte>)
    decreases |t|
  {
    if t == [] then true
    else if t[0] == ZED then WellFormed(t[1..])
    else if |t| < 5 then |t| > 1 && AllDigits(t)
    else AllDigits(t[..5]) && WellFormed(t[5..])
  }

  lemma {:induction false} CorruptStays(t: seq<Byte>)
    ensures Feed(Corrupt, t) == Corrupt
  {
    if t == [] {
    } else {
      CorruptStays(t[1..]);
    }
  }

  /** Inside a group every character but a digit is an error. */
  lemma {:induction false} FeedGroup(s: State, t: seq<Byte>)
    requires InRange(s) && s.Reading? && s.nb + |t| < 5 && (s.nb > 0 || t == [] || t[0] != ZED)
    requires forall i :: 0 <= i < |t| ==> !IsSpace(t[i])
    ensures Feed(s, t) == Corrupt || (Feed(s, t).Reading? && Feed(s, t).nb == s.nb + |t|)
    ensures Feed(s, t).Reading? <==> AllDigits(t)
    decreases |t|
  {
    if t == [] {
    } else {
      var s' := Step(s, t[0]);
      if s'.Corrupt? {
        CorruptStays(t[1..]);
      } else {
        FeedGroup(s', t[1..]);
        assert forall i :: 1 <= i < |t| ==> t[i] == t[1..][i - 1];
      }
    }
  }

  ghost predicate Dense(t: seq<Byte>)
  {
    forall i :: 0 <= i < |t| ==> !IsSpace(t[i])
  }

  /** A fifth character completes the group or is an error. */
  lemma FeedFive(out: seq<Byte>, t: seq<Byte>)
    requires |t| == 5 && Dense(t) && t[0] != ZED
    ensures AllDigits(t) ==> Feed(Reading(0, 0, out), t).Reading? && Feed(Reading(0, 0, out), t).nb == 0
    ensures !AllDigits(t) ==> Feed(Reading(0, 0, out), t) == Corrupt
  {
    hide Feed;
    var s := Reading(0, 0, out);
    assert t == t[..4] + [t[4]];
    FeedConcat(s, t[..4], [t[4]]);
    FeedGroup(s, t[..4]);
    FeedOne(Feed(s, t[..4]), t[4]);
    if !AllDigits(t[..4]) { CorruptStays([t[4]]); }
  }

  lemma {:induction false} AcceptsFrom(t: seq<Byte>, out: seq<Byte>)
    requires Dense(t)
    ensures Finish(Feed(Reading(0, 0, out), t)).Some? <==> WellFormed(t)
    decreases |t|
  {
    var s := Reading(0, 0, out);
    if t == [] {
    } else if t[0] == ZED {
      AcceptsFrom(t[1..], out + [0, 0, 0, 0]);
    } else if |t| < 5 {
      FeedGroup(s, t);
    } else {
      FeedFive(out, t[..5]);
      assert t == t[..5] + t[5..];
      FeedConcat(s, t[..5], t[5..]);
      if AllDigits(t[..5]) {
        AcceptsFrom(t[5..], Feed(s, t[..5]).out);
      } else {
        CorruptStays(t[5..]);
      }
    }
  }

  lemma {:induction false} NoSpacesDense(text: seq<Byte>)
    ensures Dense(NoSpaces(text))
  {
    if text == [] {
    } else {
      NoSpacesDense(text[1..]);
    }
  }

  /** Exactly the well-formed texts decode. */
  lemma AcceptsExactly(text: seq<Byte>)
    ensures Decoded(text).Some? <==> WellFormed(NoSpaces(text))
  {
    FeedNoSpaces(Reading(0, 0, []), text);
    NoSpacesDense(text);
    AcceptsFrom(NoSpaces(text), []);
  }

  // ---- encode after decode -------------------------------------------------------------------------

  /** The digits of a text. */
  ghost function DigitsOf(t: seq<Byte>): (ds: seq<nat>)
    requires AllDigits(t)
    ensures AreDigits(ds, 85) && |ds| == |t| && Chars(ds) == t
  {
    seq(|t|, i requires 0 <= i < |t| => t[i] - BANG)
  }

  ghost function Value(t: seq<Byte>): nat
    requires AllDigits(t)
  {
    DigitsVal(DigitsOf(t), 85)
  }

  /** A tail of two to four digits that padding does not carry past 2^32 and whose value
      has a word with zero low bytes. */
  ghost predicate CleanTail(t: seq<Byte>)
    requires 2 <= |t| <= 4 && AllDigits(t)
  {
    var k := 5 - |t|;
    Topped(Value(t), k) < WORD && Topped(Value(t), k) % Pow(256, k) < Pow(85, k)
  }

  /** No group stands for 2^32 or more, none spells out zero, and the tail is clean. */
  ghost predicate Clean(t: seq<Byte>)
    requires WellFormed(t)
    decreases |t|
  {
    if t == [] then true
    else if t[0] == ZED then Clean(t[1..])
    else if |t| < 5 then CleanTail(t)
    else 0 < Value(t[..5]) < WORD && Clean(t[5..])
  }

  lemma CharsDiffer(a: seq<nat>, b: seq<nat>)
    requires AreDigits(a, 85) && AreDigits(b, 85)
    ensures Chars(a) == Chars(b) <==> a == b
  {
    if Chars(a) == Chars(b) {
      forall i | 0 <= i < |a|
        ensures a[i] == b[i]
      {
        assert Chars(a)[i] == Chars(b)[i];
      }
    }
  }

  /** Five digits of any value give the bytes of the value modulo 2^32. */
  lemma AnyFive(ds: seq<nat>, out: seq<Byte>, v: nat)
    requires |ds| == 5 && AreDigits(ds, 85) && v == DigitsVal(ds, 85)
    ensures Feed(Reading(0, 0, out), Chars(ds)) == Reading(0, 0, out + Top(v % WORD, 4))
  {
    hide DigitsVal, Chars, Feed, Step, Pow;
    Powers();
    ValueSplit(ds, 4);
    CharsSplit(ds, 4);
    DigitsBound(ds[..4], 85);
    var q := DigitsVal(ds[..4], 85);
    FeedDigits(ds[..4], out);
    FeedConcat(Reading(0, 0, out), Chars(ds[..4]), [BANG + ds[4]]);
    FeedOne(Reading(q, 4, out), BANG + ds[4]);
    LastWraps(v, out, q, ds[4]);
  }

  lemma LastWraps(v: nat, out: seq<Byte>, q: nat, d: nat)
    requires q < WORD && v == q * 85 + d && d < 85
    ensures Step(Reading(q, 4, out), BANG + d) == Reading(0, 0, out + Top(v % WORD, 4))
  {
  }

  /** The bytes of a word have the word back. */
  lemma WordOfTop(v: nat)
    requires v < WORD
    ensures Word(Top(v, 4)) == v
  {
    hide DigitsVal, ToDigits, Pow;
    Powers();
    TopIsDigits(v, 4);
    ValueOfDigits(v, 256, 4, ToDigits(v, 256, 4));
    assert ToDigits(v, 256, 4)[..4] == ToDigits(v, 256, 4);
  }

  /** A group is what its bytes encode to exactly when it is below 2^32 and not zero. */
  lemma GroupCanonical(ds: seq<nat>, v: nat)
    requires |ds| == 5 && AreDigits(ds, 85) && v == DigitsVal(ds, 85)
    ensures Group(Top(v % WORD, 4)) == Chars(ds) <==> 0 < v < WORD
    ensures v % WORD == 0 ==> Group(Top(v % WORD, 4)) == [ZED]
    ensures v % WORD != 0 ==> |Group(Top(v % WORD, 4))| == 5
  {
    hide DigitsVal, ToDigits, Pow, Top, Word;
    var r := v % WORD;
    WordOfTop(r);
    Powers();
    DigitsBound(ds, 85);
    WordDigits(r);
    DigitsAre(r, 85, ds);
    assert ToDigits(r, 85, 5)[..5] == ToDigits(r, 85, 5);
    CharsDiffer(ToDigits(r, 85, 5), ds);
    if r == 0 { assert |[ZED]| != |Chars(ds)|; }
  }

  /** The first n bytes of a word: its low bytes cleared. */
  lemma WordOfBytes(p: nat, n: nat, u: nat, d: seq<Byte>)
    requires p < WORD && 1 <= n <= 3 && u == Pow(256, 4 - n) && d == Top(p, n)
    ensures u > 0 && Word(d) == p - p % u
  {
    hide DigitsVal, ToDigits, Pow;
    Powers();
    TopIsDigits(p, n);
    LeadingDigits(p, 256, 4, n);
    DivModEq(p, u);
    PowAdd(256, n, 4 - n);
    QuotientBelow(p, u, Pow(256, n));
    ValueOfDigits(p / u, 256, n, d);
  }

  lemma QuotientIs(x: nat, w: nat, q: nat, a: nat)
    requires w > 0 && a == q * w && x < a + w
    ensures x / w == q <==> x >= a
  {
    DivModEq(x, w);
    if x >= a { DivModUnique(x, w, q, x - a); }
  }

  /** Whether the digits come back, in numbers. */
  lemma TailNumbers(a: nat, w: nat, u: nat, top: nat, p: nat, x: nat)
    requires 0 < w <= WORD && u > 0 && top == a + w - 1 < 2 * WORD && p == top % WORD && x == p - p % u
    ensures x < a + w && (x >= a <==> top < WORD && top % u < w)
  {
  }

  lemma TailQuotient(q: nat, k: nat, w: nat, u: nat, top: nat, p: nat, x: nat)
    requires 2 <= k <= 4 && w == Pow(85, 5 - k) && q < Pow(85, k) && top == Topped(q, 5 - k)
    requires u > 0 && p == top % WORD && x == p - p % u
    ensures w > 0 && (x / w == q <==> top < WORD && top % u < w)
  {
    ToppedBound(q, k, w, top);
    MulDist(w, q, 1);
    TailNumbers(q * w, w, u, top, p, x);
    QuotientIs(x, w, q, q * w);
  }

  /** The digits of the first bytes of a padded value. */
  lemma TailDigits(ds: seq<nat>, q: nat, w: nat, u: nat, top: nat, d: seq<Byte>)
    requires 2 <= |ds| <= 4 && AreDigits(ds, 85) && q == DigitsVal(ds, 85) && top == Topped(q, 5 - |ds|)
    requires w == Pow(85, 5 - |ds|) && u == Pow(256, 5 - |ds|) && d == Top(top % WORD, |ds| - 1)
    ensures u > 0 && (GroupDigits(d) == ds <==> top < WORD && top % u < w)
  {
    hide DigitsVal, ToDigits, Pow, Top, Word, Topped;
    var k, p, x := |ds|, top % WORD, Word(d);
    DigitsBound(ds, 85);
    WordOfBytes(p, k - 1, u, d);
    TailQuotient(q, k, w, u, top, p, x);
    LeadingDigits(x, 85, 5, k);
    QuotientFits(x, k, w);
    DigitsAre(x / w, 85, ds);
  }

  /** A tail is what its bytes encode to exactly when it is clean. */
  lemma TailCanonical(t: seq<Byte>, p: nat, d: seq<Byte>)
    requires 2 <= |t| <= 4 && AllDigits(t) && p == Topped(Value(t), 5 - |t|) % WORD && d == Top(p, |t| - 1)
    ensures Group(d) == t <==> CleanTail(t)
  {
    hide DigitsVal, Pow, Top, Word, Chars, Topped, GroupDigits;
    var k, ds, q := |t|, DigitsOf(t), Value(t);
    TailDigits(ds, q, Pow(85, 5 - k), Pow(256, 5 - k), Topped(q, 5 - k), d);
    CharsDiffer(GroupDigits(d), ds);
  }

  lemma ToppedBound(q: nat, k: nat, w: nat, top: nat)
    requires 2 <= k <= 4 && w == Pow(85, 5 - k) && q < Pow(85, k) && top == Topped(q, 5 - k)
    ensures 0 < w <= WORD && top == (q + 1) * w - 1 < 2 * WORD
  {
    hide Pow;
    Powers();
    PowAdd(85, k, 5 - k);
    MulMono(q + 1, Pow(85, k), w);
  }

  lemma QuotientFits(x: nat, k: nat, w: nat)
    requires 2 <= k <= 4 && w == Pow(85, 5 - k) && x < WORD
    ensures w > 0 && x / w < Pow(85, k)
  {
    hide Pow;
    Powers();
    PowAdd(85, k, 5 - k);
    QuotientBelow(x, w, Pow(85, k));
  }

  lemma TailDecodes(t: seq<Byte>, out: seq<Byte>, p: nat)
    requires 2 <= |t| <= 4 && AllDigits(t) && p == Topped(Value(t), 5 - |t|) % WORD
    ensures Finish(Feed(Reading(0, 0, out), t)) == Some(out + Top(p, |t| - 1))
  {
    hide DigitsVal, Pow, Feed, Chars, Top, Topped, Padded;
    var ds := DigitsOf(t);
    TailBelow(ds);
    FeedDigits(ds, out);
    PaddedWraps(Value(t), 5 - |t|);
  }

  lemma TailBelow(ds: seq<nat>)
    requires |ds| <= 4 && AreDigits(ds, 85)
    ensures DigitsVal(ds, 85) < WORD && DigitsVal(ds, 85) % WORD == DigitsVal(ds, 85)
  {
    hide DigitsVal, Pow;
    Powers();
    DigitsBound(ds, 85);
    PowMonoExp(85, |ds|, 4);
  }

  /** What a well-formed text decodes to, and whether that encodes to it. */
  lemma {:induction false} CanonicalFrom(t: seq<Byte>, out: seq<Byte>) returns (d: seq<Byte>)
    requires Dense(t) && WellFormed(t)
    ensures Finish(Feed(Reading(0, 0, out), t)) == Some(out + d)
    ensures Encoded(d) == t <==> Clean(t)
    decreases |t|
  {
    hide Group, Value, CleanTail, Top, Encoded, Feed, Finish, Topped;
    var s := Reading(0, 0, out);
    if t == [] {
      d := [];
      EmptyDecodes(out);
    } else if t[0] == ZED {
      var zeros: seq<Byte> := [0, 0, 0, 0];
      var rest := CanonicalFrom(t[1..], out + zeros);
      d := zeros + rest;
      ZedDecodes(t, out);
      ZedGroup(zeros);
      SplitCanonical(t, d, zeros, rest, [ZED]);
      Assoc(out, zeros, rest);
    } else if |t| < 5 {
      var p := Topped(Value(t), 5 - |t|) % WORD;
      d := Top(p, |t| - 1);
      TailDecodes(t, out, p);
      TailCanonical(t, p, d);
      EncodedTail(d);
    } else {
      var head, v := t[..5], Value(t[..5]);
      var bytes := Top(v % WORD, 4);
      var rest := CanonicalFrom(t[5..], out + bytes);
      d := bytes + rest;
      HeadDecodes(t, out, head, v);
      SplitCanonical(t, d, bytes, rest, head);
      Assoc(out, bytes, rest);
    }
  }

  lemma EmptyDecodes(out: seq<Byte>)
    ensures Finish(Feed(Reading(0, 0, out), [])) == Some(out + []) && Encoded([]) == []
  {
    assert out + [] == out;
  }

  lemma ZedDecodes(t: seq<Byte>, out: seq<Byte>)
    requires t != [] && t[0] == ZED
    ensures Feed(Reading(0, 0, out), t) == Feed(Reading(0, 0, out + [0, 0, 0, 0]), t[1..])
  {
  }

  lemma ZedGroup(zeros: seq<Byte>)
    requires zeros == [0, 0, 0, 0]
    ensures Group(zeros) == [ZED]
  {
    hide DigitsVal;
    ZerosVal(zeros, 256);
  }

  lemma EncodedTail(d: seq<Byte>)
    requires 1 <= |d| <= 3
    ensures Encoded(d) == Group(d)
  {
  }

  /** The first group of a text that has five digits to start with. */
  lemma HeadDecodes(t: seq<Byte>, out: seq<Byte>, head: seq<Byte>, v: nat)
    requires |t| >= 5 && head == t[..5] && AllDigits(head) && v == Value(head)
    ensures Feed(Reading(0, 0, out), t) == Feed(Reading(0, 0, out + Top(v % WORD, 4)), t[5..])
    ensures Group(Top(v % WORD, 4)) == head <==> 0 < v < WORD
    ensures Group(Top(v % WORD, 4)) == [ZED] || |Group(Top(v % WORD, 4))| == 5
  {
    hide Feed, Top, Group, Chars, DigitsVal;
    AnyFive(DigitsOf(head), out, v);
    GroupCanonical(DigitsOf(head), v);
    assert t == head + t[5..];
    FeedConcat(Reading(0, 0, out), head, t[5..]);
  }

  /** The encoding of four bytes and more, against a text that starts with head. */
  lemma SplitCanonical(t: seq<Byte>, d: seq<Byte>, bytes: seq<Byte>, rest: seq<Byte>, head: seq<Byte>)
    requires |bytes| == 4 && d == bytes + rest && head != [] && head <= t
    requires Group(bytes) == [ZED] || |Group(bytes)| == |head|
    requires Group(bytes) == [ZED] && head != [ZED] ==> head[0] != ZED
    ensures Encoded(d) == t <==> Group(bytes) == head && Encoded(rest) == t[|head|..]
  {
    hide Group;
    EncodedSplit(d);
    assert d[..4] == bytes && d[4..] == rest;
    var g, e := Group(bytes), Encoded(rest);
    assert t == head + t[|head|..];
    if g + e == t {
      assert (g + e)[0] == g[0];
      if |g| == |head| {
        assert (g + e)[..|g|] == g && (g + e)[|g|..] == e;
      }
    }
  }

  /** A text that decodes is, without its white space, the encoding of its bytes exactly when
      it is clean. */
  lemma Canonical(text: seq<Byte>, d: seq<Byte>)
    requires Decoded(text) == Some(d)
    ensures WellFormed(NoSpaces(text)) && (Encoded(d) == NoSpaces(text) <==> Clean(NoSpaces(text)))
  {
    AcceptsExactly(text);
    FeedNoSpaces(Reading(0, 0, []), text);
    NoSpacesDense(text);
    var d' := CanonicalFrom(NoSpaces(text), []);
    assert [] + d' == d';
  }

  // ---- the loops -----------------------------------------------------------------------------------

  /** The place of the byte j in a word. */
  function Weight(j: nat): nat
    requires j < 4
  {
    if j == 0 then 0x100_0000 else if j == 1 then 0x1_0000 else if j == 2 then 256 else 1
  }

  /** The bytes of a group as a word. */
  method LoadWord(data: seq<Byte>, i: nat, nb: nat) returns (v: nat)
    requires nb <= 4 && i + nb <= |data|
    ensures v == Word(data[i..i + nb])
  {
    hide Pow, DigitsVal;
    v := 0;
    Powers();
    EmptyWord(data[i..i]);
    for j := 0 to nb
      invariant v == Word(data[i..i + j])
    {
      WordStep(data, i, j);
      v := v + data[i + j] * Weight(j);
    }
  }

  lemma EmptyWord(bs: seq<Byte>)
    requires bs == []
    ensures Word(bs) == 0
  {
  }

  lemma WordStep(data: seq<Byte>, i: nat, j: nat)
    requires j < 4 && i + j < |data|
    ensures Word(data[i..i + j + 1]) == Word(data[i..i + j]) + data[i + j] * Weight(j)
  {
    hide Pow;
    var bs := data[i..i + j + 1];
    assert bs[..j] == data[i..i + j];
    var b, p := DigitsVal(bs[..j], 256), Pow(256, 3 - j);
    PowTail(j);
    MulDist(p, b * 256, data[i + j]);
    MulAssoc(b, 256, p);
  }

  lemma PowTail(j: nat)
    requires j < 4
    ensures Pow(256, 4 - j) == 256 * Pow(256, 3 - j) && Pow(256, 3 - j) == Weight(j)
  {
    Powers();
  }

  method Encode(data: seq<Byte>) returns (out: seq<Byte>)
    ensures out == Encoded(data)
  {
    hide Word, Group, Encoded, ToDigits, Chars;
    out := [];
    var i := 0;
    EncodedEnds(data[0..]);
    assert data[0..] == data;
    while i < |data|
      invariant i <= |data| && out + Encoded(data[i..]) == Encoded(data)
    {
      var nb := if |data| - i < 4 then |data| - i else 4;
      EncodedStep(data, i, nb);
      var v := LoadWord(data, i, nb);
      var g := EmitGroup(v, nb, data[i..i + nb]);
      Assoc(out, g, Encoded(data[i + nb..]));
      out := out + g;
      i := i + nb;
    }
    EncodedEnds(data[i..]);
  }

  lemma EncodedEnds(data: seq<Byte>)
    ensures data == [] ==> Encoded(data) == []
  {
  }

  lemma EncodedStep(data: seq<Byte>, i: nat, nb: nat)
    requires i < |data| && nb == if |data| - i < 4 then |data| - i else 4
    ensures Encoded(data[i..]) == Group(data[i..i + nb]) + Encoded(data[i + nb..])
  {
    var s := data[i..];
    if nb < 4 {
      assert data[i..i + nb] == s && data[i + nb..] == [];
    } else {
      assert s[..4] == data[i..i + nb] && s[4..] == data[i + nb..];
      EncodedSplit(s);
    }
  }

  /** The five characters of a word, from the last to the first. */
  method EmitDigits(v0: nat) returns (c: seq<Byte>)
    ensures AreDigits(ToDigits(v0, 85, 5), 85) && c == Chars(ToDigits(v0, 85, 5))
  {
    hide ToDigits;
    var v := v0;
    c := [];
    WordDigits(v0);
    ghost var ds := ToDigits(v0, 85, 5);
    assert ds[..5] == ds;
    for j := 0 to 5
      invariant |c| == j && ToDigits(v, 85, 5 - j) == ds[..5 - j]
      invariant forall k :: 0 <= k < j ==> c[k] == BANG + ds[5 - j + k]
    {
      ToDigitsStep(v, 85, 5 - j, ToDigits(v / 85, 85, 4 - j));
      assert ds[..5 - j][..4 - j] == ds[..4 - j] && ds[..5 - j][4 - j] == ds[4 - j];
      c := [BANG + v % 85] + c;
      v := v / 85;
    }
  }

  /** The characters of one group. */
  method EmitGroup(v: nat, nb: nat, ghost bs: seq<Byte>) returns (g: seq<Byte>)
    requires |bs| == nb <= 4 && v == Word(bs)
    ensures g == Group(bs)
  {
    hide Word, ToDigits;
    if nb == 4 && v == 0 { return [ZED]; }
    var c := EmitDigits(v);
    var m := if nb < 4 then nb + 1 else 5;
    g := c[..m];
  }

  method Decode(text: seq<Byte>) returns (r: Option<seq<Byte>>)
    ensures r == Decoded(text)
  {
    hide Feed;
    var s := Reading(0, 0, []);
    assert text[..0] == [];
    FeedNone(s);
    for i := 0 to |text|
      invariant s.Reading? && InRange(s) && Feed(Reading(0, 0, []), text[..i]) == s
    {
      assert text[..i + 1] == text[..i] + [text[i]];
      FeedConcat(Reading(0, 0, []), text[..i], [text[i]]);
      FeedOne(s, text[i]);
      s := Step(s, text[i]);
      if s.Corrupt? {
        assert text == text[..i + 1] + text[i + 1..];
        FeedConcat(Reading(0, 0, []), text[..i + 1], text[i + 1..]);
        CorruptStays(text[i + 1..]);
        return None;
      }
    }
    assert text[..|text|] == text;
    r := Finish(s);
  }

  lemma FeedNone(s: State)
    requires InRange(s)
    ensures Feed(s, []) == s
  {
  }
}
