/** The compressed data of section 3.2 of RFC 1951: literals and back-references,
    their bits under given Huffman codes, and the bytes they stand for. */
module DeflateFormat {
  import opened Arith
  import opened BitSeq
  import opened Huffman

  /** Base values and extra bits of the length codes 257 to 285. */
  const LENS: seq<nat> :=
    [3, 4, 5, 6, 7, 8, 9, 10, 11, 13, 15, 17, 19, 23, 27, 31, 35, 43, 51, 59, 67,
     83, 99, 115, 131, 163, 195, 227, 258]
  const LEXT: seq<nat> :=
    [0, 0, 0, 0, 0, 0, 0, 0, 1, 1, 1, 1, 2, 2, 2, 2, 3, 3, 3, 3, 4, 4, 4, 4, 5,
     5, 5, 5, 0]

  /** Base values and extra bits of the distance codes 0 to 29. */
  const DISTS: seq<nat> :=
    [1, 2, 3, 4, 5, 7, 9, 13, 17, 25, 33, 49, 65, 97, 129, 193, 257, 385, 513,
     769, 1025, 1537, 2049, 3073, 4097, 6145, 8193, 12289, 16385, 24577]
  const DEXT: seq<nat> :=
    [0, 0, 0, 0, 1, 1, 2, 2, 3, 3, 4, 4, 5, 5, 6, 6, 7, 7, 8, 8, 9, 9, 10, 10,
     11, 11, 12, 12, 13, 13]

  function LenBase(i: nat): (n: nat)
    requires i < 29
    ensures 3 <= n <= 258
  {
    LENS[i]
  }

  function LenExtra(i: nat): (n: nat)
    requires i < 29
    ensures n <= 5
  {
    LEXT[i]
  }

  function DistBase(j: nat): (n: nat)
    requires j < 30
    ensures 1 <= n <= 24577
  {
    DISTS[j]
  }

  function DistExtra(j: nat): (n: nat)
    requires j < 30
    ensures n <= 13
  {
    DEXT[j]
  }

  /** The length codes 257 to 284: their ranges follow on one another from 3, four
      codes for each number of extra bits; 285 is the length 258 alone. */
  lemma LengthLaw(i: nat)
    requires i < 27
    ensures LenBase(0) == 3 && LenBase(i + 1) == LenBase(i) + Pow(2, LenExtra(i))
    ensures LenExtra(i) == (if i < 8 then 0 else (i - 4) / 4) && LenExtra(27) == 5
    ensures LenBase(28) == 258 && LenExtra(28) == 0
  {
    hide FastPow;
    FastPowIsPow(2, LEXT[i]);
    if i < 14 { ShortLengths(i); } else { LongLengths(i); }
  }

  lemma ShortLengths(i: nat)
    requires i < 14
    ensures LENS[i + 1] == LENS[i] + FastPow(2, LEXT[i]) && LEXT[i] == (if i < 8 then 0 else (i - 4) / 4)
  {
  }

  lemma LongLengths(i: nat)
    requires 14 <= i < 27
    ensures LENS[i + 1] == LENS[i] + FastPow(2, LEXT[i]) && LEXT[i] == (i - 4) / 4
  {
    assert FastPow(2, 2) == 4 && FastPow(2, 3) == 8 && FastPow(2, 4) == 16 && FastPow(2, 5) == 32;
    hide FastPow;
  }

  /** The distance codes: their ranges follow on one another from 1 to 32768, two
      codes for each number of extra bits. */
  lemma DistanceLaw(j: nat)
    requires j < 29
    ensures DistBase(0) == 1 && DistBase(j + 1) == DistBase(j) + Pow(2, DistExtra(j))
    ensures DistExtra(j) == (if j < 4 then 0 else (j - 2) / 2) && DistBase(29) + Pow(2, DistExtra(29)) == 32769
  {
    FastPowIsPow(2, 13);
    assert FastPow(2, 13) == 8192;
    hide FastPow;
    FastPowIsPow(2, DEXT[j]);
    if j < 12 { NearDistances(j); } else if j < 21 { MidDistances(j); } else { FarDistances(j); }
  }

  lemma NearDistances(j: nat)
    requires j < 12
    ensures DISTS[j + 1] == DISTS[j] + FastPow(2, DEXT[j]) && DEXT[j] == (if j < 4 then 0 else (j - 2) / 2)
  {
  }

  lemma MidDistances(j: nat)
    requires 12 <= j < 21
    ensures DISTS[j + 1] == DISTS[j] + FastPow(2, DEXT[j]) && DEXT[j] == (j - 2) / 2
  {
    assert FastPow(2, 5) == 32 && FastPow(2, 6) == 64 && FastPow(2, 7) == 128;
    assert FastPow(2, 8) == 256 && FastPow(2, 9) == 512;
    hide FastPow;
  }

  lemma FarDistances(j: nat)
    requires 21 <= j < 29
    ensures DISTS[j + 1] == DISTS[j] + FastPow(2, DEXT[j]) && DEXT[j] == (j - 2) / 2
  {
    assert FastPow(2, 9) == 512 && FastPow(2, 10) == 1024 && FastPow(2, 11) == 2048;
    assert FastPow(2, 12) == 4096 && FastPow(2, 13) == 8192;
    hide FastPow;
  }

  const END_OF_BLOCK: nat := 256

  /** A literal byte, or a back-reference by its length code i and distance code j
      with the values of their extra bits. */
  datatype Item = Lit(b: Byte) | Ref(i: nat, xl: nat, j: nat, xd: nat)

  predicate IsItem(t: Item)
  {
    t.Ref? ==> t.i < 29 && t.j < 30 && t.xl < Pow(2, LenExtra(t.i)) && t.xd < Pow(2, DistExtra(t.j))
  }

  function RefLength(t: Item): nat
    requires t.Ref? && IsItem(t)
  {
    LenBase(t.i) + t.xl
  }

  function RefDist(t: Item): nat
    requires t.Ref? && IsItem(t)
  {
    DistBase(t.j) + t.xd
  }

  // ---- the bytes ---------------------------------------------------------------------------

  /** n bytes copied from dist bytes back; the copy may overlap itself. */
  ghost function Copy(out: seq<Byte>, dist: nat, n: nat): (r: seq<Byte>)
    requires 1 <= dist <= |out|
    ensures |r| == |out| + n
    decreases n
  {
    if n == 0 then out else Copy(out + [out[|out| - dist]], dist, n - 1)
  }

  /** A back-reference stays inside the bytes produced so far. */
  ghost predicate Refers(out: seq<Byte>, t: Item)
  {
    IsItem(t) && (t.Ref? ==> RefDist(t) <= |out|)
  }

  lemma DistPositive(t: Item)
    requires t.Ref? && IsItem(t)
    ensures RefDist(t) >= 1
  {
  }

  ghost function Apply(out: seq<Byte>, t: Item): (r: seq<Byte>)
    requires Refers(out, t)
    ensures |r| >= |out|
  {
    match t
    case Lit(b) => out + [b]
    case Ref(_, _, _, _) => DistPositive(t); Copy(out, RefDist(t), RefLength(t))
  }

  ghost predicate AllRefer(out: seq<Byte>, items: seq<Item>)
    decreases |items|
  {
    items != [] ==> Refers(out, items[0]) && AllRefer(Apply(out, items[0]), items[1..])
  }

  ghost function Expand(out: seq<Byte>, items: seq<Item>): (r: seq<Byte>)
    requires AllRefer(out, items)
    ensures |r| >= |out|
    decreases |items|
  {
    if items == [] then out else Expand(Apply(out, items[0]), items[1..])
  }

  lemma {:induction false} ExpandConcat(out: seq<Byte>, a: seq<Item>, b: seq<Item>)
    requires AllRefer(out, a) && AllRefer(Expand(out, a), b)
    ensures AllRefer(out, a + b) && Expand(out, a + b) == Expand(Expand(out, a), b)
    decreases |a|
  {
    if a == [] {
      assert a + b == b;
    } else {
      assert (a + b)[1..] == a[1..] + b;
      ExpandConcat(Apply(out, a[0]), a[1..], b);
    }
  }

  lemma ExpandSnoc(out: seq<Byte>, a: seq<Item>, t: Item)
    requires AllRefer(out, a) && Refers(Expand(out, a), t)
    ensures AllRefer(out, a + [t]) && Expand(out, a + [t]) == Apply(Expand(out, a), t)
  {
    var mid := Expand(out, a);
    assert [t][1..] == [];
    assert AllRefer(Apply(mid, t), [t][1..]);
    assert AllRefer(mid, [t]) && Expand(mid, [t]) == Apply(mid, t);
    ExpandConcat(out, a, [t]);
  }

  // ---- the bits ------------------------------------------------------------------------------

  /** The Huffman codes of a block: literals and lengths, distances. */
  datatype Codes = Codes(ll: seq<nat>, dl: seq<nat>)

  ghost predicate UsableCodes(c: Codes)
  {
    && IsLengths(c.ll) && !Oversubscribed(c.ll)
    && IsLengths(c.dl) && !Oversubscribed(c.dl)
  }

  ghost predicate Encodable(c: Codes, t: Item)
  {
    && IsItem(t)
    && match t
       case Lit(b) => HasCode(c.ll, b)
       case Ref(i, _, j, _) => HasCode(c.ll, 257 + i) && HasCode(c.dl, j)
  }

  ghost function ItemBits(c: Codes, t: Item): seq<bool>
    requires Encodable(c, t)
  {
    match t
    case Lit(b) => CodeBits(c.ll, b)
    case Ref(i, xl, j, xd) =>
      CodeBits(c.ll, 257 + i) + (Lsb(xl, LenExtra(i)) + (CodeBits(c.dl, j) + Lsb(xd, DistExtra(j))))
  }

  ghost predicate AllEncodable(c: Codes, items: seq<Item>)
  {
    forall k :: 0 <= k < |items| ==> Encodable(c, items[k])
  }

  ghost function ItemsBits(c: Codes, items: seq<Item>): seq<bool>
    requires AllEncodable(c, items)
  {
    if items == [] then [] else ItemBits(c, items[0]) + ItemsBits(c, items[1..])
  }

  ghost function EndBits(c: Codes): seq<bool>
    requires HasCode(c.ll, END_OF_BLOCK)
  {
    CodeBits(c.ll, END_OF_BLOCK)
  }

  lemma {:induction false} ItemsSnoc(c: Codes, items: seq<Item>, t: Item)
    requires AllEncodable(c, items) && Encodable(c, t)
    ensures AllEncodable(c, items + [t]) && ItemsBits(c, items + [t]) == ItemsBits(c, items) + ItemBits(c, t)
  {
    if items == [] {
      assert items + [t] == [t] && [t][1..] == [];
    } else {
      ItemsSnoc(c, items[1..], t);
      assert (items + [t])[1..] == items[1..] + [t];
      assert (ItemBits(c, items[0]) + ItemsBits(c, items[1..])) + ItemBits(c, t)
          == ItemBits(c, items[0]) + (ItemsBits(c, items[1..]) + ItemBits(c, t));
    }
  }

  // ---- an item is determined by the bits it starts -----------------------------------------------

  lemma PrefixSplit(a: seq<bool>, b: seq<bool>, r: seq<bool>)
    ensures a + b <= r <==> a <= r && b <= r[|a|..]
  {
    if a <= r && b <= r[|a|..] { assert a + b == r[..|a| + |b|]; }
    if a + b <= r {
      assert a == r[..|a|];
      assert b == r[|a|..][..|b|];
    }
  }

  /** What a reader finds where the number v was written with n bits. */
  lemma NumberAtStart(v: nat, n: nat, r: seq<bool>)
    requires v < Pow(2, n)
    ensures Lsb(v, n) <= r <==> |r| >= n && FromLsb(r[..n]) == v
  {
    hide Pow, Lsb, FromLsb;
    if Lsb(v, n) <= r {
      assert r[..n] == Lsb(v, n);
      FromLsbOf(v, n);
      ModSmall(v, Pow(2, n));
    }
    if |r| >= n { LsbOfFrom(r[..n]); }
  }

  lemma ModSmall(v: nat, p: nat)
    requires v < p
    ensures v % p == v
  {
  }

  lemma {:induction false} LsbOfFrom(s: seq<bool>)
    ensures FromLsb(s) < Pow(2, |s|) && Lsb(FromLsb(s), |s|) == s
  {
    if s == [] {
    } else {
      LsbOfFrom(s[1..]);
      assert FromLsb(s) / 2 == FromLsb(s[1..]);
      assert s == [s[0]] + s[1..];
    }
  }

  /** The parts of a back-reference, one after the other. */
  ghost predicate RefAt(c: Codes, t: Item, r: seq<bool>)
    requires Encodable(c, t) && t.Ref?
  {
    var n1 := c.ll[257 + t.i];
    var n2 := n1 + LenExtra(t.i);
    var n3 := n2 + c.dl[t.j];
    var n4 := n3 + DistExtra(t.j);
    && n4 <= |r|
    && CodeBits(c.ll, 257 + t.i) <= r && FromLsb(r[n1..n2]) == t.xl
    && CodeBits(c.dl, t.j) <= r[n2..] && FromLsb(r[n3..n4]) == t.xd
  }

  lemma RefParts(c: Codes, t: Item, r: seq<bool>)
    requires Encodable(c, t) && t.Ref?
    ensures |ItemBits(c, t)| == c.ll[257 + t.i] + LenExtra(t.i) + c.dl[t.j] + DistExtra(t.j)
    ensures ItemBits(c, t) <= r <==> RefAt(c, t, r)
  {
    hide Pow, Lsb, FromLsb, Msb, Code, LenBase, LenExtra, DistBase, DistExtra;
    var a, b := CodeBits(c.ll, 257 + t.i), Lsb(t.xl, LenExtra(t.i));
    var d, e := CodeBits(c.dl, t.j), Lsb(t.xd, DistExtra(t.j));
    FourParts(a, b, d, e, r);
    if |a| + |b| + |d| + |e| <= |r| {
      NumberAt(t.xl, |b|, r, |a|);
      NumberAt(t.xd, |e|, r, |a| + |b| + |d|);
    }
  }

  lemma FourParts(a: seq<bool>, b: seq<bool>, d: seq<bool>, e: seq<bool>, r: seq<bool>)
    ensures a + (b + (d + e)) <= r
            <==> |a| + |b| + |d| + |e| <= |r| && a <= r && b <= r[|a|..]
                 && d <= r[|a| + |b|..] && e <= r[|a| + |b| + |d|..]
  {
    PrefixSplit(a, b + (d + e), r);
    if |a| + |b| + |d| + |e| <= |r| {
      PrefixSplit(b, d + e, r[|a|..]);
      assert r[|a|..][|b|..] == r[|a| + |b|..];
      PrefixSplit(d, e, r[|a| + |b|..]);
      assert r[|a| + |b|..][|d|..] == r[|a| + |b| + |d|..];
    }
  }

  lemma NumberAt(v: nat, n: nat, r: seq<bool>, k: nat)
    requires v < Pow(2, n) && k + n <= |r|
    ensures Lsb(v, n) <= r[k..] <==> FromLsb(r[k..k + n]) == v
  {
    hide Pow, Lsb, FromLsb;
    NumberAtStart(v, n, r[k..]);
    assert r[k..][..n] == r[k..k + n];
  }

  ghost function FirstSym(t: Item): nat
  {
    match t case Lit(b) => b case Ref(i, _, _, _) => 257 + i
  }

  lemma FirstSymAtStart(c: Codes, t: Item, r: seq<bool>)
    requires Encodable(c, t) && ItemBits(c, t) <= r
    ensures HasCode(c.ll, FirstSym(t)) && CodeBits(c.ll, FirstSym(t)) <= r
  {
    if t.Ref? { RefParts(c, t, r); }
  }

  /** At most one item can start a bit string. */
  lemma ItemUnique(c: Codes, t: Item, u: Item, r: seq<bool>)
    requires UsableCodes(c) && Encodable(c, t) && Encodable(c, u)
    requires ItemBits(c, t) <= r && ItemBits(c, u) <= r
    ensures t == u
  {
    hide Oversubscribed, CodeBits, FromLsb, IsLengths, LenBase, LenExtra, DistBase, DistExtra;
    FirstSymAtStart(c, t, r);
    FirstSymAtStart(c, u, r);
    PrefixFree(c.ll, FirstSym(t), FirstSym(u), r);
    if t.Ref? {
      RefParts(c, t, r);
      RefParts(c, u, r);
      PrefixFree(c.dl, t.j, u.j, r[c.ll[257 + t.i] + LenExtra(t.i)..]);
    }
  }
}
