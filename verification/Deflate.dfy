/** The DEFLATE encoder: greedy LZ77 matching over hash chains, written with the
    fixed Huffman codes. */
module Deflate {
  import opened Arith
  import opened BitSeq
  import opened BitIo
  import opened Huffman
  import opened DeflateFormat
  import opened FixedBlock

  // ---- codes ------------------------------------------------------------------------------------

  /** dyn_rev_bits: the len low bits of code in the opposite order. */
  method RevBits(code: nat, len: nat) returns (r: nat)
    ensures Lsb(r, len) == Msb(code, len)
  {
    hide Pow;
    r := 0;
    var c := code;
    PowerStep(0);
    for k := 0 to len
      invariant Lsb(r, k) == Msb(code, k) && 0 <= c && Pow(2, k) > 0 && c == code / Pow(2, k)
    {
      MsbFront(code, k);
      PowerStep(k + 1);
      DivTwice(code, Pow(2, k), 2);
      ghost var was := r;
      r := r * 2 + c % 2;
      assert r % 2 == c % 2 && r / 2 == was;
      c := c / 2;
    }
  }

  /** dyn_emit_ll: one literal/length symbol. */
  method EmitLl(w: BitWriter, sym: nat) returns (ok: bool)
    requires w.Valid() && sym < 288
    modifies w, w.o
    ensures w.o.Valid() && old(w.o.buf) <= w.o.buf
    ensures ok ==> w.Valid() && w.Written() == old(w.Written()) + CodeBits(FixedLl(), sym)
  {
    hide Lsb, Msb, CodeBits, FixedLl, w.Written, w.Valid;
    var code, len := FixedCode(sym), FixedLength(sym);
    FixedCodeIs(sym);
    var r := RevBits(code, len);
    ok := w.Wbits(r, len);
  }

  lemma LenIndexWorks(length: nat, i: nat)
    requires i < 29 && LENS[i] <= length <= 258 && (i < 28 ==> length < LENS[i + 1])
    ensures length - LENS[i] < FastPow(2, LEXT[i])
  {
  }

  /** dyn_len_index: the length code of a match length. */
  method LenIndex(length: nat) returns (i: nat)
    requires 3 <= length <= 258
    ensures i < 29 && LenBase(i) <= length && length - LenBase(i) < Pow(2, LenExtra(i))
    ensures i < 28 ==> length < LenBase(i + 1)
  {
    i := 28;
    while i > 0 && length < LENS[i]
      invariant 0 <= i <= 28 && (i < 28 ==> length < LENS[i + 1])
    {
      i := i - 1;
    }
    LenIndexWorks(length, i);
    FastPowIsPow(2, LEXT[i]);
  }

  lemma DistIndexLow(dist: nat, j: nat)
    requires j < 10 && DISTS[j] <= dist < DISTS[j + 1]
    ensures dist - DISTS[j] < FastPow(2, DEXT[j])
  {
  }

  lemma DistIndexMid(dist: nat, j: nat)
    requires 10 <= j < 20 && DISTS[j] <= dist < DISTS[j + 1]
    ensures dist - DISTS[j] < FastPow(2, DEXT[j])
  {
  }

  lemma DistIndexHigh(dist: nat, j: nat)
    requires 20 <= j < 30 && DISTS[j] <= dist <= 32768 && (j < 29 ==> dist < DISTS[j + 1])
    ensures dist - DISTS[j] < FastPow(2, DEXT[j])
  {
  }

  /** dyn_dist_index: the distance code of a distance. */
  method DistIndex(dist: nat) returns (j: nat)
    requires 1 <= dist <= 32768
    ensures j < 30 && DistBase(j) <= dist && dist - DistBase(j) < Pow(2, DistExtra(j))
    ensures j < 29 ==> dist < DistBase(j + 1)
  {
    j := 29;
    while j > 0 && dist < DISTS[j]
      invariant 0 <= j <= 29 && (j < 29 ==> dist < DISTS[j + 1])
    {
      j := j - 1;
    }
    if j < 10 { DistIndexLow(dist, j); } else if j < 20 { DistIndexMid(dist, j); } else { DistIndexHigh(dist, j); }
    FastPowIsPow(2, DEXT[j]);
  }

  /** The last length code and the last distance code whose base is small enough. */
  ghost predicate UsesLast(t: Item)
    requires t.Ref? && IsItem(t)
  {
    (t.i < 28 ==> RefLength(t) < LenBase(t.i + 1)) && (t.j < 29 ==> RefDist(t) < DistBase(t.j + 1))
  }

  lemma LenStep(i: nat)
    requires i < 28
    ensures LenBase(i) < LenBase(i + 1)
  {
  }

  lemma DistStep(j: nat)
    requires j < 29
    ensures DistBase(j) < DistBase(j + 1)
  {
  }

  lemma {:induction false} LenRises(a: nat, b: nat)
    requires a <= b < 29
    ensures LenBase(a) <= LenBase(b)
    decreases b - a
  {
    hide LenBase;
    if a == b {
    } else {
      LenStep(a);
      LenRises(a + 1, b);
    }
  }

  lemma {:induction false} DistRises(a: nat, b: nat)
    requires a <= b < 30
    ensures DistBase(a) <= DistBase(b)
    decreases b - a
  {
    hide DistBase;
    if a == b {
    } else {
      DistStep(a);
      DistRises(a + 1, b);
    }
  }

  /** Length and distance determine the codes and their extra bits. */
  lemma CodesUnique(t: Item, u: Item)
    requires t.Ref? && IsItem(t) && UsesLast(t) && u.Ref? && IsItem(u) && UsesLast(u)
    requires RefLength(t) == RefLength(u) && RefDist(t) == RefDist(u)
    ensures t == u
  {
    hide LenBase, DistBase;
    if t.i < u.i { LenRises(t.i + 1, u.i); }
    if u.i < t.i { LenRises(u.i + 1, t.i); }
    if t.j < u.j { DistRises(t.j + 1, u.j); }
    if u.j < t.j { DistRises(u.j + 1, t.j); }
  }

  /** dyn_emit_match: a back-reference of the given length and distance. */
  method EmitMatch(w: BitWriter, length: nat, dist: nat) returns (ok: bool, ghost t: Item)
    requires w.Valid() && 3 <= length <= 258 && 1 <= dist <= 32768
    modifies w, w.o
    ensures w.o.Valid() && old(w.o.buf) <= w.o.buf
    ensures t.Ref? && Encodable(FixedCodes(), t) && RefLength(t) == length && RefDist(t) == dist && UsesLast(t)
    ensures ok ==> w.Valid() && w.Written() == old(w.Written()) + ItemBits(FixedCodes(), t)
  {
    hide Lsb, Msb, CodeBits, FixedLl, FixedDl, Pow, LenBase, LenExtra, DistBase, DistExtra, w.Written, w.Valid;
    var i := LenIndex(length);
    var j := DistIndex(dist);
    t := Ref(i, length - LenBase(i), j, dist - DistBase(j));
    FixedCodeIs(257 + i);
    FixedDistIs(j);
    ghost var w0 := w.Written();
    ok := EmitLl(w, 257 + i);
    if !ok {
      return;
    }
    ghost var w1 := w.Written();
    if LenExtra(i) != 0 {
      ok := w.Wbits(length - LenBase(i), LenExtra(i));
      if !ok {
        return;
      }
    } else {
      EmptyBits(length - LenBase(i));
      assert w.Written() == w1 + Lsb(length - LenBase(i), LenExtra(i));
    }
    ghost var w2 := w.Written();
    var r := RevBits(j, 5);
    ok := w.Wbits(r, 5);
    if !ok {
      return;
    }
    ghost var w3 := w.Written();
    if DistExtra(j) != 0 {
      ok := w.Wbits(dist - DistBase(j), DistExtra(j));
      if !ok {
        return;
      }
    } else {
      EmptyBits(dist - DistBase(j));
      assert w.Written() == w3 + Lsb(dist - DistBase(j), DistExtra(j));
    }
    Regroup(w0, CodeBits(FixedLl(), 257 + i), Lsb(length - LenBase(i), LenExtra(i)), CodeBits(FixedDl(), j),
            Lsb(dist - DistBase(j), DistExtra(j)));
  }

  lemma Regroup(w: seq<bool>, a: seq<bool>, b: seq<bool>, d: seq<bool>, e: seq<bool>)
    ensures (((w + a) + b) + d) + e == w + (a + (b + (d + e)))
  {
  }

  // ---- matching -----------------------------------------------------------------------------------

  const HASH_SIZE: nat := 32768
  const WSIZE: nat := 32768
  const MAX_CHAIN: nat := 256
  const INT32_MAX: nat := 0x7fff_ffff

  /** dyn_hash3 */
  function Hash3(a: Byte, b: Byte, c: Byte): (h: nat)
    ensures h < HASH_SIZE
  {
    (((a as bv32 << 10) ^ (b as bv32 << 5) ^ (c as bv32)) as int) % HASH_SIZE
  }

  /** The three bytes at k have the hash h. */
  ghost predicate HashesTo(src: seq<Byte>, k: nat, h: nat)
  {
    k + 3 <= |src| && Hash3(src[k], src[k + 1], src[k + 2]) == h
  }

  /** The last position before i with the hash h, or -1. */
  ghost function LastBefore(src: seq<Byte>, i: nat, h: nat): (j: int)
    ensures -1 <= j < i && (j >= 0 ==> HashesTo(src, j, h))
    ensures forall k: nat :: j < k < i ==> !HashesTo(src, k, h)
  {
    if i == 0 then -1 else if HashesTo(src, i - 1, h) then i - 1 else LastBefore(src, i - 1, h)
  }

  /** How many positions from a up to b have the hash h. */
  ghost function SameHashes(src: seq<Byte>, a: nat, b: nat, h: nat): nat
    decreases b - a
  {
    if a >= b then 0 else SameHashes(src, a + 1, b, h) + if HashesTo(src, a, h) then 1 else 0
  }

  /** For each hash the chains lead to the last position with it, and from each
      position to the one before it with the same hash. */
  ghost predicate ChainsOk(src: seq<Byte>, head: seq<int>, prev: seq<int>, i: nat)
  {
    && |head| == HASH_SIZE && |prev| == |src|
    && (forall h: nat :: h < HASH_SIZE ==> head[h] == LastBefore(src, i, h))
    && (forall k: nat :: k < i && k + 3 <= |src| ==> prev[k] == LastBefore(src, k, HashAt(src, k)))
  }

  ghost function HashAt(src: seq<Byte>, k: nat): (h: nat)
    requires k + 3 <= |src|
    ensures h < HASH_SIZE
  {
    Hash3(src[k], src[k + 1], src[k + 2])
  }

  lemma {:induction false} SameHashesFall(src: seq<Byte>, a: nat, m: nat, b: nat, h: nat)
    requires a <= m
    ensures SameHashes(src, a, b, h) >= SameHashes(src, m, b, h)
    decreases m - a
  {
    if a == m {
    } else {
      SameHashesFall(src, a + 1, m, b, h);
    }
  }

  lemma {:induction false} NoneBetween(src: seq<Byte>, a: nat, m: nat, b: nat, h: nat)
    requires a <= m <= b && forall k: nat :: a <= k < m ==> !HashesTo(src, k, h)
    ensures SameHashes(src, a, b, h) == SameHashes(src, m, b, h)
    decreases m - a
  {
    if a == m {
    } else {
      NoneBetween(src, a + 1, m, b, h);
    }
  }

  /** The bytes at i are those dist before, for n bytes. */
  ghost predicate Matches(src: seq<Byte>, i: nat, dist: nat, n: nat)
  {
    && 1 <= dist <= i && i + n <= |src|
    && forall p :: i <= p < i + n ==> src[p] == src[p - dist]
  }

  /** The n bytes at i are those at j. */
  ghost predicate Agrees(src: seq<Byte>, i: nat, j: nat, n: nat)
  {
    j < i && Matches(src, i, i - j, n)
  }

  /** How far the bytes at i agree with those at j. */
  method MatchLength(src: seq<Byte>, i: nat, j: nat, maxLen: nat) returns (ml: nat)
    requires j < i && i + maxLen <= |src|
    ensures ml <= maxLen && Matches(src, i, i - j, ml)
    ensures ml < maxLen ==> src[i + ml] != src[j + ml]
  {
    ml := 0;
    while ml < maxLen && src[i + ml] == src[j + ml]
      invariant ml <= maxLen && forall p :: i <= p < i + ml ==> src[p] == src[p - (i - j)]
    {
      ml := ml + 1;
    }
  }

  /** The positions a match for i may start at: in the window, with the hash of i,
      and less than MAX_CHAIN such positions nearer. */
  ghost predicate Candidate(src: seq<Byte>, i: nat, k: nat)
  {
    && k < i && i + 3 <= |src| && i - k <= WSIZE && HashesTo(src, k, HashAt(src, i))
    && SameHashes(src, k + 1, i, HashAt(src, i)) < MAX_CHAIN
  }

  /** No candidate from lo on has a match that is longer, or as long and nearer. */
  ghost predicate BestFrom(src: seq<Byte>, i: nat, lo: nat, len: nat, dist: nat)
  {
    forall k: nat, n: nat :: lo <= k && Candidate(src, i, k) && 0 < n <= 258 && Agrees(src, i, k, n) ==>
                               n < len || (n == len && dist <= i - k)
  }

  /** A match at a candidate. */
  ghost predicate Found(src: seq<Byte>, i: nat, len: nat, dist: nat)
  {
    len <= 258 && dist <= i && Candidate(src, i, i - dist) && Matches(src, i, dist, len)
  }

  /** The longest match for i, the nearest of those; length 0 for none. */
  ghost predicate IsBest(src: seq<Byte>, i: nat, len: nat, dist: nat)
  {
    BestFrom(src, i, 0, len, dist) && (len > 0 ==> Found(src, i, len, dist))
  }

  /** The match at j has at most m bytes. */
  ghost predicate AtMost(src: seq<Byte>, i: nat, j: nat, m: nat)
    requires j < i
  {
    forall n: nat :: n <= 258 && Agrees(src, i, j, n) ==> n <= m
  }

  lemma Differs(src: seq<Byte>, i: nat, j: nat, m: nat)
    requires j < i && i + m <= |src| && (m < Min(|src| - i, 258) ==> src[i + m] != src[j + m])
    requires m <= Min(|src| - i, 258)
    ensures AtMost(src, i, j, m)
  {
  }

  /** The match at j, against the best of those nearer. */
  lemma Visit(src: seq<Byte>, i: nat, j: nat, len: nat, dist: nat, m: nat)
    requires j < i && BestFrom(src, i, j + 1, len, dist) && AtMost(src, i, j, m) && (len > 0 ==> dist < i - j)
    ensures m > len ==> BestFrom(src, i, j, m, i - j)
    ensures m <= len ==> BestFrom(src, i, j, len, dist)
  {
    hide Candidate, Agrees;
  }

  /** On to the next position in the chain. */
  lemma Descend(src: seq<Byte>, i: nat, j: nat, next: int, len: nat, dist: nat)
    requires j < i && i + 3 <= |src| && HashesTo(src, j, HashAt(src, i)) && next == LastBefore(src, j, HashAt(src, i))
    requires BestFrom(src, i, j, len, dist)
    ensures BestFrom(src, i, next + 1, len, dist)
    ensures SameHashes(src, next + 1, i, HashAt(src, i)) == SameHashes(src, j + 1, i, HashAt(src, i)) + 1
  {
    hide Agrees, Hash3;
    NoneBetween(src, next + 1, j, i, HashAt(src, i));
  }

  /** Nothing further down is a candidate. */
  lemma ChainEnds(src: seq<Byte>, i: nat, j: int, len: nat, dist: nat)
    requires -1 <= j < i && i + 3 <= |src| && BestFrom(src, i, j + 1, len, dist)
    requires j < 0 || i - j > WSIZE || SameHashes(src, j + 1, i, HashAt(src, i)) >= MAX_CHAIN
    ensures BestFrom(src, i, 0, len, dist)
  {
    hide SameHashes, Hash3, Agrees;
    forall k: nat | k <= j
      ensures !Candidate(src, i, k)
    {
      SameHashesFall(src, k + 1, j + 1, i, HashAt(src, i));
    }
  }

  /** No match is longer than the rest of the input. */
  lemma Longest(src: seq<Byte>, i: nat, j: nat, len: nat)
    requires j < i && len >= Min(|src| - i, 258) && BestFrom(src, i, j, len, i - j)
    ensures BestFrom(src, i, 0, len, i - j)
  {
  }

  lemma FirstCandidate(src: seq<Byte>, i: nat)
    requires i + 3 <= |src|
    ensures var j := LastBefore(src, i, HashAt(src, i));
            BestFrom(src, i, j + 1, 0, 0) && SameHashes(src, j + 1, i, HashAt(src, i)) == 0
  {
    NoneBetween(src, LastBefore(src, i, HashAt(src, i)) + 1, i, i, HashAt(src, i));
  }

  /** The walk down the chain of positions with the same hash. */
  method FindMatch(src: seq<Byte>, i: nat, head: array<int>, prev: array<int>) returns (bestLen: nat, bestDist: nat)
    requires i + 3 <= |src| && ChainsOk(src, head[..], prev[..], i)
    ensures IsBest(src, i, bestLen, bestDist)
  {
    hide Hash3, BestFrom, SameHashes, AtMost, Matches;
    bestLen, bestDist := 0, 0;
    ghost var h := HashAt(src, i);
    var j := head[Hash3(src[i], src[i + 1], src[i + 2])];
    assert j == head[..][h] == LastBefore(src, i, h);
    var chain := MAX_CHAIN;
    var maxLen := Min(|src| - i, 258);
    FirstCandidate(src, i);
    while j >= 0 && chain > 0
      invariant -1 <= j < i && (j >= 0 ==> HashesTo(src, j, h)) && 0 <= chain
      invariant SameHashes(src, j + 1, i, h) == MAX_CHAIN - chain
      invariant bestLen <= maxLen && BestFrom(src, i, j + 1, bestLen, bestDist)
      invariant bestLen > 0 ==> Found(src, i, bestLen, bestDist) && bestDist < i - j
      decreases chain
    {
      chain := chain - 1;
      var dist := i - j;
      if dist > WSIZE {
        ChainEnds(src, i, j, bestLen, bestDist);
        return;
      }
      if bestLen == 0 || bestLen >= maxLen || src[i + bestLen] == src[j + bestLen] {
        var ml := MatchLength(src, i, j, maxLen);
        Differs(src, i, j, ml);
        Visit(src, i, j, bestLen, bestDist, ml);
        if ml > bestLen {
          bestLen, bestDist := ml, dist;
          if ml >= maxLen {
            Longest(src, i, j, bestLen);
            return;
          }
        }
      } else {
        Differs(src, i, j, bestLen);
        Visit(src, i, j, bestLen, bestDist, bestLen);
      }
      assert prev[j] == prev[..][j] == LastBefore(src, j, h);
      Descend(src, i, j, prev[j], bestLen, bestDist);
      j := prev[j];
    }
    ChainEnds(src, i, j, bestLen, bestDist);
  }

  /** Record the position k in its chain. */
  method Insert(src: seq<Byte>, k: nat, head: array<int>, prev: array<int>)
    requires k < |src| && head != prev && ChainsOk(src, head[..], prev[..], k)
    modifies head, prev
    ensures ChainsOk(src, head[..], prev[..], k + 1)
  {
    hide Hash3;
    if k + 3 <= |src| {
      var h := Hash3(src[k], src[k + 1], src[k + 2]);
      assert head[h] == head[..][h];
      prev[k] := head[h];
      head[h] := k;
    }
  }

  /** Record the positions that a match covers. */
  method InsertRange(src: seq<Byte>, from: nat, to: nat, head: array<int>, prev: array<int>)
    requires from <= to <= |src| && head != prev && ChainsOk(src, head[..], prev[..], from)
    modifies head, prev
    ensures ChainsOk(src, head[..], prev[..], to)
  {
    hide ChainsOk;
    for k := from to to
      invariant ChainsOk(src, head[..], prev[..], k)
    {
      Insert(src, k, head, prev);
    }
  }

  /** What is written for the bytes from i on: the best match when it has three bytes
      at least, and else the byte. */
  ghost predicate IsGreedy(src: seq<Byte>, i: nat, t: Item)
  {
    match t
    case Lit(b) => i < |src| && b == src[i] && exists len: nat, dist: nat :: len < 3 && IsBest(src, i, len, dist)
    case Ref(_, _, _, _) => IsItem(t) && UsesLast(t) && RefLength(t) >= 3 && IsBest(src, i, RefLength(t), RefDist(t))
  }

  ghost function ItemSize(t: Item): nat
  {
    if t.Ref? && IsItem(t) then RefLength(t) else 1
  }

  /** The items are what is written for the bytes from i to end. */
  ghost predicate GreedyTo(src: seq<Byte>, i: nat, items: seq<Item>, end: nat)
    decreases |items|
  {
    if items == [] then i == end
    else IsGreedy(src, i, items[0]) && GreedyTo(src, i + ItemSize(items[0]), items[1..], end)
  }

  lemma {:induction false} GreedySnoc(src: seq<Byte>, i: nat, items: seq<Item>, end: nat, t: Item)
    requires GreedyTo(src, i, items, end) && IsGreedy(src, end, t)
    ensures GreedyTo(src, i, items + [t], end + ItemSize(t))
    decreases |items|
  {
    hide IsGreedy, ItemSize;
    if items == [] {
      assert items + [t] == [t] && [t][1..] == [];
    } else {
      assert (items + [t])[1..] == items[1..] + [t];
      GreedySnoc(src, i + ItemSize(items[0]), items[1..], end, t);
    }
  }

  lemma BestUnique(src: seq<Byte>, i: nat, len: nat, dist: nat, len': nat, dist': nat)
    requires IsBest(src, i, len, dist) && IsBest(src, i, len', dist')
    ensures len == len' && (len > 0 ==> dist == dist')
  {
    hide Candidate;
    if len > 0 { assert Agrees(src, i, i - dist, len); }
    if len' > 0 { assert Agrees(src, i, i - dist', len'); }
  }

  lemma GreedyOne(src: seq<Byte>, i: nat, t: Item, u: Item)
    requires IsGreedy(src, i, t) && IsGreedy(src, i, u)
    ensures t == u
  {
    hide IsBest;
    var a, d := BestOf(src, i, t);
    var a', d' := BestOf(src, i, u);
    BestUnique(src, i, a, d, a', d');
    if t.Ref? { CodesUnique(t, u); }
  }

  lemma BestOf(src: seq<Byte>, i: nat, t: Item) returns (len: nat, dist: nat)
    requires IsGreedy(src, i, t)
    ensures IsBest(src, i, len, dist) && (t.Ref? <==> len >= 3)
    ensures t.Ref? ==> len == RefLength(t) && dist == RefDist(t)
  {
    hide IsBest;
    if t.Ref? {
      len, dist := RefLength(t), RefDist(t);
    } else {
      len, dist :| len < 3 && IsBest(src, i, len, dist);
    }
  }

  lemma GreedyInside(src: seq<Byte>, i: nat, t: Item)
    requires IsGreedy(src, i, t)
    ensures i < |src|
  {
  }

  /** What is written is determined by the input. */
  lemma {:induction false} GreedyUnique(src: seq<Byte>, i: nat, a: seq<Item>, b: seq<Item>)
    requires GreedyTo(src, i, a, |src|) && GreedyTo(src, i, b, |src|)
    ensures a == b
    decreases |a|
  {
    hide IsGreedy, ItemSize;
    if a == [] || b == [] {
      if a != [] { GreedyInside(src, i, a[0]); }
      if b != [] { GreedyInside(src, i, b[0]); }
    } else {
      GreedyOne(src, i, a[0], b[0]);
      GreedyUnique(src, i + ItemSize(a[0]), a[1..], b[1..]);
      assert a == [a[0]] + a[1..] && b == [b[0]] + b[1..];
    }
  }

  // ---- a match extends the output ---------------------------------------------------------------------

  /** Copying a match reproduces the source. */
  lemma {:induction false} CopyMatches(src: seq<Byte>, i: nat, dist: nat, n: nat)
    requires Matches(src, i, dist, n)
    ensures Copy(src[..i], dist, n) == src[..i + n]
    decreases n
  {
    if n == 0 {
    } else {
      var out := src[..i];
      assert src[i] == src[i - dist];
      assert out + [out[|out| - dist]] == src[..i + 1];
      CopyMatches(src, i + 1, dist, n - 1);
    }
  }

  /** The items written so far stand for the first i bytes. */
  ghost predicate Encoded(items: seq<Item>, src: seq<Byte>, i: nat, start: seq<bool>, written: seq<bool>)
  {
    && i <= |src| && AllEncodable(FixedCodes(), items) && AllRefer([], items)
    && GreedyTo(src, 0, items, i) && Expand([], items) == src[..i] && written == start + ItemsBits(FixedCodes(), items)
  }

  lemma NothingEncoded(src: seq<Byte>, start: seq<bool>)
    ensures Encoded([], src, 0, start, start)
  {
  }

  lemma EncodedMore(items: seq<Item>, t: Item, src: seq<Byte>, i: nat, next: nat, start: seq<bool>, written: seq<bool>)
    requires Encoded(items, src, i, start, written) && Writes(src, i, next, t)
    ensures Encodable(FixedCodes(), t) && i < next <= |src|
    ensures Encoded(items + [t], src, next, start, written + ItemBits(FixedCodes(), t))
  {
    hide Encodable, ItemBits, ItemsBits, Refers, Apply, Expand, AllRefer, FixedCodes, IsGreedy, GreedyTo, ItemSize;
    GreedySnoc(src, 0, items, i, t);
    ItemsSnoc(FixedCodes(), items, t);
    ExpandSnoc([], items, t);
    assert (start + ItemsBits(FixedCodes(), items)) + ItemBits(FixedCodes(), t)
        == start + (ItemsBits(FixedCodes(), items) + ItemBits(FixedCodes(), t));
  }

  lemma MatchApplies(src: seq<Byte>, i: nat, t: Item)
    requires t.Ref? && IsItem(t) && Matches(src, i, RefDist(t), RefLength(t))
    ensures Refers(src[..i], t) && Apply(src[..i], t) == src[..i + RefLength(t)]
  {
    CopyMatches(src, i, RefDist(t), RefLength(t));
  }

  lemma LiteralApplies(src: seq<Byte>, i: nat)
    requires i < |src|
    ensures Encodable(FixedCodes(), Lit(src[i])) && ItemBits(FixedCodes(), Lit(src[i])) == CodeBits(FixedLl(), src[i])
    ensures Refers(src[..i], Lit(src[i])) && Apply(src[..i], Lit(src[i])) == src[..i + 1]
  {
  }

  /** The item t stands for the bytes from i to next, and is the one to write. */
  ghost predicate Writes(src: seq<Byte>, i: nat, next: nat, t: Item)
  {
    && i < next <= |src| && Encodable(FixedCodes(), t) && Refers(src[..i], t) && Apply(src[..i], t) == src[..next]
    && IsGreedy(src, i, t) && next == i + ItemSize(t)
  }

  method EncodeMatch(w: BitWriter, src: seq<Byte>, i: nat, len: nat, dist: nat) returns (ok: bool, ghost t: Item)
    requires w.Valid() && len >= 3 && IsBest(src, i, len, dist)
    modifies w, w.o
    ensures w.o.Valid() && Writes(src, i, i + len, t)
    ensures ok ==> w.Valid() && w.Written() == old(w.Written()) + ItemBits(FixedCodes(), t)
  {
    hide Apply, Refers, ItemBits, Encodable, Matches, FixedCodes, IsBest, IsGreedy, w.Written, w.Valid;
    BestInside(src, i, len, dist);
    ok, t := EmitMatch(w, len, dist);
    EncodableItem(t);
    RefIsGreedy(src, i, t);
    MatchApplies(src, i, t);
  }

  method EncodeLiteral(w: BitWriter, src: seq<Byte>, i: nat, ghost len: nat, ghost dist: nat)
    returns (ok: bool, ghost t: Item)
    requires w.Valid() && i < |src| && len < 3 && IsBest(src, i, len, dist)
    modifies w, w.o
    ensures w.o.Valid() && Writes(src, i, i + 1, t)
    ensures ok ==> w.Valid() && w.Written() == old(w.Written()) + ItemBits(FixedCodes(), t)
  {
    hide Apply, Refers, ItemBits, Encodable, FixedCodes, IsBest, IsGreedy, w.Written, w.Valid;
    t := Lit(src[i]);
    LitIsGreedy(src, i, len, dist);
    LiteralApplies(src, i);
    ok := EmitLl(w, src[i]);
  }

  /** One round of the encoder: a match or a literal. */
  method EncodeStep(w: BitWriter, src: seq<Byte>, i: nat, head: array<int>, prev: array<int>)
    returns (ok: bool, next: nat, ghost t: Item)
    requires w.Valid() && i < |src| && head != prev && ChainsOk(src, head[..], prev[..], i)
    modifies w, w.o, head, prev
    ensures w.o.Valid() && ChainsOk(src, head[..], prev[..], next) && Writes(src, i, next, t)
    ensures ok ==> w.Valid() && w.Written() == old(w.Written()) + ItemBits(FixedCodes(), t)
  {
    hide ItemBits, ChainsOk, FixedCodes, IsBest, Writes, w.Written, w.Valid;
    var bestLen, bestDist := 0, 0;
    if i + 3 <= |src| {
      bestLen, bestDist := FindMatch(src, i, head, prev);
    } else {
      NoCandidate(src, i);
    }
    Insert(src, i, head, prev);
    if bestLen >= 3 {
      next := i + bestLen;
      BestInside(src, i, bestLen, bestDist);
      ok, t := EncodeMatch(w, src, i, bestLen, bestDist);
      InsertRange(src, i + 1, next, head, prev);
    } else {
      next := i + 1;
      ok, t := EncodeLiteral(w, src, i, bestLen, bestDist);
    }
  }

  lemma BestInside(src: seq<Byte>, i: nat, len: nat, dist: nat)
    requires IsBest(src, i, len, dist) && len > 0
    ensures 1 <= dist <= i && dist <= WSIZE && len <= 258 && i + len <= |src| && Matches(src, i, dist, len)
  {
  }

  /** Less than three bytes are left. */
  lemma NoCandidate(src: seq<Byte>, i: nat)
    requires i + 3 > |src|
    ensures IsBest(src, i, 0, 0)
  {
  }

  lemma RefIsGreedy(src: seq<Byte>, i: nat, t: Item)
    requires t.Ref? && IsItem(t) && UsesLast(t) && RefLength(t) >= 3 && IsBest(src, i, RefLength(t), RefDist(t))
    ensures IsGreedy(src, i, t) && ItemSize(t) == RefLength(t)
  {
  }

  lemma LitIsGreedy(src: seq<Byte>, i: nat, len: nat, dist: nat)
    requires i < |src| && len < 3 && IsBest(src, i, len, dist)
    ensures IsGreedy(src, i, Lit(src[i])) && ItemSize(Lit(src[i])) == 1
  {
  }

  lemma EncodableItem(t: Item)
    requires Encodable(FixedCodes(), t)
    ensures IsItem(t)
  {
  }

  /** dyn_deflate_fixed: a single final block with the fixed codes. tables says
      whether the chain tables could be allocated. */
  method DeflateFixed(src: seq<Byte>, o: OutBuf, tables: bool) returns (ok: bool, ghost items: seq<Item>)
    requires o.Valid() && o.buf == []
    modifies o
    ensures o.Valid()
    ensures ok ==> exists k: nat :: k < 8 && FixedStream(items, src, BytesBits(o.buf), k)
  {
    hide Encoded, FixedStream, BytesBits, ItemBits, Writes, ChainsOk, FixedCodes, Lsb, CodeBits;
    items := [];
    var w := new BitWriter(o);
    NoBytes(o.buf);
    ok := w.Wbits(3, 3);
    if !ok {
      return;
    }
    ghost var start := w.Written();
    assert [] + Lsb(3, 3) == Lsb(3, 3);
    NothingEncoded(src, start);
    if |src| != 0 {
      if |src| > INT32_MAX || !tables {
        return false, items;
      }
      var head, prev := new int[HASH_SIZE](_ => -1), new int[|src|];
      EmptyChains(src, head[..], prev[..]);
      var i := 0;
      while i < |src|
        invariant i <= |src| && w.Valid() && w.o == o && Encoded(items, src, i, start, w.Written())
        invariant ChainsOk(src, head[..], prev[..], i) && fresh(w) && fresh(head) && fresh(prev) && head != prev
      {
        ghost var t;
        ghost var before := w.Written();
        var next;
        ok, next, t := EncodeStep(w, src, i, head, prev);
        if !ok {
          return false, items;
        }
        EncodedMore(items, t, src, i, next, start, before);
        items := items + [t];
        i := next;
      }
    }
    ghost var body := w.Written();
    FixedCodeIs(256);
    ok := EmitLl(w, 256);
    if !ok {
      return;
    }
    ok := w.Flush();
    if ok {
      ghost var k: nat :| k < 8 && BytesBits(o.buf) == (body + CodeBits(FixedLl(), 256)) + Lsb(0, k);
      FinishStream(items, src, start, body, BytesBits(o.buf), k);
    }
  }

  lemma EmptyChains(src: seq<Byte>, head: seq<int>, prev: seq<int>)
    requires |head| == HASH_SIZE && |prev| == |src| && forall h :: 0 <= h < HASH_SIZE ==> head[h] == -1
    ensures ChainsOk(src, head, prev, 0)
  {
  }

  /** The bits of a final fixed block with these items, padded to a byte. */
  ghost predicate FixedStream(items: seq<Item>, src: seq<Byte>, bits: seq<bool>, k: nat)
  {
    && AllEncodable(FixedCodes(), items) && AllRefer([], items) && Expand([], items) == src
    && GreedyTo(src, 0, items, |src|) && HasCode(FixedLl(), END_OF_BLOCK)
    && bits == ((Lsb(3, 3) + ItemsBits(FixedCodes(), items)) + EndBits(FixedCodes())) + Lsb(0, k)
  }

  lemma FinishStream(items: seq<Item>, src: seq<Byte>, start: seq<bool>, body: seq<bool>, bits: seq<bool>, k: nat)
    requires start == Lsb(3, 3) && Encoded(items, src, |src|, start, body) && HasCode(FixedLl(), END_OF_BLOCK)
    requires bits == (body + CodeBits(FixedLl(), 256)) + Lsb(0, k)
    ensures FixedStream(items, src, bits, k)
  {
  }
}
