/** Canonical Huffman codes (section 3.2.2 of RFC 1951): the tables built from the
    code lengths, and the decoder that walks them. */
module Huffman {
  import opened Arith
  import opened BitSeq
  import opened BitIo

  const MAXBITS: nat := 15

  predicate IsLengths(lengths: seq<nat>)
  {
    forall i :: 0 <= i < |lengths| ==> lengths[i] <= MAXBITS
  }

  /** How many symbols have codes of l bits. */
  ghost function Count(lengths: seq<nat>, l: nat): (n: nat)
    ensures n <= |lengths|
  {
    if lengths == [] then 0
    else Count(lengths[..|lengths| - 1], l) + if lengths[|lengths| - 1] == l then 1 else 0
  }

  /** How many symbols have shorter codes. */
  ghost function Offset(lengths: seq<nat>, l: nat): nat
  {
    if l <= 1 then 0 else Offset(lengths, l - 1) + Count(lengths, l - 1)
  }

  /** The first code of l bits. */
  ghost function FirstCode(lengths: seq<nat>, l: nat): nat
  {
    if l <= 1 then 0 else 2 * (FirstCode(lengths, l - 1) + Count(lengths, l - 1))
  }

  /** The first number above the codes of l bits. */
  ghost function EndCode(lengths: seq<nat>, l: nat): nat
  {
    FirstCode(lengths, l) + Count(lengths, l)
  }

  ghost predicate Oversubscribed(lengths: seq<nat>)
  {
    exists l :: 1 <= l <= MAXBITS && EndCode(lengths, l) > Pow(2, l)
  }

  ghost predicate HasCode(lengths: seq<nat>, sym: int)
  {
    0 <= sym < |lengths| && lengths[sym] > 0
  }

  /** The place of a symbol among those of its length. */
  ghost function Rank(lengths: seq<nat>, sym: nat): nat
    requires sym < |lengths|
  {
    Count(lengths[..sym], lengths[sym])
  }

  ghost function Code(lengths: seq<nat>, sym: nat): nat
    requires sym < |lengths|
  {
    FirstCode(lengths, lengths[sym]) + Rank(lengths, sym)
  }

  ghost function CodeBits(lengths: seq<nat>, sym: nat): seq<bool>
    requires sym < |lengths|
  {
    Msb(Code(lengths, sym), lengths[sym])
  }

  // ---- counting -------------------------------------------------------------------------

  lemma CountSnoc(lengths: seq<nat>, i: nat, l: nat)
    requires i < |lengths|
    ensures Count(lengths[..i + 1], l) == Count(lengths[..i], l) + if lengths[i] == l then 1 else 0
  {
    assert lengths[..i + 1][..i] == lengths[..i];
  }

  lemma {:induction false} CountMono(lengths: seq<nat>, i: nat, j: nat, l: nat)
    requires i <= j <= |lengths|
    ensures Count(lengths[..i], l) <= Count(lengths[..j], l)
    decreases j
  {
    if i >= j {
    } else {
      CountMono(lengths, i, j - 1, l);
      CountSnoc(lengths, j - 1, l);
    }
  }

  lemma RankBelow(lengths: seq<nat>, sym: nat)
    requires sym < |lengths|
    ensures Rank(lengths, sym) < Count(lengths, lengths[sym])
  {
    CountSnoc(lengths, sym, lengths[sym]);
    CountMono(lengths, sym + 1, |lengths|, lengths[sym]);
    assert lengths[..|lengths|] == lengths;
  }

  /** Symbols of the same length and rank are the same. */
  lemma RankInjective(lengths: seq<nat>, a: nat, b: nat)
    requires a < |lengths| && b < |lengths| && lengths[a] == lengths[b] && Rank(lengths, a) == Rank(lengths, b)
    ensures a == b
  {
    if a < b {
      CountSnoc(lengths, a, lengths[a]);
      CountMono(lengths, a + 1, b, lengths[a]);
    } else if b < a {
      CountSnoc(lengths, b, lengths[b]);
      CountMono(lengths, b + 1, a, lengths[b]);
    }
  }

  lemma {:induction false} OffsetMono(lengths: seq<nat>, l: nat, k: nat)
    requires 1 <= l < k
    ensures Offset(lengths, l) + Count(lengths, l) <= Offset(lengths, k)
  {
    if l >= k - 1 {
    } else {
      OffsetMono(lengths, l, k - 1);
    }
  }

  lemma {:induction false} OffsetSnoc(s: seq<nat>, x: nat, l: nat)
    ensures Offset(s + [x], l) == Offset(s, l) + if 1 <= x < l then 1 else 0
  {
    if l <= 1 {
    } else {
      OffsetSnoc(s, x, l - 1);
      assert (s + [x])[..|s|] == s;
    }
  }

  /** All the symbols with codes fit the table. */
  lemma {:induction false} OffsetTotal(lengths: seq<nat>, l: nat)
    ensures Offset(lengths, l) + Count(lengths, 0) <= |lengths|
    decreases |lengths|
  {
    if lengths == [] {
      OffsetEmpty(l);
    } else {
      var s, x := lengths[..|lengths| - 1], lengths[|lengths| - 1];
      assert lengths == s + [x];
      OffsetTotal(s, l);
      OffsetSnoc(s, x, l);
    }
  }

  lemma {:induction false} OffsetEmpty(l: nat)
    ensures Offset([], l) == 0
  {
    if l <= 1 {
    } else {
      OffsetEmpty(l - 1);
    }
  }

  lemma SlotInTable(lengths: seq<nat>, l: nat, r: nat)
    requires l >= 1 && r < Count(lengths, l)
    ensures Offset(lengths, l) + r < |lengths|
  {
    OffsetTotal(lengths, l + 1);
  }

  lemma SlotsApart(lengths: seq<nat>, l: nat, r: nat, k: nat, q: nat)
    requires l >= 1 && k >= 1 && r < Count(lengths, l) && q < Count(lengths, k)
    requires Offset(lengths, l) + r == Offset(lengths, k) + q
    ensures l == k && r == q
  {
    if l < k { OffsetMono(lengths, l, k); }
    if k < l { OffsetMono(lengths, k, l); }
  }

  // ---- codes ----------------------------------------------------------------------------------

  /** Longer codes start above all extensions of shorter ones. */
  lemma {:induction false} CodesGrow(lengths: seq<nat>, l: nat, k: nat)
    requires 1 <= l < k
    ensures FirstCode(lengths, k) >= EndCode(lengths, l) * Pow(2, k - l)
  {
    var e := EndCode(lengths, l);
    if k == l + 1 {
      assert Pow(2, 1) == 2;
    } else {
      CodesGrow(lengths, l, k - 1);
      PowerStep(k - l);
      MulAssoc(2, e, Pow(2, k - 1 - l));
      MulAssoc(e, 2, Pow(2, k - 1 - l));
    }
  }

  /** The order of the codes: shorter ones first, and those of a length as their
      symbols. */
  ghost predicate Before(lengths: seq<nat>, a: nat, b: nat)
  {
    && HasCode(lengths, a) && HasCode(lengths, b)
    && (lengths[a] < lengths[b] || (lengths[a] == lengths[b] && a < b))
  }

  lemma {:induction false} NoneCounted(lengths: seq<nat>, i: nat, j: nat, l: nat)
    requires i <= j <= |lengths| && forall k :: i <= k < j ==> lengths[k] != l
    ensures Count(lengths[..j], l) == Count(lengths[..i], l)
    decreases j
  {
    if i >= j {
    } else {
      NoneCounted(lengths, i, j - 1, l);
      CountSnoc(lengths, j - 1, l);
    }
  }

  lemma NoneOfLength(lengths: seq<nat>, l: nat)
    requires forall k :: 0 <= k < |lengths| ==> lengths[k] != l
    ensures Count(lengths, l) == 0
  {
    NoneCounted(lengths, 0, |lengths|, l);
    assert lengths[..|lengths|] == lengths && lengths[..0] == [];
  }

  lemma {:induction false} NoShorter(lengths: seq<nat>, l: nat)
    requires forall k :: 1 <= k < l ==> Count(lengths, k) == 0
    ensures FirstCode(lengths, l) == 0
  {
    if l <= 1 {
    } else {
      NoShorter(lengths, l - 1);
    }
  }

  /** The first symbol in order has the code 0. */
  lemma FirstIsZero(lengths: seq<nat>, a: nat)
    requires HasCode(lengths, a) && forall c: nat :: !Before(lengths, c, a)
    ensures Code(lengths, a) == 0
  {
    forall k | 0 <= k < |lengths|
      ensures !(1 <= lengths[k] < lengths[a]) && (k < a ==> lengths[k] != lengths[a])
    {
      assert !Before(lengths, k, a);
    }
    forall l | 1 <= l < lengths[a]
      ensures Count(lengths, l) == 0
    {
      NoneOfLength(lengths, l);
    }
    NoShorter(lengths, lengths[a]);
    NoneCounted(lengths, 0, a, lengths[a]);
    assert lengths[..0] == [];
  }

  lemma {:induction false} CodesSkip(lengths: seq<nat>, l: nat, k: nat)
    requires 1 <= l < k && forall i :: l < i < k ==> Count(lengths, i) == 0
    ensures FirstCode(lengths, k) == EndCode(lengths, l) * Pow(2, k - l)
  {
    var e := EndCode(lengths, l);
    if k == l + 1 {
      assert Pow(2, 1) == 2;
    } else {
      CodesSkip(lengths, l, k - 1);
      PowerStep(k - l);
      MulAssoc(2, e, Pow(2, k - 1 - l));
      MulAssoc(e, 2, Pow(2, k - 1 - l));
    }
  }

  /** Every symbol in order has the next number after the code of the one before it,
      with zeros up to its own length. */
  lemma CodesFollow(lengths: seq<nat>, a: nat, b: nat)
    requires Before(lengths, a, b) && forall c: nat :: !(Before(lengths, a, c) && Before(lengths, c, b))
    ensures Code(lengths, b) == (Code(lengths, a) + 1) * Pow(2, lengths[b] - lengths[a])
  {
    hide Pow;
    var l, k := lengths[a], lengths[b];
    CountSnoc(lengths, a, l);
    if l == k {
      forall c | a + 1 <= c < b
        ensures lengths[c] != l
      {
        assert !(Before(lengths, a, c) && Before(lengths, c, b));
      }
      NoneCounted(lengths, a + 1, b, l);
      PowerStep(0);
    } else {
      LastOfLength(lengths, a, b);
      forall i | l < i < k
        ensures Count(lengths, i) == 0
      {
        NoneBetween(lengths, a, b, i);
      }
      CodesSkip(lengths, l, k);
    }
  }

  lemma LastOfLength(lengths: seq<nat>, a: nat, b: nat)
    requires Before(lengths, a, b) && forall c: nat :: !(Before(lengths, a, c) && Before(lengths, c, b))
    requires lengths[a] < lengths[b]
    ensures Code(lengths, a) + 1 == EndCode(lengths, lengths[a]) && Rank(lengths, b) == 0
  {
    var l, k, n := lengths[a], lengths[b], |lengths|;
    forall c | 0 <= c < n
      ensures (a + 1 <= c ==> lengths[c] != l) && (c < b ==> lengths[c] != k)
    {
      assert !(Before(lengths, a, c) && Before(lengths, c, b));
    }
    CountSnoc(lengths, a, l);
    NoneCounted(lengths, a + 1, n, l);
    NoneCounted(lengths, 0, b, k);
    assert lengths[..n] == lengths && lengths[..0] == [];
  }

  lemma NoneBetween(lengths: seq<nat>, a: nat, b: nat, i: nat)
    requires Before(lengths, a, b) && forall c: nat :: !(Before(lengths, a, c) && Before(lengths, c, b))
    requires lengths[a] < i < lengths[b]
    ensures Count(lengths, i) == 0
  {
    forall c | 0 <= c < |lengths|
      ensures lengths[c] != i
    {
      assert !(Before(lengths, a, c) && Before(lengths, c, b));
    }
    NoneOfLength(lengths, i);
  }

  lemma CodeRange(lengths: seq<nat>, sym: nat)
    requires IsLengths(lengths) && !Oversubscribed(lengths) && HasCode(lengths, sym)
    ensures FirstCode(lengths, lengths[sym]) <= Code(lengths, sym) < EndCode(lengths, lengths[sym])
            <= Pow(2, lengths[sym])
  {
    RankBelow(lengths, sym);
  }

  lemma {:induction false} FromMsbPrefix(s: seq<bool>, k: nat)
    requires k <= |s|
    ensures Pow(2, |s| - k) > 0 && FromMsb(s[..k]) == FromMsb(s) / Pow(2, |s| - k)
  {
    hide Pow;
    PowerStep(|s| - k);
    if k == |s| {
      assert s[..k] == s;
    } else {
      var t := s[..|s| - 1];
      FromMsbPrefix(t, k);
      assert t[..k] == s[..k];
      DivTwice(FromMsb(s), 2, Pow(2, |t| - k));
      assert FromMsb(s) / 2 == FromMsb(t);
    }
  }

  /** A code read at the start of a bit string is the number it starts with. */
  lemma CodeAtStart(lengths: seq<nat>, sym: nat, bits: seq<bool>)
    requires IsLengths(lengths) && !Oversubscribed(lengths) && HasCode(lengths, sym)
    ensures CodeBits(lengths, sym) <= bits
            <==> |bits| >= lengths[sym] && FromMsb(bits[..lengths[sym]]) == Code(lengths, sym)
  {
    hide Code, Oversubscribed, FromMsb, Msb;
    var l := lengths[sym];
    CodeRange(lengths, sym);
    if CodeBits(lengths, sym) <= bits {
      assert bits[..l] == CodeBits(lengths, sym);
      FromMsbOf(Code(lengths, sym), l);
    }
    if |bits| >= l { MsbOfFrom(bits[..l]); }
  }

  /** No code is a prefix of another: at most one symbol can start a bit string. */
  lemma PrefixFree(lengths: seq<nat>, a: nat, b: nat, bits: seq<bool>)
    requires IsLengths(lengths) && !Oversubscribed(lengths) && HasCode(lengths, a) && HasCode(lengths, b)
    requires CodeBits(lengths, a) <= bits && CodeBits(lengths, b) <= bits
    ensures a == b
  {
    hide Oversubscribed, CodeBits, FromMsb;
    CodeAtStart(lengths, a, bits);
    CodeAtStart(lengths, b, bits);
    if lengths[a] < lengths[b] {
      ShorterDiffers(lengths, a, b, bits);
    } else if lengths[b] < lengths[a] {
      ShorterDiffers(lengths, b, a, bits);
    } else {
      RankInjective(lengths, a, b);
    }
  }

  lemma ShorterDiffers(lengths: seq<nat>, a: nat, b: nat, bits: seq<bool>)
    requires IsLengths(lengths) && !Oversubscribed(lengths) && HasCode(lengths, a) && HasCode(lengths, b)
    requires lengths[a] < lengths[b] <= |bits|
    requires FromMsb(bits[..lengths[b]]) == Code(lengths, b)
    ensures FromMsb(bits[..lengths[a]]) != Code(lengths, a)
  {
    hide Oversubscribed, FromMsb, FirstCode, Rank, Pow;
    var k, l := lengths[a], lengths[b];
    CodeRange(lengths, a);
    CodeRange(lengths, b);
    CodesGrow(lengths, k, l);
    FromMsbPrefix(bits[..l], k);
    assert bits[..l][..k] == bits[..k];
    var p := Pow(2, l - k);
    DivModEq(Code(lengths, b), p);
    QuotientAtLeast(Code(lengths, b), p, EndCode(lengths, k));
  }

  // ---- building the tables ---------------------------------------------------------------------

  /** The table entry for the r-th symbol of length l. */
  ghost predicate EntryOk(symbol: seq<int>, lengths: seq<nat>, l: nat, r: nat)
  {
    var i := Offset(lengths, l) + r;
    && i < |symbol| && HasCode(lengths, symbol[i])
    && lengths[symbol[i]] == l && Rank(lengths, symbol[i]) == r
  }

  ghost predicate IsTable(count: seq<int>, symbol: seq<int>, lengths: seq<nat>)
  {
    && |count| == MAXBITS + 1
    && (forall l :: 0 <= l <= MAXBITS ==> count[l] == Count(lengths, l))
    && (forall l: nat, r: nat :: 1 <= l <= MAXBITS && r < Count(lengths, l) ==> EntryOk(symbol, lengths, l, r))
  }

  /** dyn_huff_build, the first loops: count the lengths. */
  method CountLengths(count: array<int>, lengths: seq<nat>)
    requires count.Length == MAXBITS + 1 && IsLengths(lengths)
    modifies count
    ensures forall l :: 0 <= l <= MAXBITS ==> count[l] == Count(lengths, l)
  {
    for len := 0 to MAXBITS + 1
      invariant forall l :: 0 <= l < len ==> count[l] == 0
    {
      count[len] := 0;
    }
    for sym := 0 to |lengths|
      invariant forall l :: 0 <= l <= MAXBITS ==> count[l] == Count(lengths[..sym], l)
    {
      forall l: nat | l <= MAXBITS
        ensures Count(lengths[..sym + 1], l) == Count(lengths[..sym], l) + if lengths[sym] == l then 1 else 0
      {
        CountSnoc(lengths, sym, l);
      }
      count[lengths[sym]] := count[lengths[sym]] + 1;
    }
    assert lengths[..|lengths|] == lengths;
  }

  /** dyn_huff_build, the middle loop: how many codes of 15 bits are left over. */
  method CodesLeft(count: array<int>, lengths: seq<nat>) returns (left: int)
    requires count.Length == MAXBITS + 1
    requires forall l :: 0 <= l <= MAXBITS ==> count[l] == Count(lengths, l)
    ensures left < 0 <==> Oversubscribed(lengths)
    ensures left >= 0 ==> left == Pow(2, MAXBITS) - EndCode(lengths, MAXBITS)
  {
    hide Pow, EndCode;
    left := 1;
    for len := 1 to MAXBITS + 1
      invariant len == 1 ==> left == 1
      invariant len > 1 ==> left == Pow(2, len - 1) - EndCode(lengths, len - 1)
      invariant left >= 0
      invariant forall l :: 1 <= l < len ==> EndCode(lengths, l) <= Pow(2, l)
    {
      LeftStep(lengths, len, left);
      left := left * 2 - count[len];
      if left < 0 {
        return;
      }
    }
  }

  lemma LeftStep(lengths: seq<nat>, len: nat, left: int)
    requires len >= 1 && (len == 1 ==> left == 1)
    requires len > 1 ==> left == Pow(2, len - 1) - EndCode(lengths, len - 1)
    ensures left * 2 - Count(lengths, len) == Pow(2, len) - EndCode(lengths, len)
  {
  }

  /** dyn_huff_build. A negative result means an over-subscribed code, zero a
      complete one. */
  method Build(count: array<int>, symbol: array<int>, lengths: seq<nat>) returns (left: int)
    requires count.Length == MAXBITS + 1 && symbol.Length >= |lengths| && count != symbol && IsLengths(lengths)
    modifies count, symbol
    ensures forall l :: 0 <= l <= MAXBITS ==> count[l] == Count(lengths, l)
    ensures left < 0 <==> Oversubscribed(lengths)
    ensures left >= 0 ==> IsTable(count[..], symbol[..], lengths)
    ensures Count(lengths, 0) == |lengths| ==> left == 0
    ensures Count(lengths, 0) != |lengths| && left >= 0 ==> left == Pow(2, MAXBITS) - EndCode(lengths, MAXBITS)
  {
    hide Oversubscribed, EndCode, EntryOk;
    CountLengths(count, lengths);
    if count[0] == |lengths| {
      NoCodes(lengths);
      return 0;
    }
    left := CodesLeft(count, lengths);
    if left < 0 {
      return;
    }
    FillSymbols(count, symbol, lengths);
  }

  lemma NoCodes(lengths: seq<nat>)
    requires Count(lengths, 0) == |lengths|
    ensures forall l: nat :: 1 <= l <= MAXBITS ==> Count(lengths, l) == 0
    ensures !Oversubscribed(lengths)
  {
    forall l: nat | 1 <= l <= MAXBITS + 1
      ensures Offset(lengths, l) == 0
    {
      OffsetTotal(lengths, l);
    }
    forall l: nat | 1 <= l <= MAXBITS
      ensures Count(lengths, l) == 0 && EndCode(lengths, l) == 0
    {
      assert Offset(lengths, l + 1) == 0;
      NoFirstCode(lengths, l);
    }
  }

  lemma {:induction false} NoFirstCode(lengths: seq<nat>, l: nat)
    requires l <= MAXBITS && forall k :: 1 <= k <= MAXBITS + 1 ==> Offset(lengths, k) == 0
    ensures FirstCode(lengths, l) == 0
  {
    if l <= 1 {
    } else {
      NoFirstCode(lengths, l - 1);
      assert Offset(lengths, l) == 0;
    }
  }

  /** dyn_huff_build, the last loops: the symbols ordered by length, then by
      value. */
  method FillSymbols(count: array<int>, symbol: array<int>, lengths: seq<nat>)
    requires count.Length == MAXBITS + 1 && symbol.Length >= |lengths| && count != symbol && IsLengths(lengths)
    requires forall l :: 0 <= l <= MAXBITS ==> count[l] == Count(lengths, l)
    modifies symbol
    ensures forall l: nat, r: nat :: 1 <= l <= MAXBITS && r < Count(lengths, l) ==> EntryOk(symbol[..], lengths, l, r)
  {
    hide Count, Offset, EntryOk, Filled;
    var offs := FirstSlots(count, lengths);
    StartFill(symbol[..], lengths);
    for sym := 0 to |lengths|
      invariant forall l :: 1 <= l <= MAXBITS ==> offs[l] == Offset(lengths, l) + Count(lengths[..sym], l)
      invariant Filled(symbol[..], lengths, sym)
    {
      var len := lengths[sym];
      CountsBelow(lengths, sym);
      if len != 0 {
        SlotInTable(lengths, len, Count(lengths[..sym], len));
        FillOne(symbol[..], lengths, sym);
        ghost var was := symbol[..];
        symbol[offs[len]] := sym;
        assert symbol[..] == was[offs[len] := sym];
        offs[len] := offs[len] + 1;
      } else {
        FillNone(symbol[..], lengths, sym);
      }
    }
    EndFill(symbol[..], lengths);
  }

  method FirstSlots(count: array<int>, lengths: seq<nat>) returns (offs: array<int>)
    requires count.Length == MAXBITS + 1
    requires forall l :: 0 <= l <= MAXBITS ==> count[l] == Count(lengths, l)
    ensures fresh(offs) && offs.Length == MAXBITS + 1
    ensures forall l :: 1 <= l <= MAXBITS ==> offs[l] == Offset(lengths, l)
  {
    hide Count;
    offs := new int[MAXBITS + 1];
    offs[1] := 0;
    for len := 1 to MAXBITS
      invariant forall l :: 1 <= l <= len ==> offs[l] == Offset(lengths, l)
    {
      offs[len + 1] := offs[len] + count[len];
    }
  }

  lemma StartFill(symbol: seq<int>, lengths: seq<nat>)
    ensures Filled(symbol, lengths, 0) && forall l: nat :: Count(lengths[..0], l) == 0
  {
  }

  lemma EndFill(symbol: seq<int>, lengths: seq<nat>)
    requires Filled(symbol, lengths, |lengths|)
    ensures forall l: nat, r: nat :: 1 <= l <= MAXBITS && r < Count(lengths, l) ==> EntryOk(symbol, lengths, l, r)
  {
    assert lengths[..|lengths|] == lengths;
  }

  /** The entries of the symbols below n are in place. */
  ghost predicate Filled(symbol: seq<int>, lengths: seq<nat>, n: nat)
    requires n <= |lengths|
  {
    forall l: nat, r: nat :: 1 <= l <= MAXBITS && r < Count(lengths[..n], l) ==> EntryOk(symbol, lengths, l, r)
  }

  lemma CountsBelow(lengths: seq<nat>, sym: nat)
    requires sym < |lengths|
    ensures forall l: nat ::
              Count(lengths[..sym + 1], l) == Count(lengths[..sym], l) + if lengths[sym] == l then 1 else 0
    ensures forall l: nat :: Count(lengths[..sym + 1], l) <= Count(lengths, l)
  {
    forall l: nat
      ensures Count(lengths[..sym + 1], l) == Count(lengths[..sym], l) + if lengths[sym] == l then 1 else 0
      ensures Count(lengths[..sym + 1], l) <= Count(lengths, l)
    {
      CountSnoc(lengths, sym, l);
      CountMono(lengths, sym + 1, |lengths|, l);
      assert lengths[..|lengths|] == lengths;
    }
  }

  lemma FillNone(symbol: seq<int>, lengths: seq<nat>, sym: nat)
    requires sym < |lengths| && lengths[sym] == 0 && Filled(symbol, lengths, sym)
    ensures Filled(symbol, lengths, sym + 1)
  {
    hide EntryOk;
    CountsBelow(lengths, sym);
  }

  lemma FillOne(symbol: seq<int>, lengths: seq<nat>, sym: nat)
    requires sym < |lengths| && 1 <= lengths[sym] <= MAXBITS && Filled(symbol, lengths, sym)
    requires Offset(lengths, lengths[sym]) + Count(lengths[..sym], lengths[sym]) < |symbol|
    ensures Filled(symbol[Offset(lengths, lengths[sym]) + Count(lengths[..sym], lengths[sym]) := sym], lengths, sym + 1)
  {
    CountsBelow(lengths, sym);
    var k, q := lengths[sym], Count(lengths[..sym], lengths[sym]);
    var filled := symbol[Offset(lengths, k) + q := sym];
    forall l: nat, r: nat | 1 <= l <= MAXBITS && r < Count(lengths[..sym + 1], l)
      ensures EntryOk(filled, lengths, l, r)
    {
      if l == k && r == q {
        assert EntryOk(filled, lengths, l, r);
      } else {
        assert EntryOk(symbol, lengths, l, r);
        if Offset(lengths, l) + r == Offset(lengths, k) + q { SlotsApart(lengths, l, r, k, q); }
      }
    }
  }

  // ---- decoding ---------------------------------------------------------------------------------

  /** No code shorter than l bits starts the bit string. */
  ghost predicate NoneBelow(lengths: seq<nat>, bits: seq<bool>, l: nat)
  {
    forall sym: nat :: HasCode(lengths, sym) && lengths[sym] < l ==> !(CodeBits(lengths, sym) <= bits)
  }

  lemma NoneAt(lengths: seq<nat>, bits: seq<bool>, l: nat)
    requires IsLengths(lengths) && !Oversubscribed(lengths) && NoneBelow(lengths, bits, l)
    requires |bits| >= l ==> FromMsb(bits[..l]) >= EndCode(lengths, l)
    ensures NoneBelow(lengths, bits, l + 1)
  {
    hide Oversubscribed, CodeBits, Code;
    forall sym: nat | HasCode(lengths, sym) && lengths[sym] < l + 1
      ensures !(CodeBits(lengths, sym) <= bits)
    {
      if lengths[sym] == l {
        CodeAtStart(lengths, sym, bits);
        CodeRange(lengths, sym);
      }
    }
  }

  lemma NoneLonger(lengths: seq<nat>, bits: seq<bool>, l: nat)
    requires IsLengths(lengths) && NoneBelow(lengths, bits, l) && |bits| < l
    ensures NoneBelow(lengths, bits, MAXBITS + 1)
  {
  }

  /** The symbol found in the table has the code just read. */
  lemma FoundCode(count: seq<int>, symbol: seq<int>, lengths: seq<nat>, bits: seq<bool>, l: nat)
    requires IsLengths(lengths) && !Oversubscribed(lengths) && IsTable(count, symbol, lengths)
    requires 1 <= l <= MAXBITS && l <= |bits|
    requires FirstCode(lengths, l) <= FromMsb(bits[..l]) < EndCode(lengths, l)
    ensures var i := Offset(lengths, l) + FromMsb(bits[..l]) - FirstCode(lengths, l);
            && 0 <= i < |symbol| && HasCode(lengths, symbol[i])
            && lengths[symbol[i]] == l && CodeBits(lengths, symbol[i]) <= bits
  {
    hide Oversubscribed, FromMsb, CodeBits;
    var r := FromMsb(bits[..l]) - FirstCode(lengths, l);
    assert EntryOk(symbol, lengths, l, r);
    CodeAtStart(lengths, symbol[Offset(lengths, l) + r], bits);
  }

  /** dyn_huff_decode: the symbol whose code comes next, or -1 when no code does. */
  method Decode(s: BitReader, count: array<int>, symbol: array<int>, ghost lengths: seq<nat>) returns (r: int)
    requires s.Valid() && !s.error
    requires IsLengths(lengths) && !Oversubscribed(lengths) && IsTable(count[..], symbol[..], lengths)
    modifies s
    ensures s.Valid()
    ensures r < 0 ==> r == -1 && NoneBelow(lengths, old(s.Rest()), MAXBITS + 1)
    ensures r >= 0 ==> HasCode(lengths, r) && CodeBits(lengths, r) <= old(s.Rest())
    ensures r >= 0 ==> !s.error && s.Rest() == old(s.Rest())[lengths[r]..]
  {
    hide Oversubscribed, CodeBits, Count, Offset, EntryOk, NoneBelow, IsTable, s.Rest;
    ghost var rest := s.Rest();
    var code, first, index := 0, 0, 0;
    CountsAre(count[..], symbol[..], lengths);
    StartDecode(lengths, rest);
    for len := 1 to MAXBITS + 1
      invariant s.Valid() && !s.error && len - 1 <= |rest| && s.Rest() == rest[len - 1..]
      invariant code == 2 * FromMsb(rest[..len - 1]) && first == FirstCode(lengths, len) && code >= first
      invariant index == Offset(lengths, len) && NoneBelow(lengths, rest, len)
    {
      var bit := s.Bits(1);
      if s.error {
        NoneLonger(lengths, rest, len);
        return -1;
      }
      OneBit(rest, len - 1);
      code := code + bit;
      var cnt := count[len];
      if code - cnt < first {
        FoundCode(count[..], symbol[..], lengths, rest, len);
        return symbol[index + (code - first)];
      }
      NoneAt(lengths, rest, len);
      NextLength(lengths, len);
      index := index + cnt;
      first := (first + cnt) * 2;
      code := code * 2;
    }
    return -1;
  }

  lemma CountsAre(count: seq<int>, symbol: seq<int>, lengths: seq<nat>)
    requires IsTable(count, symbol, lengths)
    ensures |count| == MAXBITS + 1 && forall l :: 0 <= l <= MAXBITS ==> count[l] == Count(lengths, l)
  {
  }

  lemma StartDecode(lengths: seq<nat>, rest: seq<bool>)
    ensures NoneBelow(lengths, rest, 1) && Offset(lengths, 1) == 0 && FirstCode(lengths, 1) == 0
    ensures rest[0..] == rest && FromMsb(rest[..0]) == 0
  {
  }

  lemma OneBit(rest: seq<bool>, k: nat)
    requires k < |rest|
    ensures FromMsb(rest[..k + 1]) == 2 * FromMsb(rest[..k]) + FromLsb(rest[k..][..1])
    ensures rest[k..][1..] == rest[k + 1..]
  {
    FromMsbSnoc(rest, k);
    assert rest[k..][..1] == [rest[k]];
    assert [rest[k]][1..] == [];
  }

  lemma NextLength(lengths: seq<nat>, l: nat)
    requires l >= 1
    ensures Offset(lengths, l + 1) == Offset(lengths, l) + Count(lengths, l)
    ensures FirstCode(lengths, l + 1) == 2 * EndCode(lengths, l)
  {
  }
}
