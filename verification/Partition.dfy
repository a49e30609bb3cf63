/** The three-way partition of rqsort. */
module Partition {
  import opened SortSpec

  /** v is one of the three: some other one is not above it and the third not below. */
  ghost predicate IsMiddle<T>(cmp: (T, T) -> int, v: T, x: T, y: T, z: T)
  {
    || (v == x && (cmp(y, x) <= 0 <= cmp(z, x) || cmp(z, x) <= 0 <= cmp(y, x)))
    || (v == y && (cmp(x, y) <= 0 <= cmp(z, y) || cmp(z, y) <= 0 <= cmp(x, y)))
    || (v == z && (cmp(x, z) <= 0 <= cmp(y, z) || cmp(y, z) <= 0 <= cmp(x, z)))
  }

  /** med3: the place of the middle one of three elements. */
  method Med3<T(!new)>(a: array<T>, x: nat, y: nat, z: nat, cmp: (T, T) -> int) returns (m: nat)
    requires TotalPreorder(cmp) && x < a.Length && y < a.Length && z < a.Length
    ensures m in {x, y, z} && IsMiddle(cmp, a[m], a[x], a[y], a[z])
  {
    m := if cmp(a[x], a[y]) < 0 then
           (if cmp(a[y], a[z]) < 0 then y else if cmp(a[x], a[z]) < 0 then z else x)
         else
           (if cmp(a[y], a[z]) > 0 then y else if cmp(a[x], a[z]) < 0 then x else z);
  }

  /** Equal to the pivot up to plt, smaller up to pi, not yet seen up to pj, greater
      up to pgt, equal again up to top. The pivot itself stays at p. */
  ghost predicate Scanned<T>(s: seq<T>, cmp: (T, T) -> int, v: T, p: int, plt: int, pi: int, pj: int, pgt: int,
                             top: int)
  {
    && 0 <= p < plt <= pi <= pj <= pgt <= top <= |s| && s[p] == v
    && (forall k :: p <= k < plt ==> cmp(v, s[k]) == 0)
    && (forall k :: plt <= k < pi ==> cmp(v, s[k]) > 0)
    && (forall k :: pj <= k < pgt ==> cmp(v, s[k]) < 0)
    && (forall k :: pgt <= k < top ==> cmp(v, s[k]) == 0)
  }

  lemma LeftEqual<T>(s: seq<T>, cmp: (T, T) -> int, v: T, p: int, plt: int, pi: int, pj: int, pgt: int, top: int)
    requires Scanned(s, cmp, v, p, plt, pi, pj, pgt, top) && pi < pj && cmp(v, s[pi]) == 0
    ensures Scanned(Swapped(s, plt, pi), cmp, v, p, plt + 1, pi + 1, pj, pgt, top)
  {
  }

  lemma LeftSmaller<T>(s: seq<T>, cmp: (T, T) -> int, v: T, p: int, plt: int, pi: int, pj: int, pgt: int, top: int)
    requires Scanned(s, cmp, v, p, plt, pi, pj, pgt, top) && pi < pj && cmp(v, s[pi]) > 0
    ensures Scanned(s, cmp, v, p, plt, pi + 1, pj, pgt, top)
  {
  }

  lemma RightEqual<T>(s: seq<T>, cmp: (T, T) -> int, v: T, p: int, plt: int, pi: int, q: int, pgt: int, top: int)
    requires Scanned(s, cmp, v, p, plt, pi, q + 1, pgt, top) && pi <= q && cmp(v, s[q]) == 0
    ensures Scanned(Swapped(s, pgt - 1, q), cmp, v, p, plt, pi, q, pgt - 1, top)
  {
  }

  lemma RightGreater<T>(s: seq<T>, cmp: (T, T) -> int, v: T, p: int, plt: int, pi: int, q: int, pgt: int, top: int)
    requires Scanned(s, cmp, v, p, plt, pi, q + 1, pgt, top) && pi <= q && cmp(v, s[q]) < 0
    ensures Scanned(s, cmp, v, p, plt, pi, q, pgt, top)
  {
  }

  lemma Exchange<T>(s: seq<T>, cmp: (T, T) -> int, v: T, p: int, plt: int, pi: int, q: int, pgt: int, top: int)
    requires Scanned(s, cmp, v, p, plt, pi, q + 1, pgt, top) && pi < q && cmp(v, s[q]) > 0 && cmp(v, s[pi]) < 0
    ensures Scanned(Swapped(s, pi, q), cmp, v, p, plt, pi + 1, q, pgt, top)
  {
  }

  lemma ScannedBounds<T>(s: seq<T>, cmp: (T, T) -> int, v: T, p: int, plt: int, pi: int, pj: int, pgt: int, top: int)
    requires Scanned(s, cmp, v, p, plt, pi, pj, pgt, top)
    ensures 0 <= p < plt <= pi <= pj <= pgt <= top <= |s| && s[p] == v
  {
  }

  /** The scan from the left, up to an element greater than the pivot. */
  method ScanLeft<T>(a: array<T>, cmp: (T, T) -> int, p: nat, plt0: nat, pi0: nat, pj: nat, ghost v: T, ghost pgt: nat,
                     ghost top: nat)
    returns (plt: nat, pi: nat)
    requires Scanned(a[..], cmp, v, p, plt0, pi0, pj, pgt, top)
    modifies a
    ensures Rearranged(old(a[..]), a[..], p, top)
    ensures Scanned(a[..], cmp, v, p, plt, pi, pj, pgt, top) && pi0 <= pi
    ensures pi == pj || cmp(v, a[pi]) < 0
  {
    hide Rearranged, Scanned, Swapped;
    plt, pi := plt0, pi0;
    ScannedBounds(a[..], cmp, v, p, plt, pi, pj, pgt, top);
    RearrangedSelf(a[..], p, top);
    while pi < pj && cmp(a[p], a[pi]) >= 0
      invariant p < plt <= pi <= pj <= a.Length && pi0 <= pi && a[p] == v
      invariant Rearranged(old(a[..]), a[..], p, top)
      invariant Scanned(a[..], cmp, v, p, plt, pi, pj, pgt, top)
    {
      ghost var was := a[..];
      if cmp(a[p], a[pi]) == 0 {
        LeftEqual(was, cmp, v, p, plt, pi, pj, pgt, top);
        SwapRearranges(was, plt, pi, p, top);
        SwapAt(a, plt, pi);
        RearrangedTrans(old(a[..]), was, a[..], p, top);
        plt := plt + 1;
      } else {
        LeftSmaller(was, cmp, v, p, plt, pi, pj, pgt, top);
      }
      pi := pi + 1;
      ScannedBounds(a[..], cmp, v, p, plt, pi, pj, pgt, top);
    }
  }

  /** The scan from the right, down to an element smaller than the pivot. */
  method ScanRight<T>(a: array<T>, cmp: (T, T) -> int, p: nat, pi: nat, pj0: nat, pgt0: nat, ghost v: T,
                      ghost plt: nat, ghost top: nat)
    returns (pj: int, pgt: nat)
    requires Scanned(a[..], cmp, v, p, plt, pi, pj0, pgt0, top) && (pi == pj0 || cmp(v, a[pi]) < 0)
    modifies a
    ensures Rearranged(old(a[..]), a[..], p, top)
    ensures Scanned(a[..], cmp, v, p, plt, pi, pj + 1, pgt, top) && pj < pj0
    ensures pj >= pi ==> cmp(v, a[pi]) < 0
    ensures pj > pi ==> cmp(v, a[pj]) > 0
  {
    hide Rearranged, Scanned, Swapped;
    ScannedBounds(a[..], cmp, v, p, plt, pi, pj0, pgt0, top);
    RearrangedSelf(a[..], p, top);
    pj, pgt := pj0 - 1, pgt0;
    while pi < pj && cmp(a[p], a[pj]) <= 0
      invariant p < plt <= pi <= pj + 1 <= pgt <= top <= a.Length && pj < pj0 && a[p] == v
      invariant Rearranged(old(a[..]), a[..], p, top)
      invariant Scanned(a[..], cmp, v, p, plt, pi, pj + 1, pgt, top)
      invariant pi <= pj ==> cmp(v, a[pi]) < 0
      decreases pj
    {
      ghost var was := a[..];
      if cmp(a[p], a[pj]) == 0 {
        RightEqual(was, cmp, v, p, plt, pi, pj, pgt, top);
        pgt := pgt - 1;
        SwapRearranges(was, pgt, pj, p, top);
        SwapKeeps(was, pgt, pj, pi);
        SwapAt(a, pgt, pj);
        RearrangedTrans(old(a[..]), was, a[..], p, top);
      } else {
        RightGreater(was, cmp, v, p, plt, pi, pj, pgt, top);
      }
      ScannedBounds(a[..], cmp, v, p, plt, pi, pj, pgt, top);
      pj := pj - 1;
    }
  }

  lemma SwapKeeps<T>(s: seq<T>, i: int, j: int, k: int)
    requires 0 <= i < |s| && 0 <= j < |s| && 0 <= k < |s| && k != i && k != j
    ensures Swapped(s, i, j)[k] == s[k]
  {
  }

  /** The two scans, until they meet. */
  method ScanBoth<T>(a: array<T>, cmp: (T, T) -> int, p: nat, top: nat, ghost v: T)
    returns (plt: nat, pi: nat, pgt: nat)
    requires p < top <= a.Length && v == a[p] && cmp(v, v) == 0
    modifies a
    ensures Rearranged(old(a[..]), a[..], p, top)
    ensures Scanned(a[..], cmp, v, p, plt, pi, pi, pgt, top)
  {
    hide Rearranged, Scanned, Swapped;
    plt, pi, pgt := p + 1, p + 1, top;
    var pj: int := top;
    RearrangedSelf(a[..], p, top);
    StartScan(a[..], cmp, v, p, top);
    while true
      invariant 0 <= pj && Rearranged(old(a[..]), a[..], p, top)
      invariant Scanned(a[..], cmp, v, p, plt, pi, pj, pgt, top)
      decreases pj - pi
    {
      ghost var was, last := a[..], pj;
      ScannedBounds(a[..], cmp, v, p, plt, pi, pj, pgt, top);
      plt, pi := ScanLeft(a, cmp, p, plt, pi, pj, v, pgt, top);
      RearrangedTrans(old(a[..]), was, a[..], p, top);
      was := a[..];
      pj, pgt := ScanRight(a, cmp, p, pi, pj, pgt, v, plt, top);
      RearrangedTrans(old(a[..]), was, a[..], p, top);
      ScannedBounds(a[..], cmp, v, p, plt, pi, pj + 1, pgt, top);
      if pi >= pj {
        if pi == pj { RightGreater(a[..], cmp, v, p, plt, pi, pj, pgt, top); }
        return;
      }
      was := a[..];
      Exchange(was, cmp, v, p, plt, pi, pj, pgt, top);
      SwapRearranges(was, pi, pj, p, top);
      SwapAt(a, pi, pj);
      RearrangedTrans(old(a[..]), was, a[..], p, top);
      pi := pi + 1;
      ScannedBounds(a[..], cmp, v, p, plt, pi, pj, pgt, top);
    }
  }

  lemma StartScan<T>(s: seq<T>, cmp: (T, T) -> int, v: T, p: int, top: int)
    requires 0 <= p < top <= |s| && v == s[p] && cmp(v, v) == 0
    ensures Scanned(s, cmp, v, p, p + 1, p + 1, top, top, top)
  {
  }

  // ---- moving the equal elements to the middle --------------------------------------------------------

  ghost predicate BlocksSwapped<T>(s: seq<T>, t: seq<T>, x: int, y: int, n: int)
  {
    && |s| == |t| && 0 <= x && 0 <= n && x + n <= y && y + n <= |s|
    && (forall k :: x <= k < x + n ==> t[k] == s[k + (y - x)])
    && (forall k :: y <= k < y + n ==> t[k] == s[k - (y - x)])
    && (forall k :: 0 <= k < |s| && !(x <= k < x + n) && !(y <= k < y + n) ==> t[k] == s[k])
  }

  /** swap_block: exchange two blocks of n elements. */
  method SwapBlock<T>(a: array<T>, x: nat, y: nat, n: nat, ghost lo: nat, ghost hi: nat)
    requires lo <= x && x + n <= y && y + n <= hi <= a.Length
    modifies a
    ensures Rearranged(old(a[..]), a[..], lo, hi)
    ensures BlocksSwapped(old(a[..]), a[..], x, y, n)
  {
    hide Rearranged, Swapped, BlocksSwapped;
    RearrangedSelf(a[..], lo, hi);
    NoBlocks(a[..], x, y);
    for k := 0 to n
      invariant Rearranged(old(a[..]), a[..], lo, hi)
      invariant BlocksSwapped(old(a[..]), a[..], x, y, k)
    {
      ghost var was := a[..];
      MoreBlocks(old(a[..]), was, x, y, k);
      SwapRearranges(was, x + k, y + k, lo, hi);
      SwapAt(a, x + k, y + k);
      RearrangedTrans(old(a[..]), was, a[..], lo, hi);
    }
  }

  lemma NoBlocks<T>(s: seq<T>, x: int, y: int)
    requires 0 <= x <= y <= |s|
    ensures BlocksSwapped(s, s, x, y, 0)
  {
  }

  lemma MoreBlocks<T>(s: seq<T>, t: seq<T>, x: int, y: int, k: int)
    requires BlocksSwapped(s, t, x, y, k) && x + k + 1 <= y && y + k + 1 <= |s|
    ensures BlocksSwapped(s, Swapped(t, x + k, y + k), x, y, k + 1)
  {
  }

  /** The smaller elements first, then the equal ones of the left end. */
  ghost predicate LeftJoined<T>(s: seq<T>, cmp: (T, T) -> int, v: T, p: int, l: int, pi: int, pgt: int, top: int)
  {
    && 0 <= p <= l < pi <= pgt <= top <= |s|
    && (forall k :: p <= k < l ==> cmp(v, s[k]) > 0)
    && (forall k :: l <= k < pi ==> cmp(v, s[k]) == 0)
    && (forall k :: pi <= k < pgt ==> cmp(v, s[k]) < 0)
    && (forall k :: pgt <= k < top ==> cmp(v, s[k]) == 0)
  }

  lemma JoinLeft<T>(s: seq<T>, t: seq<T>, cmp: (T, T) -> int, v: T, p: int, plt: int, pi: int, pgt: int, top: int,
                    span: int)
    requires Scanned(s, cmp, v, p, plt, pi, pi, pgt, top)
    requires span == if plt - p > pi - plt then pi - plt else plt - p
    requires BlocksSwapped(s, t, p, pi - span, span)
    ensures LeftJoined(t, cmp, v, p, p + (pi - plt), pi, pgt, top)
  {
  }

  lemma JoinRight<T>(s: seq<T>, t: seq<T>, cmp: (T, T) -> int, v: T, p: int, l: int, pi: int, pgt: int, top: int,
                     span: int)
    requires LeftJoined(s, cmp, v, p, l, pi, pgt, top)
    requires span == if top - pgt > pgt - pi then pgt - pi else top - pgt
    requires BlocksSwapped(s, t, pi, top - span, span)
    ensures Parted(t, cmp, v, Segment(p, top), l, top - (pgt - pi)) && l < top - (pgt - pi)
  {
  }

  /** Move the equal elements of both ends to the middle. */
  method JoinMiddle<T>(a: array<T>, cmp: (T, T) -> int, p: nat, plt: nat, pi: nat, pgt: nat, top: nat, ghost v: T)
    returns (l: nat, g: nat)
    requires Scanned(a[..], cmp, v, p, plt, pi, pi, pgt, top)
    modifies a
    ensures Rearranged(old(a[..]), a[..], p, top)
    ensures Parted(a[..], cmp, v, Segment(p, top), l, g) && p <= l < g <= top
  {
    hide Rearranged, Scanned, BlocksSwapped, LeftJoined, Parted;
    ghost var was := a[..];
    ScannedBounds(was, cmp, v, p, plt, pi, pi, pgt, top);
    var span := if plt - p > pi - plt then pi - plt else plt - p;
    SwapBlock(a, p, pi - span, span, p, top);
    JoinLeft(was, a[..], cmp, v, p, plt, pi, pgt, top, span);
    was := a[..];
    l := p + (pi - plt);
    span := if top - pgt > pgt - pi then pgt - pi else top - pgt;
    SwapBlock(a, pi, top - span, span, p, top);
    JoinRight(was, a[..], cmp, v, p, l, pi, pgt, top, span);
    RearrangedTrans(old(a[..]), was, a[..], p, top);
    g := top - (pgt - pi);
  }

  /** Move the median of three elements to the start. */
  method ChoosePivot<T(!new)>(a: array<T>, cmp: (T, T) -> int, p: nat, n: nat)
    requires TotalPreorder(cmp) && n > 6 && p + n <= a.Length
    modifies a
    ensures Rearranged(old(a[..]), a[..], p, p + n)
    ensures IsMiddle(cmp, a[p], old(a[p + n / 4]), old(a[p + 2 * (n / 4)]), old(a[p + 3 * (n / 4)]))
  {
    hide Rearranged, IsMiddle, TotalPreorder;
    var m4 := n / 4;
    var m := Med3(a, p + m4, p + 2 * m4, p + 3 * m4, cmp);
    SwapRearranges(a[..], p, m, p, p + n);
    SwapAt(a, p, m);
  }

  /** One partition step of rqsort on n > 6 elements from p on. */
  method PartitionStep<T(!new)>(a: array<T>, cmp: (T, T) -> int, p: nat, n: nat) returns (l: nat, g: nat, ghost v: T)
    requires TotalPreorder(cmp) && n > 6 && p + n <= a.Length
    modifies a
    ensures Rearranged(old(a[..]), a[..], p, p + n)
    ensures Parted(a[..], cmp, v, Segment(p, p + n), l, g) && p <= l < g <= p + n
  {
    hide Rearranged, Scanned, Parted, TotalPreorder;
    ChoosePivot(a, cmp, p, n);
    v := a[p];
    Reflexive(cmp, v);
    ghost var was := a[..];
    var plt, pi, pgt := ScanBoth(a, cmp, p, p + n, v);
    RearrangedTrans(old(a[..]), was, a[..], p, p + n);
    was := a[..];
    l, g := JoinMiddle(a, cmp, p, plt, pi, pgt, p + n, v);
    RearrangedTrans(old(a[..]), was, a[..], p, p + n);
  }

  lemma Reflexive<T(!new)>(cmp: (T, T) -> int, v: T)
    requires TotalPreorder(cmp)
    ensures cmp(v, v) == 0
  {
  }
}
