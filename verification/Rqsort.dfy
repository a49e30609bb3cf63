/** rqsort: quicksort with an explicit stack, heapsort below a depth of 50, and
    insertion sort for short stretches. */
module Rqsort {
  import opened SortSpec
  import opened HeapSort
  import opened Partition

  // ---- insertion sort ---------------------------------------------------------------------------------

  /** In order but for the element at p, which may be too far to the right. */
  ghost predicate SortedBut<T>(s: seq<T>, lo: int, hi: int, p: int, cmp: (T, T) -> int)
    requires 0 <= lo <= hi <= |s|
  {
    forall i, j :: lo <= i < j < hi && j != p ==> cmp(s[i], s[j]) <= 0
  }

  lemma InsertStep<T(!new)>(s: seq<T>, lo: int, hi: int, p: int, cmp: (T, T) -> int)
    requires TotalPreorder(cmp) && 0 <= lo < p < hi <= |s| && SortedBut(s, lo, hi, p, cmp) && cmp(s[p - 1], s[p]) > 0
    ensures SortedBut(Swapped(s, p, p - 1), lo, hi, p - 1, cmp)
  {
  }

  lemma InsertDone<T(!new)>(s: seq<T>, lo: int, hi: int, p: int, cmp: (T, T) -> int)
    requires TotalPreorder(cmp) && 0 <= lo <= p < hi <= |s| && SortedBut(s, lo, hi, p, cmp)
    requires p == lo || cmp(s[p - 1], s[p]) <= 0
    ensures SortedIn(s, lo, hi, cmp)
  {
  }

  lemma InsertNext<T>(s: seq<T>, lo: int, p: int, cmp: (T, T) -> int)
    requires 0 <= lo <= p < |s| && SortedIn(s, lo, p, cmp)
    ensures SortedBut(s, lo, p + 1, p, cmp)
  {
  }

  /** Let the element at pi sink to its place. */
  method Insert<T(!new)>(a: array<T>, lo: nat, pi: nat, cmp: (T, T) -> int, ghost hi: nat)
    requires TotalPreorder(cmp) && lo <= pi < hi <= a.Length && SortedIn(a[..], lo, pi, cmp)
    modifies a
    ensures Rearranged(old(a[..]), a[..], lo, hi)
    ensures SortedIn(a[..], lo, pi + 1, cmp)
  {
    hide TotalPreorder, SortedBut, SortedIn, Rearranged, Swapped;
    var pj := pi;
    RearrangedSelf(a[..], lo, hi);
    InsertNext(a[..], lo, pi, cmp);
    while pj > lo && cmp(a[pj - 1], a[pj]) > 0
      invariant lo <= pj <= pi && SortedBut(a[..], lo, pi + 1, pj, cmp)
      invariant Rearranged(old(a[..]), a[..], lo, hi)
    {
      ghost var was := a[..];
      InsertStep(was, lo, pi + 1, pj, cmp);
      SwapRearranges(was, pj, pj - 1, lo, hi);
      SwapAt(a, pj, pj - 1);
      RearrangedTrans(old(a[..]), was, a[..], lo, hi);
      pj := pj - 1;
    }
    InsertDone(a[..], lo, pi + 1, pj, cmp);
  }

  /** The last loop of rqsort, for short stretches. */
  method InsertionSort<T(!new)>(a: array<T>, lo: nat, n: nat, cmp: (T, T) -> int)
    requires TotalPreorder(cmp) && lo + n <= a.Length
    modifies a
    ensures Rearranged(old(a[..]), a[..], lo, lo + n)
    ensures SortedIn(a[..], lo, lo + n, cmp)
  {
    hide TotalPreorder, SortedIn, Rearranged;
    RearrangedSelf(a[..], lo, lo + n);
    Short(a[..], lo, if n == 0 then lo else lo + 1, cmp);
    var pi := lo + 1;
    while pi < lo + n
      invariant n > 0 ==> lo < pi <= lo + n && SortedIn(a[..], lo, pi, cmp)
      invariant n == 0 ==> SortedIn(a[..], lo, lo, cmp)
      invariant Rearranged(old(a[..]), a[..], lo, lo + n)
    {
      ghost var was := a[..];
      Insert(a, lo, pi, cmp, lo + n);
      RearrangedTrans(old(a[..]), was, a[..], lo, lo + n);
      pi := pi + 1;
    }
  }

  lemma Short<T>(s: seq<T>, lo: int, hi: int, cmp: (T, T) -> int)
    requires 0 <= lo <= hi <= |s| && hi <= lo + 1
    ensures SortedIn(s, lo, hi, cmp)
  {
  }

  // ---- the stack ----------------------------------------------------------------------------------------

  const STACK_SIZE: nat := 50
  const MAX_DEPTH: int := 50

  datatype Entry = Entry(base: nat, count: nat, depth: int)

  ghost function SegmentOf(e: Entry): Segment { Segment(e.base, e.base + e.count) }

  ghost function Segs(st: seq<Entry>): (r: seq<Segment>)
    ensures |r| == |st|
  {
    seq(|st|, i requires 0 <= i < |st| => SegmentOf(st[i]))
  }

  ghost function Total(st: seq<Entry>): nat
  {
    if st == [] then 0 else Total(st[..|st| - 1]) + st[|st| - 1].count
  }

  /** The entry at place k was pushed at a depth of at least k. */
  ghost predicate DeepEnough(st: seq<Entry>)
  {
    forall k :: 0 <= k < |st| ==> k <= st[k].depth <= MAX_DEPTH
  }

  lemma PushPop(st: seq<Entry>, e: Entry)
    ensures Segs(st + [e]) == Segs(st) + [SegmentOf(e)] && Total(st + [e]) == Total(st) + e.count
  {
  }

  /** The array as it is while the stretches of the stack and one more are pending. */
  ghost predicate Sorting<T>(was: seq<T>, s: seq<T>, cmp: (T, T) -> int, segs: seq<Segment>)
  {
    |s| == |was| && Rearranged(was, s, 0, |s|) && Pending(segs, |s|) && OrderedBut(s, cmp, segs)
  }

  lemma SortingRearranged<T>(was: seq<T>, s: seq<T>, t: seq<T>, cmp: (T, T) -> int, segs: seq<Segment>, g: Segment)
    requires Sorting(was, s, cmp, segs + [g]) && Rearranged(s, t, g.lo, g.hi)
    ensures Sorting(was, t, cmp, segs + [g])
  {
    hide Pending, OrderedBut;
    RearrangePending(s, t, cmp, segs, g);
    RearrangedWider(s, t, g.lo, g.hi, 0, |s|);
    RearrangedTrans(was, s, t, 0, |s|);
  }

  lemma SortingSplit<T(!new)>(was: seq<T>, s: seq<T>, cmp: (T, T) -> int, segs: seq<Segment>, g: Segment, v: T, l: int,
                              r: int, rest: seq<Segment>)
    requires TotalPreorder(cmp) && Sorting(was, s, cmp, segs + [g]) && Parted(s, cmp, v, g, l, r)
    requires rest == segs + [Segment(g.lo, l)] + [Segment(r, g.hi)]
             || rest == segs + [Segment(r, g.hi)] + [Segment(g.lo, l)]
    ensures Sorting(was, s, cmp, rest)
  {
    hide Pending, OrderedBut, Rearranged, Parted, TotalPreorder;
    SplitPending(s, cmp, segs, g, v, l, r, rest);
  }

  lemma SortingDone<T>(was: seq<T>, s: seq<T>, cmp: (T, T) -> int, segs: seq<Segment>, g: Segment)
    requires Sorting(was, s, cmp, segs + [g]) && 0 <= g.lo <= g.hi <= |s| && SortedIn(s, g.lo, g.hi, cmp)
    ensures Sorting(was, s, cmp, segs)
  {
    hide Pending, OrderedBut, Rearranged, SortedIn;
    FinishPending(s, cmp, segs, g);
  }

  lemma SortingBounds<T>(was: seq<T>, s: seq<T>, cmp: (T, T) -> int, segs: seq<Segment>, g: Segment)
    requires Sorting(was, s, cmp, segs + [g])
    ensures |s| == |was| && 0 <= g.lo <= g.hi <= |s|
  {
    assert (segs + [g])[|segs|] == g;
  }

  /** The inner loop: partition, push the larger part, go on with the smaller. */
  method Descend<T(!new)>(a: array<T>, cmp: (T, T) -> int, st0: seq<Entry>, ptr0: nat, n0: nat, depth0: int,
                          ghost was: seq<T>)
    returns (st: seq<Entry>, ptr: nat, n: nat)
    requires TotalPreorder(cmp) && ptr0 + n0 <= a.Length && DeepEnough(st0) && |st0| <= depth0 <= MAX_DEPTH
    requires Sorting(was, a[..], cmp, Segs(st0) + [Segment(ptr0, ptr0 + n0)])
    modifies a
    ensures |st| <= STACK_SIZE && DeepEnough(st) && ptr + n <= a.Length
    ensures (n == 0 && Sorting(was, a[..], cmp, Segs(st)))
            || Sorting(was, a[..], cmp, Segs(st) + [Segment(ptr, ptr + n)])
    ensures st == st0 || Total(st) < Total(st0) + n0
  {
    hide TotalPreorder, Sorting, Parted, Rearranged, SortedIn, Segs, Total;
    st, ptr, n := st0, ptr0, n0;
    var depth := depth0;
    while n > 6
      invariant |st| <= depth <= MAX_DEPTH && DeepEnough(st) && ptr + n <= a.Length
      invariant Sorting(was, a[..], cmp, Segs(st) + [Segment(ptr, ptr + n)])
      invariant (st == st0 && n == n0) || Total(st) + n < Total(st0) + n0
    {
      ghost var seg, before := Segment(ptr, ptr + n), a[..];
      depth := depth + 1;
      if depth > MAX_DEPTH {
        Heapsortx(a, ptr, n, cmp);
        SortingRearranged(was, before, a[..], cmp, Segs(st), seg);
        SortingDone(was, a[..], cmp, Segs(st), seg);
        n := 0;
        break;
      }
      var l, g;
      ghost var v;
      l, g, v := PartitionStep(a, cmp, ptr, n);
      SortingRearranged(was, before, a[..], cmp, Segs(st), seg);
      var lt, gt := l - ptr, ptr + n - g;
      var e;
      if lt > gt {
        e := Entry(ptr, lt, depth);
        SortingSplit(was, a[..], cmp, Segs(st), seg, v, l, g, Segs(st) + [Segment(ptr, l)] + [Segment(g, ptr + n)]);
        ptr, n := g, gt;
      } else {
        e := Entry(g, gt, depth);
        SortingSplit(was, a[..], cmp, Segs(st), seg, v, l, g, Segs(st) + [Segment(g, ptr + n)] + [Segment(ptr, l)]);
        n := lt;
      }
      PushPop(st, e);
      st := st + [e];
    }
  }

  /** rqsort: a sorted rearrangement, with never more than 50 stretches on the
      stack. */
  method Rqsort<T(!new)>(a: array<T>, cmp: (T, T) -> int)
    requires TotalPreorder(cmp)
    modifies a
    ensures multiset(a[..]) == multiset(old(a[..]))
    ensures SortedIn(a[..], 0, a.Length, cmp)
  {
    hide TotalPreorder, Sorting, Rearranged, SortedIn, Total, Segs;
    ghost var was := a[..];
    if a.Length < 2 {
      Short(a[..], 0, a.Length, cmp);
      return;
    }
    var st := [Entry(0, a.Length, 0)];
    StartSorting(was, cmp);
    while |st| > 0
      invariant |st| <= STACK_SIZE && DeepEnough(st) && Sorting(was, a[..], cmp, Segs(st))
      decreases Total(st), |st|
    {
      var e := st[|st| - 1];
      ghost var all := st;
      st := st[..|st| - 1];
      assert all == st + [e];
      PushPop(st, e);
      SortingBounds(was, a[..], cmp, Segs(st), SegmentOf(e));
      ghost var below := st;
      var ptr, n;
      st, ptr, n := Descend(a, cmp, st, e.base, e.count, e.depth, was);
      ghost var before := a[..];
      InsertionSort(a, ptr, n, cmp);
      Settle(was, before, a[..], cmp, Segs(st), Segment(ptr, ptr + n));
    }
    AllSorted(was, a[..], cmp, Segs(st));
  }

  lemma StartSorting<T>(was: seq<T>, cmp: (T, T) -> int)
    ensures Sorting(was, was, cmp, Segs([Entry(0, |was|, 0)]))
  {
    var segs := Segs([Entry(0, |was|, 0)]);
    assert segs[0] == Segment(0, |was|);
    RearrangedSelf(was, 0, |was|);
    forall i, j | 0 <= i < j < |was|
      ensures Together(segs, i, j)
    {
      assert segs[0].lo <= i && j < segs[0].hi;
    }
  }

  lemma Settle<T>(was: seq<T>, s: seq<T>, t: seq<T>, cmp: (T, T) -> int, segs: seq<Segment>, g: Segment)
    requires (g.lo == g.hi && Sorting(was, s, cmp, segs)) || Sorting(was, s, cmp, segs + [g])
    requires 0 <= g.lo <= g.hi <= |t| && Rearranged(s, t, g.lo, g.hi) && SortedIn(t, g.lo, g.hi, cmp)
    ensures Sorting(was, t, cmp, segs)
  {
    hide Sorting, SortedIn;
    if g.lo == g.hi && Sorting(was, s, cmp, segs) {
      assert t == s;
    } else {
      SortingRearranged(was, s, t, cmp, segs, g);
      SortingDone(was, t, cmp, segs, g);
    }
  }

  lemma AllSorted<T>(was: seq<T>, s: seq<T>, cmp: (T, T) -> int, segs: seq<Segment>)
    requires Sorting(was, s, cmp, segs) && segs == []
    ensures SortedIn(s, 0, |s|, cmp) && multiset(s) == multiset(was)
  {
    assert s[0..|s|] == s && was[0..|s|] == was;
    forall i, j | 0 <= i < j < |s|
      ensures cmp(s[i], s[j]) <= 0
    {
      OrderedPair(s, cmp, segs, i, j);
    }
  }
}
