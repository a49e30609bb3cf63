/** heapsortx: the fallback of rqsort, in place on a stretch of the array. */
module HeapSort {
  import opened SortSpec

  ghost function At<T>(s: seq<T>, lo: int, k: int): T
    requires 0 <= lo + k < |s|
  {
    s[lo + k]
  }

  /** The node k is not smaller than its children among n nodes. */
  ghost predicate ParentOk<T>(s: seq<T>, lo: int, n: int, cmp: (T, T) -> int, k: int)
    requires 0 <= lo && lo + n <= |s| && 0 <= k < n
  {
    && (2 * k + 1 < n ==> cmp(At(s, lo, 2 * k + 1), At(s, lo, k)) <= 0)
    && (2 * k + 2 < n ==> cmp(At(s, lo, 2 * k + 2), At(s, lo, k)) <= 0)
  }

  ghost predicate HeapFrom<T>(s: seq<T>, lo: int, n: int, cmp: (T, T) -> int, start: int)
    requires 0 <= lo && lo + n <= |s| && 0 <= start
  {
    forall k :: start <= k < n ==> ParentOk(s, lo, n, cmp, k)
  }

  /** A heap but for the node r, whose children its parent dominates. */
  ghost predicate HeapBut<T>(s: seq<T>, lo: int, n: int, cmp: (T, T) -> int, start: int, r: int)
    requires 0 <= lo && lo + n <= |s| && 0 <= start <= r < n
  {
    && (forall k :: start <= k < n && k != r ==> ParentOk(s, lo, n, cmp, k))
    && (start < r ==> start <= (r - 1) / 2)
    && (start < r && 2 * r + 1 < n ==> cmp(At(s, lo, 2 * r + 1), At(s, lo, (r - 1) / 2)) <= 0)
    && (start < r && 2 * r + 2 < n ==> cmp(At(s, lo, 2 * r + 2), At(s, lo, (r - 1) / 2)) <= 0)
  }

  /** c is the larger child of r. */
  ghost predicate LargerChild<T>(s: seq<T>, lo: int, n: int, cmp: (T, T) -> int, r: int, c: int)
    requires 0 <= lo && lo + n <= |s| && 0 <= r < n
  {
    && (c == 2 * r + 1 || c == 2 * r + 2) && c < n
    && (2 * r + 1 < n ==> cmp(At(s, lo, 2 * r + 1), At(s, lo, c)) <= 0)
    && (2 * r + 2 < n ==> cmp(At(s, lo, 2 * r + 2), At(s, lo, c)) <= 0)
  }

  lemma SiftStep<T(!new)>(s: seq<T>, lo: int, n: int, cmp: (T, T) -> int, start: int, r: int, c: int)
    requires TotalPreorder(cmp) && 0 <= lo && lo + n <= |s| && 0 <= start <= r < n
    requires HeapBut(s, lo, n, cmp, start, r) && LargerChild(s, lo, n, cmp, r, c)
    requires cmp(At(s, lo, r), At(s, lo, c)) <= 0
    ensures HeapBut(Swapped(s, lo + r, lo + c), lo, n, cmp, start, c)
  {
    hide TotalPreorder, ParentOk;
    var t := Swapped(s, lo + r, lo + c);
    forall k | start <= k < n && k != c
      ensures ParentOk(t, lo, n, cmp, k)
    {
      SiftParent(s, lo, n, cmp, start, r, c, k);
    }
    SiftChildren(s, lo, n, cmp, r, c);
  }

  lemma SwappedAt<T>(s: seq<T>, lo: int, n: int, r: int, c: int, k: int)
    requires 0 <= lo && lo + n <= |s| && 0 <= r < n && 0 <= c < n && 0 <= k < n
    ensures At(Swapped(s, lo + r, lo + c), lo, k) == At(s, lo, if k == r then c else if k == c then r else k)
  {
  }

  lemma SiftParent<T>(s: seq<T>, lo: int, n: int, cmp: (T, T) -> int, start: int, r: int, c: int, k: int)
    requires 0 <= lo && lo + n <= |s| && 0 <= start <= r < n && start <= k < n && k != c
    requires HeapBut(s, lo, n, cmp, start, r) && LargerChild(s, lo, n, cmp, r, c)
    requires cmp(At(s, lo, r), At(s, lo, c)) <= 0
    ensures ParentOk(Swapped(s, lo + r, lo + c), lo, n, cmp, k)
  {
    hide At, Swapped;
    SwappedAt(s, lo, n, r, c, k);
    if 2 * k + 1 < n { SwappedAt(s, lo, n, r, c, 2 * k + 1); }
    if 2 * k + 2 < n { SwappedAt(s, lo, n, r, c, 2 * k + 2); }
    if k != r { assert ParentOk(s, lo, n, cmp, k); }
  }

  lemma SiftChildren<T>(s: seq<T>, lo: int, n: int, cmp: (T, T) -> int, r: int, c: int)
    requires 0 <= lo && lo + n <= |s| && 0 <= r < n && LargerChild(s, lo, n, cmp, r, c) && ParentOk(s, lo, n, cmp, c)
    ensures var t := Swapped(s, lo + r, lo + c);
            && (c - 1) / 2 == r
            && (2 * c + 1 < n ==> cmp(At(t, lo, 2 * c + 1), At(t, lo, r)) <= 0)
            && (2 * c + 2 < n ==> cmp(At(t, lo, 2 * c + 2), At(t, lo, r)) <= 0)
  {
  }

  lemma SiftDone<T(!new)>(s: seq<T>, lo: int, n: int, cmp: (T, T) -> int, start: int, r: int, c: int)
    requires TotalPreorder(cmp) && 0 <= lo && lo + n <= |s| && 0 <= start <= r < n
    requires HeapBut(s, lo, n, cmp, start, r)
    requires 2 * r + 1 >= n || (LargerChild(s, lo, n, cmp, r, c) && cmp(At(s, lo, r), At(s, lo, c)) > 0)
    ensures HeapFrom(s, lo, n, cmp, start)
  {
  }

  /** The inner loops: let the element at r0 sink below its larger children. */
  method SiftDown<T(!new)>(a: array<T>, lo: nat, n: nat, cmp: (T, T) -> int, r0: nat)
    requires TotalPreorder(cmp) && lo + n <= a.Length && r0 < n
    requires HeapBut(a[..], lo, n, cmp, r0, r0)
    modifies a
    ensures Rearranged(old(a[..]), a[..], lo, lo + n)
    ensures HeapFrom(a[..], lo, n, cmp, r0)
  {
    hide TotalPreorder, HeapBut, HeapFrom, Rearranged, Swapped, LargerChild, ParentOk;
    var r := r0;
    RearrangedSelf(a[..], lo, lo + n);
    while 2 * r + 1 < n
      invariant r0 <= r < n && HeapBut(a[..], lo, n, cmp, r0, r)
      invariant Rearranged(old(a[..]), a[..], lo, lo + n)
      decreases n - r
    {
      var c := 2 * r + 1;
      if c < n - 1 && cmp(a[lo + c], a[lo + c + 1]) <= 0 {
        c := c + 1;
      }
      PickChild(a[..], lo, n, cmp, r, c);
      if cmp(a[lo + r], a[lo + c]) > 0 {
        SiftDone(a[..], lo, n, cmp, r0, r, c);
        return;
      }
      ghost var was := a[..];
      SiftStep(was, lo, n, cmp, r0, r, c);
      SwapRearranges(was, lo + r, lo + c, lo, lo + n);
      SwapAt(a, lo + r, lo + c);
      RearrangedTrans(old(a[..]), was, a[..], lo, lo + n);
      r := c;
    }
    SiftDone(a[..], lo, n, cmp, r0, r, r);
  }

  lemma PickChild<T(!new)>(s: seq<T>, lo: int, n: int, cmp: (T, T) -> int, r: int, c: int)
    requires TotalPreorder(cmp) && 0 <= lo && lo + n <= |s| && 0 <= r && 2 * r + 1 < n
    requires c == if 2 * r + 1 < n - 1 && cmp(s[lo + (2 * r + 1)], s[lo + (2 * r + 1) + 1]) <= 0 then 2 * r + 2
                  else 2 * r + 1
    ensures LargerChild(s, lo, n, cmp, r, c)
  {
  }

  // ---- the root is the largest ------------------------------------------------------------------------

  lemma {:induction false} RootLargest<T(!new)>(s: seq<T>, lo: int, n: int, cmp: (T, T) -> int, k: int)
    requires TotalPreorder(cmp) && 0 <= lo && lo + n <= |s| && 0 <= k < n && HeapFrom(s, lo, n, cmp, 0)
    ensures cmp(At(s, lo, k), At(s, lo, 0)) <= 0
    decreases k
  {
    if k == 0 {
    } else {
      var q := (k - 1) / 2;
      RootLargest(s, lo, n, cmp, q);
      assert ParentOk(s, lo, n, cmp, q);
      assert k == 2 * q + 1 || k == 2 * q + 2;
    }
  }

  /** From i on the elements are in place: nothing before them is larger. */
  ghost predicate Settled<T>(s: seq<T>, lo: int, i: int, n: int, cmp: (T, T) -> int)
    requires 0 <= lo && lo + n <= |s|
  {
    forall x, y :: lo <= x < y < lo + n && y >= lo + i ==> cmp(s[x], s[y]) <= 0
  }

  lemma SettleRoot<T(!new)>(s: seq<T>, lo: int, i: int, n: int, cmp: (T, T) -> int)
    requires TotalPreorder(cmp) && 0 <= lo && lo + n <= |s| && 0 < i < n
    requires HeapFrom(s, lo, i + 1, cmp, 0) && Settled(s, lo, i + 1, n, cmp)
    ensures Settled(Swapped(s, lo, lo + i), lo, i, n, cmp)
  {
    hide HeapFrom;
    var t := Swapped(s, lo, lo + i);
    forall x, y | lo <= x < y < lo + n && y >= lo + i
      ensures cmp(t[x], t[y]) <= 0
    {
      var x' := if x == lo then lo + i else if x == lo + i then lo else x;
      assert t[x] == s[x'];
      if y == lo + i {
        RootLargest(s, lo, i + 1, cmp, x' - lo);
      } else {
        assert t[y] == s[y] && lo <= x' < y;
      }
    }
  }

  lemma SettledRearranged<T>(s: seq<T>, t: seq<T>, lo: int, i: int, n: int, cmp: (T, T) -> int)
    requires 0 <= lo && lo + n <= |s| && 0 <= i <= n && Settled(s, lo, i, n, cmp) && Rearranged(s, t, lo, lo + i)
    ensures Settled(t, lo, i, n, cmp)
  {
    forall x, y | lo <= x < y < lo + n && y >= lo + i
      ensures cmp(t[x], t[y]) <= 0
    {
      var x' := x;
      if x < lo + i { x' := RearrangedFrom(s, t, lo, lo + i, x); }
      assert s[x'] == t[x] && s[y] == t[y];
    }
  }

  /** After the swap only the root may be out of order. */
  lemma RootOut<T(!new)>(s: seq<T>, lo: int, i: int, cmp: (T, T) -> int)
    requires 0 <= lo && lo + i + 1 <= |s| && 0 < i && HeapFrom(s, lo, i + 1, cmp, 0)
    ensures HeapBut(Swapped(s, lo, lo + i), lo, i, cmp, 0, 0)
  {
    var t := Swapped(s, lo, lo + i);
    assert forall k :: 1 <= k < i ==> At(t, lo, k) == At(s, lo, k);
    forall k | 0 <= k < i && k != 0
      ensures ParentOk(t, lo, i, cmp, k)
    {
      assert ParentOk(s, lo, i + 1, cmp, k);
    }
  }

  /** One round of the second loop: the root moves to the end of the heap. */
  method ExtractRoot<T(!new)>(a: array<T>, lo: nat, i: nat, n: nat, cmp: (T, T) -> int)
    requires TotalPreorder(cmp) && lo + n <= a.Length && 0 < i < n
    requires HeapFrom(a[..], lo, i + 1, cmp, 0) && Settled(a[..], lo, i + 1, n, cmp)
    modifies a
    ensures Rearranged(old(a[..]), a[..], lo, lo + n)
    ensures HeapFrom(a[..], lo, i, cmp, 0) && Settled(a[..], lo, i, n, cmp)
  {
    hide TotalPreorder, HeapBut, HeapFrom, Rearranged, Settled, Swapped;
    ghost var was := a[..];
    SettleRoot(was, lo, i, n, cmp);
    RootOut(was, lo, i, cmp);
    SwapRearranges(was, lo, lo + i, lo, lo + n);
    SwapAt(a, lo, lo + i);
    ghost var mid := a[..];
    SiftDown(a, lo, i, cmp, 0);
    SettledRearranged(mid, a[..], lo, i, n, cmp);
    RearrangedWider(mid, a[..], lo, lo + i, lo, lo + n);
    RearrangedTrans(was, mid, a[..], lo, lo + n);
  }

  /** heapsortx */
  method Heapsortx<T(!new)>(a: array<T>, lo: nat, n: nat, cmp: (T, T) -> int)
    requires TotalPreorder(cmp) && lo + n <= a.Length
    modifies a
    ensures Rearranged(old(a[..]), a[..], lo, lo + n)
    ensures SortedIn(a[..], lo, lo + n, cmp)
  {
    hide TotalPreorder, HeapBut, HeapFrom, Rearranged, Settled;
    RearrangedSelf(a[..], lo, lo + n);
    if n > 1 {
      BuildHeap(a, lo, n, cmp);
      var i := n - 1;
      AllHeap(a[..], lo, n, cmp);
      while i > 0
        invariant 0 <= i < n && Rearranged(old(a[..]), a[..], lo, lo + n)
        invariant HeapFrom(a[..], lo, i + 1, cmp, 0) && Settled(a[..], lo, i + 1, n, cmp)
      {
        ghost var was := a[..];
        ExtractRoot(a, lo, i, n, cmp);
        RearrangedTrans(old(a[..]), was, a[..], lo, lo + n);
        i := i - 1;
      }
    }
    AllSettled(a[..], lo, n, cmp);
  }

  lemma AllHeap<T>(s: seq<T>, lo: int, n: int, cmp: (T, T) -> int)
    requires 0 <= lo && lo + n <= |s|
    ensures Settled(s, lo, n, n, cmp)
  {
  }

  lemma AllSettled<T>(s: seq<T>, lo: int, n: int, cmp: (T, T) -> int)
    requires 0 <= lo && lo + n <= |s| && 0 <= n && (n > 1 ==> Settled(s, lo, 1, n, cmp))
    ensures SortedIn(s, lo, lo + n, cmp)
  {
  }

  /** The first loop: heaps from the last parent down to the root. */
  method BuildHeap<T(!new)>(a: array<T>, lo: nat, n: nat, cmp: (T, T) -> int)
    requires TotalPreorder(cmp) && lo + n <= a.Length && n > 1
    modifies a
    ensures Rearranged(old(a[..]), a[..], lo, lo + n)
    ensures HeapFrom(a[..], lo, n, cmp, 0)
  {
    hide TotalPreorder, HeapBut, HeapFrom, Rearranged;
    var i := n / 2;
    RearrangedSelf(a[..], lo, lo + n);
    Leaves(a[..], lo, n, cmp);
    while i > 0
      invariant 0 <= i <= n / 2 && Rearranged(old(a[..]), a[..], lo, lo + n)
      invariant HeapFrom(a[..], lo, n, cmp, i)
    {
      i := i - 1;
      ghost var was := a[..];
      NextRoot(was, lo, n, cmp, i);
      SiftDown(a, lo, n, cmp, i);
      RearrangedTrans(old(a[..]), was, a[..], lo, lo + n);
    }
  }

  lemma Leaves<T>(s: seq<T>, lo: int, n: int, cmp: (T, T) -> int)
    requires 0 <= lo && lo + n <= |s| && n > 1
    ensures HeapFrom(s, lo, n, cmp, n / 2)
  {
  }

  lemma NextRoot<T>(s: seq<T>, lo: int, n: int, cmp: (T, T) -> int, i: int)
    requires 0 <= lo && lo + n <= |s| && 0 <= i < n && HeapFrom(s, lo, n, cmp, i + 1)
    ensures HeapBut(s, lo, n, cmp, i, i)
  {
  }
}
