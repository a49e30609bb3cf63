/** What the sorting code keeps: rearrangements of a stretch of an array, order up
    to a comparator, and order up to stretches still to be sorted. */
module SortSpec {
  /** A comparator that orders all values, possibly with ties. */
  ghost predicate TotalPreorder<T(!new)>(cmp: (T, T) -> int)
  {
    && (forall x, y :: cmp(x, y) <= 0 <==> cmp(y, x) >= 0)
    && (forall x, y, z :: cmp(x, y) <= 0 && cmp(y, z) <= 0 ==> cmp(x, z) <= 0)
  }

  /** Outside lo..hi nothing changed, inside the elements were rearranged. */
  ghost predicate Rearranged<T>(s: seq<T>, t: seq<T>, lo: int, hi: int)
  {
    && |s| == |t| && 0 <= lo <= hi <= |s|
    && (forall k :: 0 <= k < |s| && !(lo <= k < hi) ==> s[k] == t[k])
    && multiset(s[lo..hi]) == multiset(t[lo..hi])
  }

  lemma RearrangedSelf<T>(s: seq<T>, lo: int, hi: int)
    requires 0 <= lo <= hi <= |s|
    ensures Rearranged(s, s, lo, hi)
  {
  }

  lemma RearrangedTrans<T>(s: seq<T>, t: seq<T>, u: seq<T>, lo: int, hi: int)
    requires Rearranged(s, t, lo, hi) && Rearranged(t, u, lo, hi)
    ensures Rearranged(s, u, lo, hi)
  {
  }

  /** A rearrangement of a part is one of the whole. */
  lemma RearrangedWider<T>(s: seq<T>, t: seq<T>, lo: int, hi: int, lo': int, hi': int)
    requires Rearranged(s, t, lo, hi) && 0 <= lo' <= lo && hi <= hi' <= |s|
    ensures Rearranged(s, t, lo', hi')
  {
    assert s[lo'..hi'] == s[lo'..lo] + s[lo..hi] + s[hi..hi'];
    assert t[lo'..hi'] == t[lo'..lo] + t[lo..hi] + t[hi..hi'];
    assert s[lo'..lo] == t[lo'..lo] && s[hi..hi'] == t[hi..hi'];
  }

  ghost function Swapped<T>(s: seq<T>, i: int, j: int): (t: seq<T>)
    requires 0 <= i < |s| && 0 <= j < |s|
  {
    s[i := s[j]][j := s[i]]
  }

  /** Exchange two elements. */
  method SwapAt<T>(a: array<T>, i: nat, j: nat)
    requires i < a.Length && j < a.Length
    modifies a
    ensures a[..] == Swapped(old(a[..]), i, j)
  {
    a[i], a[j] := a[j], a[i];
  }

  lemma SwapRearranges<T>(s: seq<T>, i: int, j: int, lo: int, hi: int)
    requires 0 <= lo <= i < hi <= |s| && lo <= j < hi
    ensures Rearranged(s, Swapped(s, i, j), lo, hi)
  {
    var t := Swapped(s, i, j);
    if i < j { SwapMultiset(s, t, i, j, lo, hi); }
    else if j < i { SwapMultiset(s, t, j, i, lo, hi); }
    else { assert t == s; }
  }

  lemma SwapMultiset<T>(s: seq<T>, t: seq<T>, i: int, j: int, lo: int, hi: int)
    requires 0 <= lo <= i < j < hi <= |s| && t == s[i := s[j]][j := s[i]]
    ensures multiset(s[lo..hi]) == multiset(t[lo..hi])
  {
    assert s[lo..hi] == s[lo..i] + [s[i]] + s[i + 1..j] + [s[j]] + s[j + 1..hi];
    assert t[lo..hi] == s[lo..i] + [s[j]] + s[i + 1..j] + [s[i]] + s[j + 1..hi];
  }

  /** Every element after a rearrangement was there before. */
  lemma RearrangedFrom<T>(s: seq<T>, t: seq<T>, lo: int, hi: int, i: int) returns (k: int)
    requires Rearranged(s, t, lo, hi) && lo <= i < hi
    ensures lo <= k < hi && s[k] == t[i]
  {
    assert t[i] in t[lo..hi] by { assert t[lo..hi][i - lo] == t[i]; }
    assert t[i] in multiset(s[lo..hi]);
    assert t[i] in s[lo..hi];
    var m :| 0 <= m < hi - lo && s[lo..hi][m] == t[i];
    k := lo + m;
  }

  ghost predicate SortedIn<T>(s: seq<T>, lo: int, hi: int, cmp: (T, T) -> int)
    requires 0 <= lo <= hi <= |s|
  {
    forall i, j :: lo <= i < j < hi ==> cmp(s[i], s[j]) <= 0
  }

  // ---- order up to pending stretches -------------------------------------------------------------

  /** The stretch lo..hi. */
  datatype Segment = Segment(lo: int, hi: int)

  ghost predicate Apart(s: Segment, t: Segment)
  {
    s.hi <= t.lo || t.hi <= s.lo
  }

  ghost predicate Pending(segs: seq<Segment>, n: int)
  {
    && (forall k :: 0 <= k < |segs| ==> 0 <= segs[k].lo <= segs[k].hi <= n)
    && (forall k, m :: 0 <= k < m < |segs| ==> Apart(segs[k], segs[m]))
  }

  ghost predicate Together(segs: seq<Segment>, i: int, j: int)
  {
    exists k :: 0 <= k < |segs| && segs[k].lo <= i && j < segs[k].hi
  }

  /** Any two elements are in order, unless some pending stretch holds both. */
  ghost predicate OrderedBut<T>(a: seq<T>, cmp: (T, T) -> int, segs: seq<Segment>)
  {
    forall i, j :: 0 <= i < j < |a| ==> cmp(a[i], a[j]) <= 0 || Together(segs, i, j)
  }

  /** A pair with one end in the last stretch is together in no other. */
  lemma OneInside(segs: seq<Segment>, s: Segment, n: int, i: int, j: int)
    requires Pending(segs + [s], n) && i < j && (s.lo <= i < s.hi <= j || i < s.lo <= j < s.hi)
    ensures !Together(segs + [s], i, j)
  {
    assert (segs + [s])[|segs|] == s;
  }

  /** Rearranging the last stretch keeps the order around it. */
  lemma RearrangePending<T>(a: seq<T>, b: seq<T>, cmp: (T, T) -> int, segs: seq<Segment>, s: Segment)
    requires Pending(segs + [s], |a|) && OrderedBut(a, cmp, segs + [s]) && Rearranged(a, b, s.lo, s.hi)
    ensures OrderedBut(b, cmp, segs + [s])
  {
    hide Pending, Rearranged, Together, OrderedBut;
    forall i, j | 0 <= i < j < |b|
      ensures cmp(b[i], b[j]) <= 0 || Together(segs + [s], i, j)
    {
      PairKept(a, b, cmp, segs, s, i, j);
    }
    OrderedFrom(b, cmp, segs + [s]);
  }

  lemma OrderedFrom<T>(b: seq<T>, cmp: (T, T) -> int, segs: seq<Segment>)
    requires forall i, j :: 0 <= i < j < |b| ==> cmp(b[i], b[j]) <= 0 || Together(segs, i, j)
    ensures OrderedBut(b, cmp, segs)
  {
  }

  lemma PairKept<T>(a: seq<T>, b: seq<T>, cmp: (T, T) -> int, segs: seq<Segment>, s: Segment, i: int, j: int)
    requires Pending(segs + [s], |a|) && OrderedBut(a, cmp, segs + [s]) && Rearranged(a, b, s.lo, s.hi)
    requires 0 <= i < j < |b|
    ensures cmp(b[i], b[j]) <= 0 || Together(segs + [s], i, j)
  {
    hide Pending, OrderedBut;
    var x, y := i, j;
    if s.lo <= i < s.hi && s.lo <= j < s.hi {
      InsideTogether(segs, s, i, j);
    } else {
      if s.lo <= i < s.hi {
        x := RearrangedFrom(a, b, s.lo, s.hi, i);
        OneInside(segs, s, |a|, x, y);
      } else if s.lo <= j < s.hi {
        y := RearrangedFrom(a, b, s.lo, s.hi, j);
        OneInside(segs, s, |a|, x, y);
      }
      OrderedPair(a, cmp, segs + [s], x, y);
    }
  }

  lemma InsideTogether(segs: seq<Segment>, s: Segment, i: int, j: int)
    requires s.lo <= i && j < s.hi
    ensures Together(segs + [s], i, j)
  {
    assert (segs + [s])[|segs|] == s;
  }

  lemma OrderedPair<T>(a: seq<T>, cmp: (T, T) -> int, segs: seq<Segment>, i: int, j: int)
    requires OrderedBut(a, cmp, segs) && 0 <= i < j < |a|
    ensures cmp(a[i], a[j]) <= 0 || Together(segs, i, j)
  {
  }

  /** A sorted stretch is no longer pending. */
  lemma FinishPending<T>(a: seq<T>, cmp: (T, T) -> int, segs: seq<Segment>, s: Segment)
    requires Pending(segs + [s], |a|) && OrderedBut(a, cmp, segs + [s])
    requires 0 <= s.lo <= s.hi <= |a| && SortedIn(a, s.lo, s.hi, cmp)
    ensures Pending(segs, |a|) && OrderedBut(a, cmp, segs)
  {
    forall i, j | 0 <= i < j < |a|
      ensures cmp(a[i], a[j]) <= 0 || Together(segs, i, j)
    {
      OrderedPair(a, cmp, segs + [s], i, j);
      if Together(segs + [s], i, j) {
        var k :| 0 <= k < |segs + [s]| && (segs + [s])[k].lo <= i && j < (segs + [s])[k].hi;
        if k < |segs| { assert segs[k].lo <= i && j < segs[k].hi; }
      }
    }
    PendingShorter(segs, s, |a|);
  }

  lemma PendingShorter(segs: seq<Segment>, s: Segment, n: int)
    requires Pending(segs + [s], n)
    ensures Pending(segs, n)
  {
    var all := segs + [s];
    forall k | 0 <= k < |segs| ensures segs[k] == all[k] {}
    forall k, m | 0 <= k < m < |segs|
      ensures Apart(segs[k], segs[m])
    {
      assert Apart(all[k], all[m]);
    }
  }

  // ---- splitting around a pivot -----------------------------------------------------------------------

  /** Smaller than the pivot up to l, equal to it up to g, greater after it. */
  ghost predicate Parted<T>(a: seq<T>, cmp: (T, T) -> int, v: T, s: Segment, l: int, g: int)
  {
    && 0 <= s.lo <= l <= g <= s.hi <= |a|
    && (forall k :: s.lo <= k < l ==> cmp(v, a[k]) > 0)
    && (forall k :: l <= k < g ==> cmp(v, a[k]) == 0)
    && (forall k :: g <= k < s.hi ==> cmp(v, a[k]) < 0)
  }

  /** Two elements of a parted stretch are in order unless both are smaller or both
      are greater than the pivot. */
  lemma PartedPair<T(!new)>(a: seq<T>, cmp: (T, T) -> int, v: T, s: Segment, l: int, g: int, i: int, j: int)
    requires TotalPreorder(cmp) && Parted(a, cmp, v, s, l, g) && s.lo <= i < j < s.hi
    requires j >= l && i < g
    ensures cmp(a[i], a[j]) <= 0
  {
    assert cmp(v, a[i]) >= 0;
    assert cmp(v, a[j]) <= 0;
  }

  lemma SplitPair<T(!new)>(a: seq<T>, cmp: (T, T) -> int, segs: seq<Segment>, s: Segment, v: T, l: int, g: int,
                           rest: seq<Segment>, i: int, j: int)
    requires TotalPreorder(cmp) && Parted(a, cmp, v, s, l, g)
    requires Pending(segs + [s], |a|) && OrderedBut(a, cmp, segs + [s])
    requires rest == segs + [Segment(s.lo, l)] + [Segment(g, s.hi)]
             || rest == segs + [Segment(g, s.hi)] + [Segment(s.lo, l)]
    requires 0 <= i < j < |a|
    ensures cmp(a[i], a[j]) <= 0 || Together(rest, i, j)
  {
    hide Parted, TotalPreorder, Pending, OrderedBut;
    OrderedPair(a, cmp, segs + [s], i, j);
    if Together(segs + [s], i, j) {
      var k :| 0 <= k < |segs + [s]| && (segs + [s])[k].lo <= i && j < (segs + [s])[k].hi;
      if k < |segs| {
        assert rest[k] == segs[k];
      } else {
        assert rest[|segs|] in {Segment(s.lo, l), Segment(g, s.hi)};
        assert rest[|segs| + 1] in {Segment(s.lo, l), Segment(g, s.hi)};
        if l <= j && i < g {
          PartedPair(a, cmp, v, s, l, g, i, j);
        } else {
          assert Together(rest, i, j);
        }
      }
    }
  }

  /** A parted stretch leaves its two outer parts pending. */
  lemma SplitPending<T(!new)>(a: seq<T>, cmp: (T, T) -> int, segs: seq<Segment>, s: Segment, v: T, l: int, g: int,
                              rest: seq<Segment>)
    requires TotalPreorder(cmp) && Parted(a, cmp, v, s, l, g)
    requires Pending(segs + [s], |a|) && OrderedBut(a, cmp, segs + [s])
    requires rest == segs + [Segment(s.lo, l)] + [Segment(g, s.hi)]
             || rest == segs + [Segment(g, s.hi)] + [Segment(s.lo, l)]
    ensures Pending(rest, |a|) && OrderedBut(a, cmp, rest)
  {
    hide TotalPreorder, OrderedBut, Together;
    forall i, j | 0 <= i < j < |a|
      ensures cmp(a[i], a[j]) <= 0 || Together(rest, i, j)
    {
      SplitPair(a, cmp, segs, s, v, l, g, rest, i, j);
    }
    OrderedFrom(a, cmp, rest);
    SplitApart(segs, s, |a|, l, g, rest);
  }

  lemma SplitApart(segs: seq<Segment>, s: Segment, n: int, l: int, g: int, rest: seq<Segment>)
    requires Pending(segs + [s], n) && s.lo <= l <= g <= s.hi
    requires rest == segs + [Segment(s.lo, l)] + [Segment(g, s.hi)]
             || rest == segs + [Segment(g, s.hi)] + [Segment(s.lo, l)]
    ensures Pending(rest, n)
  {
    var all := segs + [s];
    assert all[|segs|] == s;
    assert forall k :: 0 <= k < |segs| ==> all[k] == segs[k] == rest[k] && Apart(all[k], all[|segs|]);
    forall k, m | 0 <= k < m < |rest|
      ensures Apart(rest[k], rest[m])
    {
      if m < |segs| { assert Apart(all[k], all[m]); }
    }
  }
}
