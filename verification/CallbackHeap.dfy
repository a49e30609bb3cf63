/** The binary heap of dyna:container, ordered by a callback that may answer
    anything, throw, or close the heap in the middle of a sift. */
module CallbackHeap {
  import opened SortSpec
  import opened Common

  /** A call on the heap. */
  datatype Call<T> = CallPush(value: T, room: bool) | CallPop | CallClose

  /** What the comparator does when it is asked: calls on the very heap that is
      being sifted, then an answer or an exception. */
  datatype Reply<T> = Reply(calls: seq<Call<T>>, order: int, throws: bool)

  /** The comparator's behaviour, which may differ at its n-th call. */
  type Policy<!T> = (nat, T, T) -> Reply<T>

  /** It only answers, and answers by a total preorder. */
  ghost predicate WellBehaved<T(!new)>(p: Policy<T>, cmp: (T, T) -> int)
  {
    TotalPreorder(cmp) && forall n: nat, x: T, y: T :: p(n, x, y) == Reply([], cmp(x, y), false)
  }

  lemma WellOrdered<T(!new)>(p: Policy<T>, cmp: (T, T) -> int)
    requires WellBehaved(p, cmp)
    ensures TotalPreorder(cmp)
  {
  }

  // ---- heap order -----------------------------------------------------------------------------------

  /** The node k is not smaller than its parent. */
  ghost predicate NodeOk<T>(s: seq<T>, cmp: (T, T) -> int, k: int)
    requires 0 <= k < |s|
  {
    k > 0 ==> cmp(s[(k - 1) / 2], s[k]) <= 0
  }

  ghost predicate HeapOrder<T>(s: seq<T>, cmp: (T, T) -> int)
  {
    forall k :: 0 <= k < |s| ==> NodeOk(s, cmp, k)
  }

  /** In order but for the node i, whose children its parent does not exceed. */
  ghost predicate OrderUp<T>(s: seq<T>, cmp: (T, T) -> int, i: int)
    requires 0 <= i < |s|
  {
    && (forall k :: 0 <= k < |s| && k != i ==> NodeOk(s, cmp, k))
    && (i > 0 ==> forall k :: 0 < k < |s| && (k - 1) / 2 == i ==> cmp(s[(i - 1) / 2], s[k]) <= 0)
  }

  /** In order but for the children of the node i, which its parent does not
      exceed. */
  ghost predicate OrderDown<T>(s: seq<T>, cmp: (T, T) -> int, i: int)
    requires 0 <= i < |s|
  {
    && (forall k :: 0 <= k < |s| && !(k > 0 && (k - 1) / 2 == i) ==> NodeOk(s, cmp, k))
    && (i > 0 ==> forall k :: 0 < k < |s| && (k - 1) / 2 == i ==> cmp(s[(i - 1) / 2], s[k]) <= 0)
  }

  lemma LeTrans<T(!new)>(cmp: (T, T) -> int, x: T, y: T, z: T)
    requires TotalPreorder(cmp) && cmp(x, y) <= 0 && cmp(y, z) <= 0
    ensures cmp(x, z) <= 0
  {
  }

  lemma Flip<T(!new)>(cmp: (T, T) -> int, x: T, y: T)
    requires TotalPreorder(cmp)
    ensures cmp(x, y) <= 0 || cmp(y, x) <= 0
    ensures cmp(x, y) >= 0 ==> cmp(y, x) <= 0
  {
  }

  lemma UpStep<T(!new)>(s: seq<T>, cmp: (T, T) -> int, i: int)
    requires TotalPreorder(cmp) && 0 < i < |s| && OrderUp(s, cmp, i) && cmp(s[i], s[(i - 1) / 2]) < 0
    ensures OrderUp(Swapped(s, i, (i - 1) / 2), cmp, (i - 1) / 2)
  {
    hide TotalPreorder;
    var p := (i - 1) / 2;
    var t := Swapped(s, i, p);
    assert NodeOk(s, cmp, p);
    forall k | 0 <= k < |t| && k != p
      ensures NodeOk(t, cmp, k)
    {
      if k != i {
        assert NodeOk(s, cmp, k);
        if k > 0 && (k - 1) / 2 == p { LeTrans(cmp, s[i], s[p], s[k]); }
      }
    }
    forall k | p > 0 && 0 < k < |t| && (k - 1) / 2 == p
      ensures cmp(t[(p - 1) / 2], t[k]) <= 0
    {
      if k != i {
        assert NodeOk(s, cmp, k);
        LeTrans(cmp, s[(p - 1) / 2], s[p], s[k]);
      }
    }
  }

  lemma UpDone<T(!new)>(s: seq<T>, cmp: (T, T) -> int, i: int)
    requires TotalPreorder(cmp) && 0 <= i < |s| && OrderUp(s, cmp, i) && (i > 0 ==> cmp(s[i], s[(i - 1) / 2]) >= 0)
    ensures HeapOrder(s, cmp)
  {
    if i > 0 { Flip(cmp, s[i], s[(i - 1) / 2]); }
    assert NodeOk(s, cmp, i);
  }

  lemma DownStep<T(!new)>(s: seq<T>, cmp: (T, T) -> int, i: int, c: int)
    requires TotalPreorder(cmp) && 0 <= i < |s| && OrderDown(s, cmp, i) && c in {2 * i + 1, 2 * i + 2} && c < |s|
    requires cmp(s[c], s[i]) < 0 && forall k :: 0 < k < |s| && (k - 1) / 2 == i ==> cmp(s[c], s[k]) <= 0
    ensures OrderDown(Swapped(s, i, c), cmp, c)
  {
    hide TotalPreorder;
    var t := Swapped(s, i, c);
    forall k | 0 <= k < |t| && !(k > 0 && (k - 1) / 2 == c)
      ensures NodeOk(t, cmp, k)
    {
      if !(k > 0 && (k - 1) / 2 == i) { assert NodeOk(s, cmp, k); }
    }
    assert (c - 1) / 2 == i;
    forall k | 0 < k < |t| && (k - 1) / 2 == c
      ensures cmp(t[(c - 1) / 2], t[k]) <= 0
    {
      assert NodeOk(s, cmp, k);
    }
  }

  lemma DownDone<T(!new)>(s: seq<T>, cmp: (T, T) -> int, i: int)
    requires 0 <= i < |s| && OrderDown(s, cmp, i)
    requires forall k :: 0 < k < |s| && (k - 1) / 2 == i ==> cmp(s[i], s[k]) <= 0
    ensures HeapOrder(s, cmp)
  {
    forall k | 0 <= k < |s|
      ensures NodeOk(s, cmp, k)
    {
    }
  }

  lemma {:induction false} RootSmallest<T(!new)>(s: seq<T>, cmp: (T, T) -> int, k: int)
    requires TotalPreorder(cmp) && HeapOrder(s, cmp) && 0 <= k < |s|
    ensures cmp(s[0], s[k]) <= 0
    decreases k
  {
    if k == 0 {
      assert cmp(s[0], s[0]) <= 0 <==> cmp(s[0], s[0]) >= 0;
    } else {
      assert NodeOk(s, cmp, k);
      RootSmallest(s, cmp, (k - 1) / 2);
    }
  }

  lemma PushOrder<T>(s: seq<T>, cmp: (T, T) -> int, v: T)
    requires HeapOrder(s, cmp)
    ensures OrderUp(s + [v], cmp, |s|)
  {
    var t := s + [v];
    forall k | 0 <= k < |t| && k != |s|
      ensures NodeOk(t, cmp, k)
    {
      assert NodeOk(s, cmp, k);
    }
  }

  /** The root replaced by the last element. */
  ghost function WithoutRoot<T>(s: seq<T>): seq<T>
    requires |s| > 0
  {
    if |s| == 1 then [] else [s[|s| - 1]] + s[1..|s| - 1]
  }

  lemma PopOrder<T>(s: seq<T>, cmp: (T, T) -> int)
    requires HeapOrder(s, cmp) && |s| > 1
    ensures OrderDown(WithoutRoot(s), cmp, 0)
  {
    var t := WithoutRoot(s);
    forall k | 0 <= k < |t| && !(k > 0 && (k - 1) / 2 == 0)
      ensures NodeOk(t, cmp, k)
    {
      assert NodeOk(s, cmp, k);
    }
  }

  // ---- the ledger ------------------------------------------------------------------------------------

  /** Every reference taken in is in exactly one place: stored, freed, handed to a
      caller, or in the hands of a pop that is still sifting. A closed heap stores
      none. */
  ghost predicate Balanced<T>(open: bool, items: seq<T>, pushed: multiset<T>, released: multiset<T>,
                              handed: multiset<T>, held: multiset<T>)
  {
    pushed == multiset(items) + released + handed + held && (!open ==> items == [])
  }

  lemma PushLedger<T>(items: seq<T>, pushed: multiset<T>, released: multiset<T>, handed: multiset<T>,
                      held: multiset<T>, v: T)
    requires Balanced(true, items, pushed, released, handed, held)
    ensures Balanced(true, items + [v], pushed + multiset{v}, released, handed, held)
    ensures multiset(items + [v]) == multiset(items) + multiset{v}
  {
  }

  lemma RootLedger<T>(s: seq<T>)
    requires |s| > 0
    ensures |WithoutRoot(s)| == |s| - 1 && multiset(s) == multiset(WithoutRoot(s)) + multiset{s[0]}
  {
    if |s| == 1 {
      assert s == [s[0]];
    } else {
      assert s == [s[0]] + s[1..|s| - 1] + [s[|s| - 1]];
    }
  }

  lemma PopLedger<T>(items: seq<T>, pushed: multiset<T>, released: multiset<T>, handed: multiset<T>,
                     held: multiset<T>)
    requires |items| > 0 && Balanced(true, items, pushed, released, handed, held)
    ensures Balanced(true, WithoutRoot(items), pushed, released, handed, held + multiset{items[0]})
  {
    RootLedger(items);
  }

  /** The popped reference is freed or handed over. */
  lemma SettleLedger<T>(open: bool, items: seq<T>, pushed: multiset<T>, released: multiset<T>, handed: multiset<T>,
                        held: multiset<T>, v: T)
    requires Balanced(open, items, pushed, released, handed, held + multiset{v})
    ensures Balanced(open, items, pushed, released + multiset{v}, handed, held)
    ensures Balanced(open, items, pushed, released, handed + multiset{v}, held)
  {
  }

  lemma SwapLedger<T>(s: seq<T>, i: int, j: int)
    requires 0 <= i < |s| && 0 <= j < |s|
    ensures multiset(Swapped(s, i, j)) == multiset(s)
  {
    SwapRearranges(s, i, j, 0, |s|);
    assert s[0..|s|] == s && Swapped(s, i, j)[0..|s|] == Swapped(s, i, j);
  }

  /** The outcome of asking about one child. */
  ghost predicate IsBetter<T>(s: seq<T>, cmp: (T, T) -> int, child: nat, best: nat, smallest: nat)
    requires best < |s|
  {
    smallest == if child < |s| && cmp(s[child], s[best]) < 0 then child else best
  }

  /** Both children asked: the smallest of the three is found. */
  lemma DownCase<T(!new)>(s: seq<T>, cmp: (T, T) -> int, i: nat, best: nat, c: nat)
    requires TotalPreorder(cmp) && i < |s| && OrderDown(s, cmp, i)
    requires IsBetter(s, cmp, 2 * i + 1, i, best) && IsBetter(s, cmp, 2 * i + 2, best, c)
    ensures c == i ==> HeapOrder(s, cmp)
    ensures c != i ==> i < c < |s| && OrderDown(Swapped(s, i, c), cmp, c)
  {
    forall k | 0 < k < |s| && (k - 1) / 2 == i
      ensures cmp(s[c], s[k]) <= 0
    {
      assert k == 2 * i + 1 || k == 2 * i + 2;
      SmallestOf(s, cmp, i, best, c);
    }
    if c == i { DownDone(s, cmp, i); } else { SmallestOf(s, cmp, i, best, c); DownStep(s, cmp, i, c); }
  }

  lemma SmallestOf<T(!new)>(s: seq<T>, cmp: (T, T) -> int, i: nat, best: nat, c: nat)
    requires TotalPreorder(cmp) && i < |s|
    requires IsBetter(s, cmp, 2 * i + 1, i, best) && IsBetter(s, cmp, 2 * i + 2, best, c)
    ensures c < |s| && cmp(s[c], s[i]) <= 0 && (c != i ==> cmp(s[c], s[i]) < 0)
    ensures 2 * i + 1 < |s| ==> cmp(s[c], s[2 * i + 1]) <= 0
    ensures 2 * i + 2 < |s| ==> cmp(s[c], s[2 * i + 2]) <= 0
  {
    assert forall k :: 0 <= k < |s| ==> cmp(s[k], s[k]) <= 0;
  }

  lemma PushOrderIf<T(!new)>(s: seq<T>, cmp: (T, T) -> int, v: T)
    ensures HeapOrder(s, cmp) ==> OrderUp(s + [v], cmp, |s|)
  {
    if HeapOrder(s, cmp) { PushOrder(s, cmp, v); }
  }

  ghost predicate Smallest<T>(s: seq<T>, cmp: (T, T) -> int, x: T)
  {
    forall y :: y in s ==> cmp(x, y) <= 0
  }

  lemma PopOrderIf<T(!new)>(s: seq<T>, cmp: (T, T) -> int)
    requires |s| > 0
    ensures HeapOrder(s, cmp) && |s| > 1 ==> OrderDown(WithoutRoot(s), cmp, 0)
    ensures |s| == 1 ==> HeapOrder(WithoutRoot(s), cmp)
    ensures HeapOrder(s, cmp) && TotalPreorder(cmp) ==> Smallest(s, cmp, s[0])
  {
    if HeapOrder(s, cmp) && |s| > 1 { PopOrder(s, cmp); }
    if HeapOrder(s, cmp) && TotalPreorder(cmp) {
      forall x | x in s ensures cmp(s[0], x) <= 0 {
        var k :| 0 <= k < |s| && s[k] == x;
        RootSmallest(s, cmp, k);
      }
    }
  }

  // ---- the heap --------------------------------------------------------------------------------------

  class Heap<T(!new)> {
    const policy: Policy<T>
    ghost const cmp: (T, T) -> int
    var open: bool
    var items: seq<T>
    var busy: bool
    var clock: nat
    /** References taken in, freed, handed to a caller, and in the hands of a pop
        that is still sifting. */
    ghost var pushed: multiset<T>
    ghost var released: multiset<T>
    ghost var handed: multiset<T>
    ghost var held: multiset<T>

    ghost predicate Ledger()
      reads this
    {
      Balanced(open, items, pushed, released, handed, held)
    }

    constructor (policy: Policy<T>, ghost cmp: (T, T) -> int)
      ensures this.policy == policy && this.cmp == cmp && open && !busy && items == []
      ensures Ledger() && pushed == released == handed == held == multiset{}
    {
      this.policy, this.cmp := policy, cmp;
      open, busy, items, clock := true, false, [], 0;
      pushed, released, handed, held := multiset{}, multiset{}, multiset{}, multiset{};
    }

    /** A slot of the item array, which is freed with the heap. */
    function At(i: nat): (x: T)
      requires open && i < |items|
      reads this
      ensures x == items[i]
    {
      items[i]
    }

    method Swap(i: nat, j: nat)
      requires Ledger() && open && i < |items| && j < |items|
      modifies `items
      ensures Ledger() && items == Swapped(old(items), i, j) && |items| == |old(items)|
              && multiset(items) == old(multiset(items))
    {
      SwapLedger(items, i, j);
      items := items[i := At(j)][j := At(i)];
    }

    /** Free every stored reference; a second close does nothing. */
    method Close()
      requires Ledger()
      modifies `open, `items, `released
      ensures Ledger() && !open && pushed == released + handed + held
      ensures !old(open) ==> released == old(released)
    {
      if open {
        released := released + multiset(items);
        items, open := [], false;
      }
    }

    /** A call the comparator makes on the heap being sifted: only a close gets
        through. */
    method Serve(call: Call<T>)
      requires Ledger() && busy
      modifies this
      ensures Ledger() && pushed == old(pushed) && handed == old(handed) && held == old(held) && busy
      ensures open ==> old(open) && items == old(items) && released == old(released)
      decreases 0, 1
    {
      hide Balanced, WellBehaved, HeapOrder, Smallest;
      match call {
        case CallPush(v, room) => var _ := Push(v, room);
        case CallPop => var _ := Pop();
        case CallClose => Close();
      }
    }

    /** One call of the comparator: it may push to, pop or close this heap. */
    method Ask(x: T, y: T) returns (c: int, err: bool)
      requires Ledger() && open && busy
      modifies this
      ensures Ledger() && pushed == old(pushed) && handed == old(handed) && held == old(held) && busy
      ensures open ==> items == old(items) && released == old(released)
      ensures WellBehaved(policy, cmp) ==> open && !err && c == cmp(x, y)
      decreases 1, 0
    {
      hide Balanced;
      var reply := policy(clock, x, y);
      clock := clock + 1;
      var i := 0;
      while i < |reply.calls|
        invariant i <= |reply.calls| && busy
        invariant Ledger() && pushed == old(pushed) && handed == old(handed) && held == old(held)
        invariant open ==> items == old(items) && released == old(released)
        invariant reply.calls == [] ==> open
        decreases |reply.calls| - i
      {
        Serve(reply.calls[i]);
        i := i + 1;
      }
      c, err := reply.order, reply.throws;
    }

    method SiftUp(at: nat) returns (ok: bool)
      requires Ledger() && open && at < |items|
      modifies this
      ensures Ledger() && pushed == old(pushed) && handed == old(handed) && held == old(held)
      ensures open ==> !busy && multiset(items) == old(multiset(items)) && released == old(released)
      ensures ok ==> open
      ensures WellBehaved(policy, cmp) && OrderUp(old(items), cmp, at) ==> ok && HeapOrder(items, cmp)
      decreases 2
    {
      hide WellBehaved, Balanced, OrderUp, TotalPreorder, HeapOrder, Swapped;
      var idx: nat := at;
      busy := true;
      ghost var was, start := multiset(items), items;
      while idx > 0
        invariant idx < |items| == |start|
        invariant open && busy && multiset(items) == was && released == old(released)
        invariant Ledger() && pushed == old(pushed) && handed == old(handed) && held == old(held)
        invariant WellBehaved(policy, cmp) && OrderUp(start, cmp, at) ==> OrderUp(items, cmp, idx)
      {
        var parent := (idx - 1) / 2;
        var c, err := Ask(At(idx), At(parent));
        if !open { return false; }
        if err {
          busy := false;
          return false;
        }
        if c >= 0 { break; }
        if WellBehaved(policy, cmp) && OrderUp(start, cmp, at) { WellOrdered(policy, cmp); UpStep(items, cmp, idx); }
        Swap(idx, parent);
        idx := parent;
      }
      busy := false;
      ok := true;
      if WellBehaved(policy, cmp) && OrderUp(start, cmp, at) { WellOrdered(policy, cmp); UpDone(items, cmp, idx); }
    }

    /** One child of a sift down: ask whether it belongs above the best so far. */
    method Better(child: nat, best: nat) returns (ok: bool, smallest: nat)
      requires Ledger() && open && busy && best < |items|
      modifies this
      ensures Ledger() && pushed == old(pushed) && handed == old(handed) && held == old(held)
      ensures open ==> items == old(items) && released == old(released) && busy == ok
      ensures ok ==> open && smallest < |items| && (smallest == best || smallest == child)
      ensures WellBehaved(policy, cmp) ==> ok && IsBetter(old(items), cmp, child, best, smallest)
      decreases 1, 1
    {
      smallest := best;
      if child < |items| {
        var c, err := Ask(At(child), At(best));
        if !open { return false, smallest; }
        if err {
          busy := false;
          return false, smallest;
        }
        if c < 0 { smallest := child; }
      }
      ok := true;
    }

    method SiftDown() returns (ok: bool)
      requires Ledger() && open && |items| > 0
      modifies this
      ensures Ledger() && pushed == old(pushed) && handed == old(handed) && held == old(held)
      ensures open ==> !busy && multiset(items) == old(multiset(items)) && released == old(released)
      ensures ok ==> open
      ensures WellBehaved(policy, cmp) && OrderDown(old(items), cmp, 0) ==> ok && HeapOrder(items, cmp)
      decreases 2
    {
      hide WellBehaved, Balanced, OrderDown, HeapOrder, Swapped, IsBetter, TotalPreorder;
      var idx: nat := 0;
      busy := true;
      ghost var was, start := multiset(items), items;
      while true
        invariant idx < |items| == |start|
        invariant open && busy && multiset(items) == was && released == old(released)
        invariant Ledger() && pushed == old(pushed) && handed == old(handed) && held == old(held)
        invariant WellBehaved(policy, cmp) && OrderDown(start, cmp, 0) ==> OrderDown(items, cmp, idx)
        decreases |start| - idx
      {
        var best, smallest;
        ok, best := Better(2 * idx + 1, idx);
        if !ok { return; }
        ok, smallest := Better(2 * idx + 2, best);
        if !ok { return; }
        if WellBehaved(policy, cmp) && OrderDown(start, cmp, 0) {
          WellOrdered(policy, cmp);
          DownCase(items, cmp, idx, best, smallest);
        }
        if smallest == idx { break; }
        Swap(idx, smallest);
        idx := smallest;
      }
      busy := false;
    }

    /** Store a reference. room says whether the item array could grow. */
    method Push(v: T, room: bool) returns (size: Option<nat>)
      requires Ledger()
      modifies this
      ensures Ledger() && handed == old(handed) && held == old(held)
      ensures !(old(open) && !old(busy) && room) ==> size == None && unchanged(this)
      ensures old(open) && !old(busy) && room ==> pushed == old(pushed) + multiset{v}
      ensures old(open) && !old(busy) && room && open ==>
                !busy && multiset(items) == old(multiset(items)) + multiset{v} && released == old(released)
      ensures size.Some? ==> open && size.value == |items|
      ensures WellBehaved(policy, cmp) && old(open) && !old(busy) && room && HeapOrder(old(items), cmp) ==>
                size.Some? && HeapOrder(items, cmp)
      decreases if open && !busy then 3 else 0, 0
    {
      size := None;
      if !open || busy || !room { return; }
      hide WellBehaved, Balanced, OrderUp, TotalPreorder, HeapOrder;
      PushOrderIf(items, cmp, v);
      PushLedger(items, pushed, released, handed, held, v);
      items := items + [v];
      pushed := pushed + multiset{v};
      var ok := SiftUp(|items| - 1);
      if !ok { return; }
      size := Some(|items|);
    }

    /** Move the root into the caller's hands and the last element into its place. */
    method TakeRoot() returns (v: T)
      requires Ledger() && open && |items| > 0
      modifies `items, `held
      ensures Ledger() && v == old(items[0]) && items == WithoutRoot(old(items)) && held == old(held) + multiset{v}
    {
      hide Balanced;
      v := At(0);
      PopLedger(items, pushed, released, handed, held);
      held := held + multiset{v};
      items := if |items| == 1 then [] else [At(|items| - 1)] + items[1..|items| - 1];
    }

    /** The reference a pop holds goes to the caller, or is freed when the sift failed. */
    ghost method Settle(v: T, ok: bool, rest: multiset<T>)
      requires Ledger() && held == rest + multiset{v}
      modifies `released, `handed, `held
      ensures Ledger() && held == rest
      ensures released == if ok then old(released) else old(released) + multiset{v}
      ensures handed == if ok then old(handed) + multiset{v} else old(handed)
    {
      hide Balanced;
      SettleLedger(open, items, pushed, released, handed, rest, v);
      held := rest;
      if ok { handed := handed + multiset{v}; } else { released := released + multiset{v}; }
    }

    /** Take out the root of a heap that has one. */
    method PopRoot() returns (top: Option<T>)
      requires Ledger() && open && !busy && |items| > 0
      modifies this
      ensures Ledger() && pushed == old(pushed) && held == old(held)
      ensures top.None? ==> handed == old(handed)
      ensures top.Some? ==>
                open && top.value == old(items[0]) && handed == old(handed) + multiset{top.value}
                && multiset(items) + multiset{top.value} == old(multiset(items)) && released == old(released)
      ensures open ==> !busy
      ensures WellBehaved(policy, cmp) && HeapOrder(old(items), cmp) ==>
                top.Some? && HeapOrder(items, cmp) && Smallest(old(items), cmp, top.value)
      decreases 3
    {
      hide WellBehaved, Balanced, OrderDown, HeapOrder, TotalPreorder, Smallest, WithoutRoot;
      RootLedger(items);
      PopOrderIf(items, cmp);
      if WellBehaved(policy, cmp) { WellOrdered(policy, cmp); }
      var v := TakeRoot();
      var ok := true;
      if |items| > 0 { ok := SiftDown(); }
      Settle(v, ok, old(held));
      top := if ok then Some(v) else None;
    }

    /** Take out the root: nothing to do on a closed heap, or while the comparator
        runs; an empty heap gives undefined. */
    method Pop() returns (top: Option<Option<T>>)
      requires Ledger()
      modifies this
      ensures Ledger() && pushed == old(pushed) && held == old(held)
      ensures !old(open) || old(busy) ==> top == None && unchanged(this)
      ensures top == Some(None) <==> old(open) && !old(busy) && old(items) == []
      ensures top == Some(None) ==> unchanged(this)
      ensures top.None? ==> handed == old(handed)
      ensures top.Some? && top.value.Some? ==>
                open && |old(items)| > 0 && top.value.value == old(items[0])
                && handed == old(handed) + multiset{top.value.value}
                && multiset(items) + multiset{top.value.value} == old(multiset(items)) && released == old(released)
      ensures old(open) && !old(busy) && open ==> !busy
      ensures WellBehaved(policy, cmp) && old(open) && !old(busy) && HeapOrder(old(items), cmp) && old(items) != [] ==>
                top.Some? && top.value.Some? && HeapOrder(items, cmp)
                && Smallest(old(items), cmp, top.value.value)
      decreases if open && !busy then 4 else 0, 0
    {
      hide WellBehaved, Balanced, HeapOrder, Smallest;
      if !open || busy { return None; }
      if |items| == 0 { return Some(None); }
      var v := PopRoot();
      top := if v.Some? then Some(v) else None;
    }
  }

  // ---- whole runs --------------------------------------------------------------------------------------

  /** Any calls on a new heap with any comparator, then close: every reference taken
      in was freed once or handed out once, and out is what was handed out. */
  method Run<T(!new)>(policy: Policy<T>, ghost cmp: (T, T) -> int, script: seq<Call<T>>)
    returns (h: Heap<T>, out: seq<T>)
    ensures fresh(h) && !h.open && h.pushed == h.released + multiset(out)
  {
    hide WellBehaved, HeapOrder, Smallest;
    h := new Heap<T>(policy, cmp);
    out := [];
    var i := 0;
    while i < |script|
      invariant i <= |script| && h.Ledger() && (h.open ==> !h.busy)
      invariant h.held == multiset{} && h.handed == multiset(out) && fresh(h)
    {
      match script[i] {
        case CallPush(v, room) => var _ := h.Push(v, room);
        case CallPop =>
          var top := h.Pop();
          if top.Some? && top.value.Some? { out := out + [top.value.value]; }
        case CallClose => h.Close();
      }
      i := i + 1;
    }
    h.Close();
  }

  ghost predicate InOrder<T>(s: seq<T>, cmp: (T, T) -> int)
  {
    forall i, j :: 0 <= i < j < |s| ==> cmp(s[i], s[j]) <= 0
  }

  /** Every element of s comes before every element still stored. */
  ghost predicate Before<T>(s: seq<T>, m: multiset<T>, cmp: (T, T) -> int)
  {
    forall i, y :: 0 <= i < |s| && y in m ==> cmp(s[i], y) <= 0
  }

  lemma PopExtends<T(!new)>(s: seq<T>, m: multiset<T>, m': multiset<T>, cmp: (T, T) -> int, v: T)
    requires InOrder(s, cmp) && Before(s, m, cmp) && m' + multiset{v} == m && forall y :: y in m ==> cmp(v, y) <= 0
    ensures InOrder(s + [v], cmp) && Before(s + [v], m', cmp)
  {
    assert v in m;
    forall y | y in m' ensures y in m { }
  }

  /** With a comparator that behaves, pushing everything and popping everything
      sorts. */
  method PushAllPopAll<T(!new)>(policy: Policy<T>, ghost cmp: (T, T) -> int, s: seq<T>) returns (out: seq<T>)
    requires WellBehaved(policy, cmp)
    ensures multiset(out) == multiset(s) && InOrder(out, cmp)
  {
    hide WellBehaved, HeapOrder, Smallest, Balanced;
    var h := new Heap<T>(policy, cmp);
    Filled(h.items, cmp);
    for i := 0 to |s|
      invariant fresh(h) && h.Ledger() && h.open && !h.busy && h.policy == policy && h.cmp == cmp
      invariant HeapOrder(h.items, cmp)
      invariant multiset(h.items) == multiset(s[..i])
    {
      assert s[..i + 1] == s[..i] + [s[i]];
      var _ := h.Push(s[i], true);
    }
    out := [];
    assert s[..|s|] == s;
    while |h.items| > 0
      invariant fresh(h) && h.Ledger() && h.open && !h.busy && h.policy == policy && h.cmp == cmp
      invariant HeapOrder(h.items, cmp)
      invariant multiset(h.items) + multiset(out) == multiset(s)
      invariant InOrder(out, cmp) && Before(out, multiset(h.items), cmp)
      decreases |multiset(h.items)|
    {
      ghost var was := h.items;
      var top := h.Pop();
      SmallestIn(was, cmp, top.value.value);
      PopExtends(out, multiset(was), multiset(h.items), cmp, top.value.value);
      out := out + [top.value.value];
    }
  }

  lemma Filled<T>(s: seq<T>, cmp: (T, T) -> int)
    requires s == []
    ensures HeapOrder(s, cmp)
  {
  }

  lemma SmallestIn<T(!new)>(s: seq<T>, cmp: (T, T) -> int, x: T)
    requires Smallest(s, cmp, x)
    ensures forall y :: y in multiset(s) ==> cmp(x, y) <= 0
  {
  }
}
