/** Blocks with their own Huffman codes (section 3.2.7 of RFC 1951): the header with
    the run-length coded code lengths, and the block after it. */
module DynamicBlock {
  import opened Arith
  import opened BitSeq
  import opened BitIo
  import opened Huffman
  import opened DeflateFormat
  import opened Inflate

  // ---- runs of code lengths ---------------------------------------------------------------------

  /** One symbol of the code length alphabet: a length, the previous length again
      3 to 6 times, 3 to 10 zeros, 11 to 138 zeros. */
  datatype Run = Len(l: nat) | Again(n: nat) | Zeros(n: nat) | ManyZeros(n: nat)

  /** How many extra bits follow a symbol. */
  function RunWidth(sym: nat): (w: nat)
    ensures w <= 7
  {
    if sym < 16 then 0 else if sym == 16 then 2 else if sym == 17 then 3 else 7
  }

  /** The run that a symbol and its extra bits stand for. */
  function RunOf(sym: nat, v: nat): Run
  {
    if sym < 16 then Len(sym) else if sym == 16 then Again(3 + v) else if sym == 17 then Zeros(3 + v)
    else ManyZeros(11 + v)
  }

  ghost function Repeat(x: nat, n: nat): (s: seq<nat>)
    ensures |s| == n
  {
    seq(n, i => x)
  }

  ghost function ApplyRun(lens: seq<nat>, x: Run): seq<nat>
    requires x.Again? ==> lens != []
  {
    match x
    case Len(l) => lens + [l]
    case Again(n) => lens + Repeat(lens[|lens| - 1], n)
    case Zeros(n) => lens + Repeat(0, n)
    case ManyZeros(n) => lens + Repeat(0, n)
  }

  /** The symbol at the start of r with its extra bits. */
  ghost predicate SymAt(cl: seq<nat>, sym: nat, v: nat, r: seq<bool>)
  {
    && sym < 19 && HasCode(cl, sym) && CodeBits(cl, sym) <= r && |r| >= cl[sym] + RunWidth(sym)
    && v == FromLsb(r[cl[sym]..cl[sym] + RunWidth(sym)])
  }

  /** A run that a reader of total lengths must accept. */
  ghost predicate RunAt(cl: seq<nat>, sym: nat, v: nat, r: seq<bool>, lens: seq<nat>, total: nat)
  {
    && SymAt(cl, sym, v, r) && (sym == 16 ==> lens != [])
    && |ApplyRun(lens, RunOf(sym, v))| <= total
  }

  lemma SymUnique(cl: seq<nat>, sym: nat, v: nat, sym': nat, v': nat, r: seq<bool>)
    requires IsLengths(cl) && !Oversubscribed(cl) && SymAt(cl, sym, v, r) && SymAt(cl, sym', v', r)
    ensures sym == sym' && v == v'
  {
    PrefixFree(cl, sym, sym', r);
  }

  /** The (symbol, extra value) pairs read from r on, and what is left after them. */
  ghost predicate RunsPrefix(cl: seq<nat>, runs: seq<(nat, nat)>, r: seq<bool>, lens: seq<nat>, total: nat)
    decreases |runs|
  {
    runs != [] ==>
      var (sym, v) := runs[0];
      && |lens| < total && RunAt(cl, sym, v, r, lens, total)
      && RunsPrefix(cl, runs[1..], r[cl[sym] + RunWidth(sym)..], ApplyRun(lens, RunOf(sym, v)), total)
  }

  ghost function RunsRest(cl: seq<nat>, runs: seq<(nat, nat)>, r: seq<bool>, lens: seq<nat>, total: nat): seq<bool>
    requires RunsPrefix(cl, runs, r, lens, total)
    decreases |runs|
  {
    if runs == [] then r
    else
      var (sym, v) := runs[0];
      RunsRest(cl, runs[1..], r[cl[sym] + RunWidth(sym)..], ApplyRun(lens, RunOf(sym, v)), total)
  }

  ghost function RunsLens(cl: seq<nat>, runs: seq<(nat, nat)>, r: seq<bool>, lens: seq<nat>, total: nat): seq<nat>
    requires RunsPrefix(cl, runs, r, lens, total)
    decreases |runs|
  {
    if runs == [] then lens
    else
      var (sym, v) := runs[0];
      RunsLens(cl, runs[1..], r[cl[sym] + RunWidth(sym)..], ApplyRun(lens, RunOf(sym, v)), total)
  }

  lemma {:induction false} RunsSnoc(cl: seq<nat>, runs: seq<(nat, nat)>, r: seq<bool>, lens: seq<nat>, total: nat,
                                    sym: nat, v: nat)
    requires RunsPrefix(cl, runs, r, lens, total)
    requires var rest, cur := RunsRest(cl, runs, r, lens, total), RunsLens(cl, runs, r, lens, total);
             |cur| < total && RunAt(cl, sym, v, rest, cur, total)
    ensures RunsPrefix(cl, runs + [(sym, v)], r, lens, total)
    ensures RunsRest(cl, runs + [(sym, v)], r, lens, total)
            == RunsRest(cl, runs, r, lens, total)[cl[sym] + RunWidth(sym)..]
    ensures RunsLens(cl, runs + [(sym, v)], r, lens, total)
            == ApplyRun(RunsLens(cl, runs, r, lens, total), RunOf(sym, v))
    decreases |runs|
  {
    hide RunAt, ApplyRun, RunOf, RunWidth;
    var all := runs + [(sym, v)];
    RunAtSafe(cl, sym, v, RunsRest(cl, runs, r, lens, total), RunsLens(cl, runs, r, lens, total), total);
    if runs == [] {
      assert all == [(sym, v)] && all[1..] == [];
    } else {
      assert all[1..] == runs[1..] + [(sym, v)] && all[0] == runs[0];
      RunAtSafe(cl, runs[0].0, runs[0].1, r, lens, total);
      RunsSnoc(cl, runs[1..], r[cl[runs[0].0] + RunWidth(runs[0].0)..], ApplyRun(lens, RunOf(runs[0].0, runs[0].1)),
               total, sym, v);
    }
  }

  lemma RunAtSafe(cl: seq<nat>, sym: nat, v: nat, r: seq<bool>, lens: seq<nat>, total: nat)
    requires RunAt(cl, sym, v, r, lens, total)
    ensures sym < |cl| && cl[sym] > 0 && cl[sym] + RunWidth(sym) <= |r| && (RunOf(sym, v).Again? ==> lens != [])
    ensures |ApplyRun(lens, RunOf(sym, v))| <= total
  {
  }

  /** Read one symbol with its extra bits. */
  method ReadSym(s: BitReader, ct: HuffTable, ghost cl: seq<nat>) returns (sym: int, v: nat)
    requires s.Valid() && !s.error && IsLengths(cl) && |cl| == 19 && !Oversubscribed(cl) && TableFor(ct, cl)
    modifies s
    ensures s.Valid()
    ensures sym < 0 ==> forall x: nat, y: nat :: !SymAt(cl, x, y, old(s.Rest()))
    ensures sym >= 0 ==> !s.error && SymAt(cl, sym, v, old(s.Rest()))
                         && s.Rest() == old(s.Rest())[cl[sym] + RunWidth(sym)..]
  {
    hide Oversubscribed, CodeBits, FromLsb, IsTable, NoneBelow, s.Rest, Pow;
    ghost var r := s.Rest();
    v := 0;
    sym := Decode(s, ct.count, ct.symbol, cl);
    if sym < 0 {
      NoSym(cl, r);
      return;
    }
    CodeLength(cl, sym);
    v := s.Bits(RunWidth(sym));
    if s.error {
      ShortSym(cl, sym, r);
      return -1, 0;
    }
    SliceTwice(r, cl[sym], RunWidth(sym));
  }

  lemma NoSym(cl: seq<nat>, r: seq<bool>)
    requires IsLengths(cl) && NoneBelow(cl, r, MAXBITS + 1)
    ensures forall x: nat, y: nat :: !SymAt(cl, x, y, r)
  {
  }

  lemma ShortSym(cl: seq<nat>, sym: nat, r: seq<bool>)
    requires IsLengths(cl) && !Oversubscribed(cl) && HasCode(cl, sym) && CodeBits(cl, sym) <= r
    requires |r| < cl[sym] + RunWidth(sym)
    ensures forall x: nat, y: nat :: !SymAt(cl, x, y, r)
  {
    forall x: nat, y: nat | SymAt(cl, x, y, r)
      ensures false
    {
      PrefixFree(cl, x, sym, r);
    }
  }

  /** One round of the loop that fills in the code lengths. */
  method NextRun(s: BitReader, ct: HuffTable, lens: seq<nat>, total: nat, ghost cl: seq<nat>)
    returns (ok: bool, next: seq<nat>, ghost sym: nat, ghost v: nat)
    requires s.Valid() && !s.error && IsLengths(cl) && |cl| == 19 && !Oversubscribed(cl) && TableFor(ct, cl)
    requires |lens| < total
    modifies s
    ensures s.Valid()
    ensures !ok ==> forall x: nat, y: nat :: !RunAt(cl, x, y, old(s.Rest()), lens, total)
    ensures ok ==> !s.error && RunAt(cl, sym, v, old(s.Rest()), lens, total)
                   && s.Rest() == old(s.Rest())[cl[sym] + RunWidth(sym)..] && next == ApplyRun(lens, RunOf(sym, v))
  {
    hide Oversubscribed, SymAt, IsTable, s.Rest;
    ghost var r := s.Rest();
    next, sym, v := lens, 0, 0;
    var x, y := ReadSym(s, ct, cl);
    if x < 0 {
      return false, lens, 0, 0;
    }
    OnlySym(cl, x, y, r);
    sym, v := x, y;
    if x < 16 {
      next := lens + [x];
    } else {
      var val, rep := 0, 0;
      if x == 16 {
        if |lens| == 0 {
          return false, lens, sym, v;
        }
        val := lens[|lens| - 1];
        rep := 3 + y;
      } else if x == 17 {
        rep := 3 + y;
      } else {
        rep := 11 + y;
      }
      if |lens| + rep > total {
        return false, lens, sym, v;
      }
      next := Append(lens, val, rep);
    }
    ok := true;
  }

  method Append(lens: seq<nat>, val: nat, rep: nat) returns (next: seq<nat>)
    ensures next == lens + Repeat(val, rep)
  {
    next := lens;
    for k := 0 to rep
      invariant next == lens + Repeat(val, k)
    {
      next := next + [val];
      assert Repeat(val, k + 1) == Repeat(val, k) + [val];
    }
  }

  lemma OnlySym(cl: seq<nat>, sym: nat, v: nat, r: seq<bool>)
    requires IsLengths(cl) && !Oversubscribed(cl) && SymAt(cl, sym, v, r)
    ensures sym < 19 && HasCode(cl, sym) && cl[sym] + RunWidth(sym) <= |r|
    ensures forall x: nat, y: nat :: SymAt(cl, x, y, r) ==> x == sym && y == v
  {
    hide Oversubscribed, CodeBits;
    forall x: nat, y: nat | SymAt(cl, x, y, r)
      ensures x == sym && y == v
    {
      SymUnique(cl, x, y, sym, v, r);
    }
  }

  /** The runs that make up all total code lengths. */
  ghost predicate IsRuns(cl: seq<nat>, runs: seq<(nat, nat)>, r: seq<bool>, lens: seq<nat>, total: nat)
  {
    RunsPrefix(cl, runs, r, lens, total) && |RunsLens(cl, runs, r, lens, total)| >= total
  }

  lemma PlanRun(cl: seq<nat>, plan: seq<(nat, nat)>, r: seq<bool>, lens: seq<nat>, total: nat, sym: nat, v: nat)
    requires IsLengths(cl) && !Oversubscribed(cl) && IsRuns(cl, plan, r, lens, total) && |lens| < total
    requires RunAt(cl, sym, v, r, lens, total)
    ensures plan != [] && plan[0] == (sym, v)
    ensures sym < |cl| && cl[sym] + RunWidth(sym) <= |r|
    ensures IsRuns(cl, plan[1..], r[cl[sym] + RunWidth(sym)..], ApplyRun(lens, RunOf(sym, v)), total)
  {
    hide Oversubscribed, ApplyRun, RunOf, RunWidth, SymAt;
    SymUnique(cl, sym, v, plan[0].0, plan[0].1, r);
    RunAtSafe(cl, sym, v, r, lens, total);
  }

  /** The loop that reads the code lengths of both alphabets. */
  method ReadRuns(s: BitReader, ct: HuffTable, total: nat, ghost cl: seq<nat>, ghost plan: seq<(nat, nat)>)
    returns (ok: bool, lens: seq<nat>, ghost runs: seq<(nat, nat)>)
    requires s.Valid() && !s.error && IsLengths(cl) && |cl| == 19 && !Oversubscribed(cl) && TableFor(ct, cl)
    modifies s
    ensures s.Valid()
    ensures ok ==> !s.error && |lens| == total && IsRuns(cl, runs, old(s.Rest()), [], total)
                   && lens == RunsLens(cl, runs, old(s.Rest()), [], total)
                   && s.Rest() == RunsRest(cl, runs, old(s.Rest()), [], total)
    ensures IsRuns(cl, plan, old(s.Rest()), [], total) ==> ok && runs == plan
  {
    hide Oversubscribed, IsTable, s.Rest, RunAt, ApplyRun, RunOf, RunsPrefix, RunsLens, RunsRest, IsRuns;
    ghost var r, left := s.Rest(), plan;
    lens, runs := [], [];
    StartRuns(cl, r, total);
    while |lens| < total
      invariant s.Valid() && !s.error && |lens| <= total
      invariant RunsPrefix(cl, runs, r, [], total)
      invariant lens == RunsLens(cl, runs, r, [], total) && s.Rest() == RunsRest(cl, runs, r, [], total)
      invariant IsRuns(cl, plan, r, [], total) ==> runs + left == plan && IsRuns(cl, left, s.Rest(), lens, total)
      decreases |s.Rest()|
    {
      ghost var rest := s.Rest();
      var fine, next, sym, v := NextRun(s, ct, lens, total, cl);
      if !fine {
        if IsRuns(cl, plan, r, [], total) { FirstRun(cl, left, rest, lens, total); }
        return false, lens, runs;
      }
      RunAtSafe(cl, sym, v, rest, lens, total);
      RunsSnoc(cl, runs, r, [], total, sym, v);
      if IsRuns(cl, plan, r, [], total) {
        PlanRun(cl, left, rest, lens, total, sym, v);
        assert (runs + [(sym, v)]) + left[1..] == runs + left;
        left := left[1..];
      }
      runs, lens := runs + [(sym, v)], next;
    }
    EndRuns(cl, runs, r, total, left, s.Rest(), lens, IsRuns(cl, plan, r, [], total));
    ok := true;
  }

  lemma StartRuns(cl: seq<nat>, r: seq<bool>, total: nat)
    ensures RunsPrefix(cl, [], r, [], total)
    ensures RunsLens(cl, [], r, [], total) == [] && RunsRest(cl, [], r, [], total) == r
  {
  }

  lemma FirstRun(cl: seq<nat>, plan: seq<(nat, nat)>, r: seq<bool>, lens: seq<nat>, total: nat)
    requires IsRuns(cl, plan, r, lens, total) && |lens| < total
    ensures plan != [] && RunAt(cl, plan[0].0, plan[0].1, r, lens, total)
  {
  }

  lemma EndRuns(cl: seq<nat>, runs: seq<(nat, nat)>, r: seq<bool>, total: nat, left: seq<(nat, nat)>, rest: seq<bool>,
                lens: seq<nat>, promised: bool)
    requires RunsPrefix(cl, runs, r, [], total) && lens == RunsLens(cl, runs, r, [], total) && |lens| >= total
    requires promised ==> IsRuns(cl, left, rest, lens, total)
    ensures IsRuns(cl, runs, r, [], total) && (promised ==> left == [])
  {
  }

  // ---- the header -----------------------------------------------------------------------------------

  const ORDER: seq<nat> := [16, 17, 18, 0, 8, 7, 9, 6, 10, 5, 11, 4, 12, 3, 13, 2, 14, 1, 15]

  /** The place of each code length symbol in the order above. */
  const PLACE: seq<nat> := [3, 17, 15, 13, 11, 9, 7, 5, 4, 6, 8, 10, 12, 14, 16, 18, 0, 1, 2]

  lemma OrderIsPermutation()
    ensures forall k :: 0 <= k < 19 ==> ORDER[k] < 19 && PLACE[ORDER[k]] == k
    ensures forall j :: 0 <= j < 19 ==> PLACE[j] < 19 && ORDER[PLACE[j]] == j
  {
  }

  /** The k-th field of three bits. */
  ghost function Field3(r: seq<bool>, k: nat): nat
    requires 3 * k + 3 <= |r|
  {
    FromLsb(r[3 * k..3 * k + 3])
  }

  /** The first n fields of r are the lengths cl, in the order above; the other
      lengths are zero. */
  ghost predicate ClAt(cl: seq<nat>, n: nat, r: seq<bool>)
  {
    && |cl| == 19 && n <= 19 && 3 * n <= |r|
    && (forall k :: 0 <= k < n ==> cl[ORDER[k]] == Field3(r, k))
    && (forall k :: n <= k < 19 ==> cl[ORDER[k]] == 0)
  }

  lemma ClUnique(cl: seq<nat>, cl': seq<nat>, n: nat, r: seq<bool>)
    requires ClAt(cl, n, r) && ClAt(cl', n, r)
    ensures cl == cl'
  {
    hide Field3;
    OrderIsPermutation();
    forall j | 0 <= j < 19
      ensures cl[j] == cl'[j]
    {
      assert cl[ORDER[PLACE[j]]] == cl'[ORDER[PLACE[j]]];
    }
  }

  /** The loop that reads the lengths of the code length codes. A read past the
      end is noticed only after the loop. */
  method ReadClLengths(s: BitReader, hclen: nat) returns (cl: seq<nat>)
    requires s.Valid() && !s.error && hclen <= 19
    modifies s
    ensures s.Valid() && |cl| == 19 && IsLengths(cl)
    ensures s.error <==> |old(s.Rest())| < 3 * hclen
    ensures !s.error ==> ClAt(cl, hclen, old(s.Rest())) && s.Rest() == old(s.Rest())[3 * hclen..]
  {
    hide FromLsb, s.Rest;
    OrderIsPermutation();
    ghost var r := s.Rest();
    cl := seq(19, i => 0);
    for idx := 0 to hclen
      invariant s.Valid() && |cl| == 19 && IsLengths(cl)
      invariant s.error <==> |r| < 3 * idx
      invariant !s.error ==> s.Rest() == r[3 * idx..]
      invariant !s.error ==> forall k :: 0 <= k < idx ==> cl[ORDER[k]] == Field3(r, k)
      invariant forall k :: idx <= k < 19 ==> cl[ORDER[k]] == 0
    {
      var b := s.Bits(3);
      Eight(b);
      if !s.error { SliceTwice(r, 3 * idx, 3); }
      cl := cl[ORDER[idx] := b];
    }
  }

  lemma Eight(b: nat)
    requires b < Pow(2, 3)
    ensures b <= MAXBITS
  {
    FastPowIsPow(2, 3);
  }

  /** What dyn_huff_build's result must be for the decoder to go on. */
  ghost predicate Complete(lengths: seq<nat>)
  {
    && !Oversubscribed(lengths)
    && (Count(lengths, 0) == |lengths| || EndCode(lengths, MAXBITS) == Pow(2, MAXBITS))
  }

  ghost predicate Acceptable(lengths: seq<nat>)
  {
    !Oversubscribed(lengths) && (Complete(lengths) || |lengths| == Count(lengths, 0) + Count(lengths, 1))
  }

  /** A header of size bits. */
  datatype Header = Header(codes: Codes, cl: seq<nat>, hclen: nat, runs: seq<(nat, nat)>, size: nat)

  /** The three counts at the start of the header. */
  ghost predicate CountsAt(h: Header, r: seq<bool>)
  {
    && 257 <= |h.codes.ll| <= 286 && 1 <= |h.codes.dl| <= 30 && 4 <= h.hclen <= 19
    && 14 <= |r| && FromLsb(r[0..5]) == |h.codes.ll| - 257 && FromLsb(r[5..10]) == |h.codes.dl| - 1
    && FromLsb(r[10..14]) == h.hclen - 4
  }

  /** The code lengths of both alphabets, and the bits after them. */
  ghost predicate LengthsAt(h: Header, r: seq<bool>, rest: seq<bool>)
  {
    var total := |h.codes.ll| + |h.codes.dl|;
    && IsRuns(h.cl, h.runs, r, [], total)
    && RunsLens(h.cl, h.runs, r, [], total) == h.codes.ll + h.codes.dl
    && RunsRest(h.cl, h.runs, r, [], total) == rest
  }

  ghost predicate GoodCodes(c: Codes)
  {
    && |c.ll| > 256 && c.ll[256] != 0 && IsLengths(c.ll) && IsLengths(c.dl)
    && Acceptable(c.ll) && Acceptable(c.dl)
  }

  /** A dynamic block's header at the start of r. */
  ghost predicate HeaderAt(h: Header, r: seq<bool>)
  {
    && CountsAt(h, r)
    && ClAt(h.cl, h.hclen, r[14..]) && IsLengths(h.cl) && Complete(h.cl)
    && h.size <= |r| && LengthsAt(h, r[14..][3 * h.hclen..], r[h.size..]) && GoodCodes(h.codes)
  }

  /** hlit, hdist and hclen. */
  method ReadCounts(s: BitReader) returns (hlit: nat, hdist: nat, hclen: nat)
    requires s.Valid() && !s.error
    modifies s
    ensures s.Valid() && (s.error <==> |old(s.Rest())| < 14)
    ensures 257 <= hlit && 1 <= hdist && 4 <= hclen <= 19
    ensures !s.error ==> hlit - 257 == FromLsb(old(s.Rest())[0..5]) && hdist - 1 == FromLsb(old(s.Rest())[5..10])
                         && hclen - 4 == FromLsb(old(s.Rest())[10..14]) && s.Rest() == old(s.Rest())[14..]
  {
    hide FromLsb, s.Rest, Pow;
    ghost var r := s.Rest();
    var a := s.Bits(5);
    if !s.error { SliceTwice(r, 0, 5); assert r[0..] == r; }
    var b := s.Bits(5);
    if !s.error { SliceTwice(r, 5, 5); }
    var d := s.Bits(4);
    if !s.error { SliceTwice(r, 10, 4); }
    Sixteen(d);
    hlit, hdist, hclen := a + 257, b + 1, d + 4;
  }

  lemma Sixteen(b: nat)
    requires b < Pow(2, 4)
    ensures b <= 15
  {
    FastPowIsPow(2, 4);
  }

  lemma BuildComplete(lengths: seq<nat>, left: int)
    requires left < 0 <==> Oversubscribed(lengths)
    requires Count(lengths, 0) == |lengths| ==> left == 0
    requires Count(lengths, 0) != |lengths| && left >= 0 ==> left == Pow(2, MAXBITS) - EndCode(lengths, MAXBITS)
    ensures left == 0 <==> Complete(lengths)
    ensures left == 0 || (left > 0 && |lengths| == Count(lengths, 0) + Count(lengths, 1)) <==> Acceptable(lengths)
  {
  }

  /** Build the table of an alphabet and decide whether to go on with it. */
  method BuildAcceptable(lengths: seq<nat>, size: nat) returns (ok: bool, h: HuffTable)
    requires IsLengths(lengths) && |lengths| <= size
    ensures fresh(h.count) && fresh(h.symbol)
    ensures ok <==> Acceptable(lengths)
    ensures ok ==> TableFor(h, lengths)
  {
    hide Oversubscribed, Complete, Acceptable, IsTable, EndCode, Count, Pow;
    var count, symbol := new int[MAXBITS + 1], new int[size];
    h := HuffTable(count, symbol);
    var err := Build(count, symbol, lengths);
    BuildComplete(lengths, err);
    ok := !(err != 0 && (err < 0 || |lengths| != count[0] + count[1]));
  }

  lemma AcceptableUsable(c: Codes)
    requires GoodCodes(c)
    ensures UsableCodes(c)
  {
  }

  lemma RunIsLengths(cl: seq<nat>, sym: nat, v: nat, r: seq<bool>, lens: seq<nat>, total: nat)
    requires RunAt(cl, sym, v, r, lens, total) && IsLengths(lens)
    ensures IsLengths(ApplyRun(lens, RunOf(sym, v)))
  {
  }

  /** The lengths that were run-length coded are 15 bits at most. */
  lemma {:induction false} RunsAreLengths(cl: seq<nat>, runs: seq<(nat, nat)>, r: seq<bool>, lens: seq<nat>, total: nat)
    requires RunsPrefix(cl, runs, r, lens, total) && IsLengths(lens)
    ensures IsLengths(RunsLens(cl, runs, r, lens, total))
    decreases |runs|
  {
    hide RunAt, ApplyRun, RunOf, RunWidth;
    if runs == [] {
    } else {
      var (sym, v) := runs[0];
      RunAtSafe(cl, sym, v, r, lens, total);
      RunIsLengths(cl, sym, v, r, lens, total);
      RunsAreLengths(cl, runs[1..], r[cl[sym] + RunWidth(sym)..], ApplyRun(lens, RunOf(sym, v)), total);
    }
  }

  /** The part of a header before the codes are checked. */
  ghost predicate FieldsAt(h: Header, r: seq<bool>)
  {
    && CountsAt(h, r)
    && ClAt(h.cl, h.hclen, r[14..]) && IsLengths(h.cl) && Complete(h.cl)
    && h.size <= |r| && LengthsAt(h, r[14..][3 * h.hclen..], r[h.size..])
  }

  lemma FieldsCounts(h: Header, r: seq<bool>, hlit: nat, hdist: nat, hclen: nat)
    requires FieldsAt(h, r) && |r| >= 14
    requires hlit - 257 == FromLsb(r[0..5]) && hdist - 1 == FromLsb(r[5..10]) && hclen - 4 == FromLsb(r[10..14])
    ensures |h.codes.ll| == hlit <= 286 && |h.codes.dl| == hdist <= 30 && h.hclen == hclen
    ensures |r[14..]| >= 3 * hclen && ClAt(h.cl, hclen, r[14..]) && Complete(h.cl)
    ensures IsRuns(h.cl, h.runs, r[14..][3 * hclen..], [], hlit + hdist)
  {
    hide Complete, IsRuns, RunsLens, RunsRest, RunsPrefix, FromLsb;
  }

  lemma FieldsShort(h: Header, r: seq<bool>)
    requires FieldsAt(h, r)
    ensures |r| >= 14
  {
  }

  /** The header up to the code length code. */
  ghost predicate StartAt(hlit: nat, hdist: nat, hclen: nat, cl: seq<nat>, r: seq<bool>)
  {
    && 257 <= hlit <= 286 && 1 <= hdist <= 30 && 4 <= hclen <= 19 && 14 + 3 * hclen <= |r|
    && hlit - 257 == FromLsb(r[0..5]) && hdist - 1 == FromLsb(r[5..10]) && hclen - 4 == FromLsb(r[10..14])
    && |cl| == 19 && ClAt(cl, hclen, r[14..]) && IsLengths(cl) && Complete(cl)
  }

  lemma StartUnique(hlit: nat, hdist: nat, hclen: nat, cl: seq<nat>, h: Header, r: seq<bool>)
    requires StartAt(hlit, hdist, hclen, cl, r) && FieldsAt(h, r)
    ensures |h.codes.ll| == hlit && |h.codes.dl| == hdist && h.hclen == hclen && h.cl == cl
    ensures IsRuns(cl, h.runs, r[14..][3 * hclen..], [], hlit + hdist)
  {
    hide ClAt, Complete, RunsLens, RunsRest, RunsPrefix, FromLsb, IsRuns;
    FieldsCounts(h, r, hlit, hdist, hclen);
    ClUnique(cl, h.cl, hclen, r[14..]);
  }

  /** The counts and the table of the code length code. */
  method ReadStart(s: BitReader, ghost plan: Header)
    returns (ok: bool, hlit: nat, hdist: nat, ct: HuffTable, ghost hclen: nat, ghost cl: seq<nat>)
    requires s.Valid() && !s.error
    modifies s
    ensures s.Valid() && fresh(ct.count) && fresh(ct.symbol)
    ensures ok ==> !s.error && StartAt(hlit, hdist, hclen, cl, old(s.Rest())) && TableFor(ct, cl)
                   && s.Rest() == old(s.Rest())[14..][3 * hclen..]
    ensures FieldsAt(plan, old(s.Rest())) ==> ok
  {
    hide Oversubscribed, Complete, Acceptable, IsTable, EndCode, Count, Pow, FromLsb, ClAt, FieldsAt, s.Rest;
    ghost var r := s.Rest();
    if FieldsAt(plan, r) { FieldsShort(plan, r); }
    cl, ok := [], false;
    var count, symbol := new int[MAXBITS + 1], new int[19];
    ct := HuffTable(count, symbol);
    var n;
    hlit, hdist, n := ReadCounts(s);
    hclen := n;
    if s.error {
      return;
    }
    if FieldsAt(plan, r) { FieldsCounts(plan, r, hlit, hdist, n); }
    if hlit > 286 || hdist > 30 {
      return;
    }
    var lengths := ReadClLengths(s, n);
    cl := lengths;
    if s.error {
      return;
    }
    if FieldsAt(plan, r) { ClUnique(cl, plan.cl, n, r[14..]); }
    var left := Build(count, symbol, lengths);
    BuildComplete(lengths, left);
    ok := left == 0;
  }

  /** The counts and the code lengths. */
  method ReadFields(s: BitReader, ghost plan: Header) returns (ok: bool, hlit: nat, lens: seq<nat>, ghost h: Header)
    requires s.Valid() && !s.error
    modifies s
    ensures s.Valid()
    ensures ok ==> !s.error && FieldsAt(h, old(s.Rest())) && s.Rest() == old(s.Rest())[h.size..]
                   && 257 <= hlit <= 286 && hlit < |lens| <= hlit + 30 && IsLengths(lens)
                   && h.codes == Codes(lens[..hlit], lens[hlit..])
    ensures FieldsAt(plan, old(s.Rest())) ==> ok && h == plan
  {
    hide Oversubscribed, Complete, IsTable, FromLsb, ClAt, IsRuns, RunsLens, RunsRest, RunsPrefix, FieldsAt, s.Rest;
    ghost var r := s.Rest();
    h, lens, ok := plan, [], false;
    var fine, hdist, ct;
    ghost var hclen, cl;
    fine, hlit, hdist, ct, hclen, cl := ReadStart(s, plan);
    if !fine {
      return;
    }
    if FieldsAt(plan, r) { StartUnique(hlit, hdist, hclen, cl, plan, r); }
    ghost var r2 := r[14..][3 * hclen..];
    CompleteUsable(cl);
    ghost var runs;
    fine, lens, runs := ReadRuns(s, ct, hlit + hdist, cl, plan.runs);
    if !fine {
      return;
    }
    ok := true;
    RestShorter(cl, runs, r2, hlit + hdist);
    h := Header(Codes(lens[..hlit], lens[hlit..]), cl, hclen, runs, |r| - |s.Rest()|);
    assert lens[..hlit] + lens[hlit..] == lens;
    FieldsFrom(h, r, r2, s.Rest());
    if FieldsAt(plan, r) { FieldsUnique(h, plan, r); }
  }

  lemma RestShorter(cl: seq<nat>, runs: seq<(nat, nat)>, r: seq<bool>, total: nat)
    requires IsRuns(cl, runs, r, [], total)
    ensures RunsPrefix(cl, runs, r, [], total) && |RunsRest(cl, runs, r, [], total)| <= |r|
  {
    IsRunsPrefix(cl, runs, r, total);
    RestIsSuffix(cl, runs, r, [], total);
  }

  lemma CompleteUsable(lengths: seq<nat>)
    requires Complete(lengths)
    ensures !Oversubscribed(lengths)
  {
  }

  lemma FieldsFrom(h: Header, r: seq<bool>, r2: seq<bool>, rest: seq<bool>)
    requires CountsAt(h, r)
    requires ClAt(h.cl, h.hclen, r[14..]) && IsLengths(h.cl) && Complete(h.cl)
    requires 3 * h.hclen <= |r[14..]| && r2 == r[14..][3 * h.hclen..] && LengthsAt(h, r2, rest)
    requires h.size == |r| - |rest|
    ensures FieldsAt(h, r) && rest == r[h.size..] && IsLengths(h.codes.ll + h.codes.dl)
  {
    hide ClAt, Complete, RunsLens, RunsRest, RunsPrefix, FromLsb;
    var total := |h.codes.ll| + |h.codes.dl|;
    IsRunsPrefix(h.cl, h.runs, r2, total);
    RunsAreLengths(h.cl, h.runs, r2, [], total);
    RestIsSuffix(h.cl, h.runs, r2, [], total);
    SizeOf(r, h.hclen, |rest|, rest);
  }

  lemma FieldsUnique(h: Header, plan: Header, r: seq<bool>)
    requires FieldsAt(h, r) && FieldsAt(plan, r) && h.runs == plan.runs
    ensures h == plan
  {
    hide Complete, IsRuns, RunsLens, RunsRest, RunsPrefix, FromLsb, ClAt;
    ClUnique(h.cl, plan.cl, h.hclen, r[14..]);
    assert r[h.size..] == r[plan.size..];
    SplitUnique(h.codes, plan.codes);
  }

  lemma SplitUnique(c: Codes, d: Codes)
    requires |c.ll| == |d.ll| && c.ll + c.dl == d.ll + d.dl
    ensures c == d
  {
    assert c.ll == (c.ll + c.dl)[..|c.ll|] && c.dl == (c.ll + c.dl)[|c.ll|..];
  }

  /** The header of a dynamic block: it is accepted exactly when there is one. */
  method ReadHeader(s: BitReader, ghost plan: Header)
    returns (ok: bool, ghost h: Header, lt: HuffTable, dt: HuffTable)
    requires s.Valid() && !s.error
    modifies s
    ensures s.Valid() && fresh(lt.count) && fresh(lt.symbol) && fresh(dt.count) && fresh(dt.symbol)
    ensures ok ==> !s.error && HeaderAt(h, old(s.Rest())) && s.Rest() == old(s.Rest())[h.size..]
                   && TableFor(lt, h.codes.ll) && TableFor(dt, h.codes.dl)
    ensures HeaderAt(plan, old(s.Rest())) ==> ok && h == plan
  {
    hide Acceptable, IsTable, FieldsAt, HeaderAt, s.Rest;
    ghost var r := s.Rest();
    HeaderIsFields(plan, r);
    var count, symbol := new int[MAXBITS + 1], new int[19];
    lt, dt, ok := HuffTable(count, symbol), HuffTable(count, symbol), false;
    var fine, hlit, lens;
    fine, hlit, lens, h := ReadFields(s, plan);
    if !fine {
      return;
    }
    HeaderIsFields(h, r);
    if lens[256] == 0 {
      return;
    }
    var lok, lh := BuildAcceptable(lens[..hlit], 286);
    if !lok {
      return;
    }
    var dok, dh := BuildAcceptable(lens[hlit..], 30);
    if !dok {
      return;
    }
    ok, lt, dt := true, lh, dh;
  }

  lemma HeaderIsFields(h: Header, r: seq<bool>)
    ensures HeaderAt(h, r) <==> FieldsAt(h, r) && GoodCodes(h.codes)
  {
  }

  lemma IsRunsPrefix(cl: seq<nat>, runs: seq<(nat, nat)>, r: seq<bool>, total: nat)
    requires IsRuns(cl, runs, r, [], total)
    ensures RunsPrefix(cl, runs, r, [], total)
  {
  }

  lemma {:induction false} RestIsSuffix(cl: seq<nat>, runs: seq<(nat, nat)>, r: seq<bool>, lens: seq<nat>, total: nat)
    requires RunsPrefix(cl, runs, r, lens, total)
    ensures IsSuffix(RunsRest(cl, runs, r, lens, total), r)
    decreases |runs|
  {
    hide RunAt, ApplyRun, RunOf, RunWidth;
    if runs == [] {
    } else {
      var (sym, v) := runs[0];
      RunAtSafe(cl, sym, v, r, lens, total);
      var n := cl[sym] + RunWidth(sym);
      RestIsSuffix(cl, runs[1..], r[n..], ApplyRun(lens, RunOf(sym, v)), total);
      SuffixOfSuffix(RunsRest(cl, runs, r, lens, total), r, n);
    }
  }

  ghost predicate IsSuffix(a: seq<bool>, b: seq<bool>)
  {
    |a| <= |b| && a == b[|b| - |a|..]
  }

  lemma SuffixOfSuffix(a: seq<bool>, b: seq<bool>, n: nat)
    requires n <= |b| && IsSuffix(a, b[n..])
    ensures IsSuffix(a, b)
  {
  }

  lemma SizeOf(r: seq<bool>, hclen: nat, n: nat, rest: seq<bool>)
    requires 14 + 3 * hclen <= |r| && n == |rest| && IsSuffix(rest, r[14..][3 * hclen..])
    ensures n <= |r| && rest == r[|r| - n..]
  {
  }
}
