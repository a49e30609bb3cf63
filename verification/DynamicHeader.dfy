/** How section 3.2.7 of RFC 1951 has a dynamic block's header written: whatever
    codes, code length code and runs a writer chooses, the header is at the start
    of what it writes. */
module DynamicHeader {
  import opened Common
  import opened Arith
  import opened BitSeq
  import opened Huffman
  import opened DeflateFormat
  import opened DynamicBlock

  /** The order of the code length symbols: the three runs, zero, then the lengths
      from eight upwards and from seven downwards in turn. */
  function OrderLaw(k: nat): (sym: nat)
    requires k < 19
    ensures sym < 19
  {
    if k < 3 then 16 + k else if k == 3 then 0 else if k % 2 == 0 then 8 + (k - 4) / 2 else 7 - (k - 5) / 2
  }

  lemma OrderIsLaw(k: nat)
    requires k < 19
    ensures ORDER[k] == OrderLaw(k)
  {
    var i := (k - 4) / 2;
    if k >= 4 && k % 2 == 0 {
      assert k == 4 + 2 * i;
      EvenOrder(i);
    } else if k >= 4 {
      assert k == 5 + 2 * i;
      OddOrder(i);
    }
  }

  lemma EvenOrder(i: nat)
    requires i < 8
    ensures ORDER[4 + 2 * i] == 8 + i
  {
  }

  lemma OddOrder(i: nat)
    requires i < 7
    ensures ORDER[5 + 2 * i] == 7 - i
  {
  }

  // ---- runs ---------------------------------------------------------------------------------------

  /** How many lengths a run stands for. */
  ghost function Span(x: Run): nat
  {
    match x
    case Len(_) => 1
    case Again(n) => n
    case Zeros(n) => n
    case ManyZeros(n) => n
  }

  /** The runs there are. */
  ghost predicate RunFits(x: Run)
  {
    match x
    case Len(l) => l <= 15
    case Again(n) => 3 <= n <= 6
    case Zeros(n) => 3 <= n <= 10
    case ManyZeros(n) => 11 <= n <= 138
  }

  /** The lengths in all from at on are those the run stands for. */
  ghost predicate Covers(x: Run, all: seq<nat>, at: nat)
  {
    && RunFits(x) && at + Span(x) <= |all|
    && match x
       case Len(l) => all[at] == l
       case Again(n) => at > 0 && forall i :: at <= i < at + n ==> all[i] == all[at - 1]
       case Zeros(n) => forall i :: at <= i < at + n ==> all[i] == 0
       case ManyZeros(n) => forall i :: at <= i < at + n ==> all[i] == 0
  }

  ghost predicate Spells(runs: seq<Run>, all: seq<nat>, at: nat)
    decreases |runs|
  {
    if runs == [] then at == |all| else Covers(runs[0], all, at) && Spells(runs[1..], all, at + Span(runs[0]))
  }

  /** The symbol of a run, its extra value and how many bits that has. */
  ghost function RunSym(x: Run): nat
  {
    match x
    case Len(l) => l
    case Again(_) => 16
    case Zeros(_) => 17
    case ManyZeros(_) => 18
  }

  ghost function RunExtra(x: Run): nat
    requires RunFits(x)
  {
    match x
    case Len(_) => 0
    case Again(n) => n - 3
    case Zeros(n) => n - 3
    case ManyZeros(n) => n - 11
  }

  ghost function ExtraWidth(x: Run): nat
  {
    match x
    case Len(_) => 0
    case Again(_) => 2
    case Zeros(_) => 3
    case ManyZeros(_) => 7
  }

  ghost predicate HasCodes(cl: seq<nat>, runs: seq<Run>)
  {
    forall k :: 0 <= k < |runs| ==> RunFits(runs[k]) && HasCode(cl, RunSym(runs[k]))
  }

  ghost function WriteRun(cl: seq<nat>, x: Run): seq<bool>
    requires RunFits(x) && HasCode(cl, RunSym(x))
  {
    CodeBits(cl, RunSym(x)) + Lsb(RunExtra(x), ExtraWidth(x))
  }

  ghost function WriteRuns(cl: seq<nat>, runs: seq<Run>): seq<bool>
    requires HasCodes(cl, runs)
  {
    if runs == [] then [] else WriteRun(cl, runs[0]) + WriteRuns(cl, runs[1..])
  }

  /** The runs as symbols with extra values. */
  ghost function Pairs(runs: seq<Run>): seq<(nat, nat)>
    requires forall k :: 0 <= k < |runs| ==> RunFits(runs[k])
  {
    if runs == [] then [] else [(RunSym(runs[0]), RunExtra(runs[0]))] + Pairs(runs[1..])
  }

  /** A value that fits is read back. */
  lemma LsbBack(v: nat, n: nat)
    requires v < FastPow(2, n)
    ensures FromLsb(Lsb(v, n)) == v
  {
    FastPowIsPow(2, n);
    FromLsbOf(v, n);
    DivModUnique(v, Pow(2, n), 0, v);
  }

  lemma ExtraBack(x: Run)
    requires RunFits(x)
    ensures FromLsb(Lsb(RunExtra(x), ExtraWidth(x))) == RunExtra(x)
    ensures RunWidth(RunSym(x)) == ExtraWidth(x) && RunOf(RunSym(x), RunExtra(x)) == x && RunSym(x) < 19
  {
    hide Lsb, FromLsb;
    match x {
      case Len(_) => LsbBack(0, 0);
      case Again(n) => LsbBack(n - 3, 2);
      case Zeros(n) => LsbBack(n - 3, 3);
      case ManyZeros(n) => LsbBack(n - 11, 7);
    }
  }

  lemma RunSymAt(cl: seq<nat>, x: Run, rest: seq<bool>)
    requires RunFits(x) && HasCode(cl, RunSym(x))
    ensures SymAt(cl, RunSym(x), RunExtra(x), WriteRun(cl, x) + rest)
    ensures |WriteRun(cl, x)| == cl[RunSym(x)] + RunWidth(RunSym(x))
  {
    hide Lsb, FromLsb, RunOf, RunWidth;
    ExtraBack(x);
    var a, b := CodeBits(cl, RunSym(x)), Lsb(RunExtra(x), ExtraWidth(x));
    assert |a| == cl[RunSym(x)];
    assert ((a + b) + rest)[|a|..|a| + |b|] == b;
    assert a <= (a + b) + rest;
  }

  lemma Covered(x: Run, all: seq<nat>, at: nat)
    requires Covers(x, all, at)
    ensures Span(x) > 0 && at + Span(x) <= |all| && (x.Again? ==> all[..at] != [])
    ensures ApplyRun(all[..at], x) == all[..at + Span(x)]
  {
  }

  /** One run before the others. */
  lemma RunsCons(cl: seq<nat>, sym: nat, v: nat, pairs: seq<(nat, nat)>, r: seq<bool>, more: seq<bool>, lens: seq<nat>,
                 next: seq<nat>, total: nat)
    requires |lens| < total && RunAt(cl, sym, v, r, lens, total) && next == ApplyRun(lens, RunOf(sym, v))
    requires sym < |cl| && cl[sym] + RunWidth(sym) <= |r| && more == r[cl[sym] + RunWidth(sym)..]
    requires RunsPrefix(cl, pairs, more, next, total)
    ensures RunsPrefix(cl, [(sym, v)] + pairs, r, lens, total)
    ensures RunsLens(cl, [(sym, v)] + pairs, r, lens, total) == RunsLens(cl, pairs, more, next, total)
    ensures RunsRest(cl, [(sym, v)] + pairs, r, lens, total) == RunsRest(cl, pairs, more, next, total)
  {
    hide RunAt, ApplyRun, RunOf, RunWidth;
    assert ([(sym, v)] + pairs)[1..] == pairs;
  }

  lemma FirstWritten(cl: seq<nat>, x: Run, all: seq<nat>, at: nat, more: seq<bool>)
    requires RunFits(x) && HasCode(cl, RunSym(x)) && Covers(x, all, at)
    ensures var sym, v, r := RunSym(x), RunExtra(x), WriteRun(cl, x) + more;
            && RunAt(cl, sym, v, r, all[..at], |all|) && ApplyRun(all[..at], RunOf(sym, v)) == all[..at + Span(x)]
            && at < at + Span(x) <= |all| && cl[sym] + RunWidth(sym) <= |r| && more == r[cl[sym] + RunWidth(sym)..]
  {
    hide SymAt, ApplyRun, RunOf, RunWidth, Covers, WriteRun;
    Covered(x, all, at);
    ExtraBack(x);
    RunSymAt(cl, x, more);
  }

  /** The runs are at the start of what is written. */
  lemma {:induction false} RunsWritten(cl: seq<nat>, runs: seq<Run>, all: seq<nat>, at: nat, rest: seq<bool>)
    requires HasCodes(cl, runs) && at <= |all| && Spells(runs, all, at)
    ensures RunsPrefix(cl, Pairs(runs), WriteRuns(cl, runs) + rest, all[..at], |all|)
    ensures RunsLens(cl, Pairs(runs), WriteRuns(cl, runs) + rest, all[..at], |all|) == all
    ensures RunsRest(cl, Pairs(runs), WriteRuns(cl, runs) + rest, all[..at], |all|) == rest
    decreases |runs|
  {
    if runs == [] {
      assert all[..at] == all && [] + rest == rest;
    } else {
      hide RunAt, ApplyRun, RunOf, RunWidth, Covers, WriteRun, RunsPrefix, RunsLens, RunsRest;
      hide RunSym, RunExtra, RunFits;
      var x, w, more := runs[0], WriteRun(cl, runs[0]), WriteRuns(cl, runs[1..]) + rest;
      Assoc(w, WriteRuns(cl, runs[1..]), rest);
      FirstWritten(cl, x, all, at, more);
      RunsWritten(cl, runs[1..], all, at + Span(x), rest);
      RunsCons(cl, RunSym(x), RunExtra(x), Pairs(runs[1..]), w + more, more, all[..at], all[..at + Span(x)], |all|);
    }
  }

  // ---- the header -----------------------------------------------------------------------------------

  /** The lengths of the code length code, three bits each, in order. */
  ghost function WriteFields(cl: seq<nat>, n: nat): (s: seq<bool>)
    requires |cl| == 19 && n <= 19
    ensures |s| == 3 * n
  {
    if n == 0 then [] else WriteFields(cl, n - 1) + Lsb(cl[OrderLaw(n - 1)], 3)
  }

  ghost function WriteHeader(c: Codes, cl: seq<nat>, n: nat, runs: seq<Run>): seq<bool>
    requires |c.ll| >= 257 && |c.dl| >= 1 && |cl| == 19 && 4 <= n <= 19 && HasCodes(cl, runs)
  {
    (Lsb(|c.ll| - 257, 5) + Lsb(|c.dl| - 1, 5) + Lsb(n - 4, 4)) + WriteFields(cl, n) + WriteRuns(cl, runs)
  }

  lemma {:induction false} FieldAt(cl: seq<nat>, n: nat, k: nat, rest: seq<bool>)
    requires |cl| == 19 && k < n <= 19 && cl[OrderLaw(k)] <= 7
    ensures Field3(WriteFields(cl, n) + rest, k) == cl[OrderLaw(k)]
    decreases n
  {
    hide OrderLaw, Lsb, FromLsb;
    var w, x := WriteFields(cl, n - 1), Lsb(cl[OrderLaw(n - 1)], 3);
    Assoc(w, x, rest);
    if k == n - 1 {
      assert (w + (x + rest))[3 * k..3 * k + 3] == x;
      LsbBack(cl[OrderLaw(k)], 3);
    } else {
      FieldAt(cl, n - 1, k, x + rest);
    }
  }

  lemma FieldsWritten(cl: seq<nat>, n: nat, rest: seq<bool>)
    requires |cl| == 19 && n <= 19 && (forall k :: 0 <= k < 19 ==> cl[k] <= 7)
    requires forall k :: n <= k < 19 ==> cl[OrderLaw(k)] == 0
    ensures ClAt(cl, n, WriteFields(cl, n) + rest)
  {
    hide OrderLaw, WriteFields, Field3;
    var r := WriteFields(cl, n) + rest;
    forall k | 0 <= k < 19
      ensures k < n ==> cl[ORDER[k]] == Field3(r, k)
      ensures k >= n ==> cl[ORDER[k]] == 0
    {
      OrderIsLaw(k);
      if k < n { FieldAt(cl, n, k, rest); }
    }
  }

  lemma CountsWritten(h: Header, rest: seq<bool>)
    requires 257 <= |h.codes.ll| <= 286 && 1 <= |h.codes.dl| <= 30 && 4 <= h.hclen <= 19
    ensures CountsAt(h, (Lsb(|h.codes.ll| - 257, 5) + Lsb(|h.codes.dl| - 1, 5) + Lsb(h.hclen - 4, 4)) + rest)
  {
    hide Lsb, FromLsb;
    var a, b, d := Lsb(|h.codes.ll| - 257, 5), Lsb(|h.codes.dl| - 1, 5), Lsb(h.hclen - 4, 4);
    var r := (a + b + d) + rest;
    assert r[0..5] == a && r[5..10] == b && r[10..14] == d;
    LsbBack(|h.codes.ll| - 257, 5);
    LsbBack(|h.codes.dl| - 1, 5);
    LsbBack(h.hclen - 4, 4);
  }

  /** Whatever codes, code length code and runs a writer chooses: what it writes
      starts with the header that says so. */
  lemma HeaderWritten(c: Codes, cl: seq<nat>, n: nat, runs: seq<Run>, rest: seq<bool>)
    requires 257 <= |c.ll| <= 286 && 1 <= |c.dl| <= 30 && GoodCodes(c) && 4 <= n <= 19
    requires |cl| == 19 && (forall k :: 0 <= k < 19 ==> cl[k] <= 7) && Complete(cl)
    requires forall k :: n <= k < 19 ==> cl[OrderLaw(k)] == 0
    requires HasCodes(cl, runs) && Spells(runs, c.ll + c.dl, 0)
    ensures var w := WriteHeader(c, cl, n, runs); HeaderAt(Header(c, cl, n, Pairs(runs), |w|), w + rest)
  {
    hide Lsb, FromLsb, GoodCodes, Complete, OrderLaw, WriteFields, WriteRuns, RunsPrefix, RunsLens, RunsRest, Spells;
    var a := Lsb(|c.ll| - 257, 5) + Lsb(|c.dl| - 1, 5) + Lsb(n - 4, 4);
    var b, d, all := WriteFields(cl, n), WriteRuns(cl, runs), c.ll + c.dl;
    var w := WriteHeader(c, cl, n, runs);
    var h := Header(c, cl, n, Pairs(runs), |w|);
    assert w + rest == a + (b + (d + rest)) && (w + rest)[|w|..] == rest;
    assert (w + rest)[14..] == b + (d + rest) && (b + (d + rest))[3 * n..] == d + rest;
    CountsWritten(h, b + (d + rest));
    FieldsWritten(cl, n, d + rest);
    RunsWritten(cl, runs, all, 0, rest);
    assert all[..0] == [];
  }
}
