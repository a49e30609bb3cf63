/** The fixed Huffman codes of section 3.2.6 of RFC 1951, and blocks that use them. */
module FixedBlock {
  import opened Arith
  import opened BitSeq
  import opened BitIo
  import opened Huffman
  import opened DeflateFormat
  import opened Inflate

  function FixedLength(sym: nat): nat
  {
    if sym < 144 then 8 else if sym < 256 then 9 else if sym < 280 then 7 else 8
  }

  function FixedLl(): seq<nat> { seq(288, i requires 0 <= i => FixedLength(i)) }

  function FixedDl(): seq<nat> { seq(30, i => 5) }

  function FixedCodes(): Codes { Codes(FixedLl(), FixedDl()) }

  /** The code of a literal/length symbol as dyn_emit_ll computes it. */
  function FixedCode(sym: nat): nat
  {
    if sym < 144 then 0x30 + sym
    else if sym < 256 then 0x190 + (sym - 144)
    else if sym < 280 then sym - 256
    else 0xc0 + (sym - 280)
  }

  /** How many of the first i symbols have codes of l bits. */
  function FixedCount(i: nat, l: nat): nat
  {
    if l == 8 then (if i <= 144 then i else if i <= 280 then 144 else i - 136)
    else if l == 9 then (if i <= 144 then 0 else if i <= 256 then i - 144 else 112)
    else if l == 7 then (if i <= 256 then 0 else if i <= 280 then i - 256 else 24)
    else 0
  }

  lemma {:induction false} FixedCounts(i: nat, l: nat)
    requires i <= 288
    ensures Count(FixedLl()[..i], l) == FixedCount(i, l)
  {
    if i == 0 {
    } else {
      FixedCounts(i - 1, l);
      CountSnoc(FixedLl(), i - 1, l);
      assert FixedLl()[i - 1] == FixedLength(i - 1);
    }
  }

  lemma AllFixedCounts(l: nat)
    ensures Count(FixedLl(), l) == FixedCount(288, l)
  {
    FixedCounts(288, l);
    assert FixedLl()[..288] == FixedLl();
  }

  lemma {:induction false} DistCounts(i: nat, l: nat)
    requires i <= 30
    ensures Count(FixedDl()[..i], l) == if l == 5 then i else 0
  {
    if i == 0 {
    } else {
      DistCounts(i - 1, l);
      CountSnoc(FixedDl(), i - 1, l);
    }
  }

  lemma AllDistCounts(l: nat)
    ensures Count(FixedDl(), l) == if l == 5 then 30 else 0
  {
    DistCounts(30, l);
    assert FixedDl()[..30] == FixedDl();
  }

  lemma {:induction false} FixedFirst(l: nat)
    ensures l <= 7 ==> FirstCode(FixedLl(), l) == 0
    ensures l == 8 ==> FirstCode(FixedLl(), l) == 0x30
    ensures l == 9 ==> FirstCode(FixedLl(), l) == 0x190
    ensures l >= 10 ==> FirstCode(FixedLl(), l) == Pow(2, l)
  {
    hide Count, FixedLl;
    if l <= 1 {
    } else {
      FixedFirst(l - 1);
      AllFixedCounts(l - 1);
      if l == 10 { FastPowIsPow(2, 10); }
    }
  }

  lemma {:induction false} DistFirst(l: nat)
    ensures l <= 5 ==> FirstCode(FixedDl(), l) == 0
    ensures l >= 6 ==> FirstCode(FixedDl(), l) <= Pow(2, l)
  {
    hide Count, FixedDl;
    if l <= 1 {
    } else {
      DistFirst(l - 1);
      AllDistCounts(l - 1);
      if l == 6 { FastPowIsPow(2, 6); }
    }
  }

  lemma FixedFits(l: nat)
    requires 1 <= l <= MAXBITS
    ensures EndCode(FixedLl(), l) <= Pow(2, l) && EndCode(FixedDl(), l) <= Pow(2, l)
  {
    hide Count, FixedLl, FixedDl, FirstCode;
    FixedFirst(l);
    AllFixedCounts(l);
    DistFirst(l);
    AllDistCounts(l);
    FastPowIsPow(2, l);
    if l == 5 { assert FastPow(2, 5) == 32; }
    if l == 7 { assert FastPow(2, 7) == 128; }
    if l == 8 { assert FastPow(2, 8) == 256; }
    if l == 9 { assert FastPow(2, 9) == 512; }
  }

  lemma FixedUsable()
    ensures UsableCodes(FixedCodes())
  {
    hide EndCode;
    forall l | 1 <= l <= MAXBITS
      ensures EndCode(FixedLl(), l) <= Pow(2, l) && EndCode(FixedDl(), l) <= Pow(2, l)
    {
      FixedFits(l);
    }
  }

  /** dyn_emit_ll's codes are the canonical ones. */
  lemma FixedCodeIs(sym: nat)
    requires sym < 288
    ensures HasCode(FixedLl(), sym) && CodeBits(FixedLl(), sym) == Msb(FixedCode(sym), FixedLength(sym))
  {
    hide Count, FirstCode, Msb;
    assert FixedLl()[sym] == FixedLength(sym);
    FixedCounts(sym, FixedLength(sym));
    FixedFirst(FixedLength(sym));
  }

  lemma FixedDistIs(j: nat)
    requires j < 30
    ensures HasCode(FixedDl(), j) && CodeBits(FixedDl(), j) == Msb(j, 5)
  {
    hide Count, FirstCode, Msb;
    DistCounts(j, 5);
    DistFirst(5);
  }

  /** dyn_inflate_fixed */
  method InflateFixed(s: BitReader, o: OutBuf, ghost plan: seq<Item>) returns (ok: bool, ghost items: seq<Item>)
    requires s.Valid() && !s.error && o.Valid()
    modifies s, o
    ensures s.Valid() && o.Valid()
    ensures ok ==> IsStream(FixedCodes(), items, old(s.Rest()), old(o.buf), o.limit)
    ensures ok ==> !s.error && o.buf == Expand(old(o.buf), items)
                   && s.Rest() == old(s.Rest())[|ItemsBits(FixedCodes(), items) + EndBits(FixedCodes())|..]
    ensures IsStream(FixedCodes(), plan, old(s.Rest()), old(o.buf), o.limit) ==> ok && items == plan
  {
    hide IsStream, Oversubscribed, IsTable, UsableCodes;
    FixedUsable();
    UsableParts(FixedCodes());
    var lcount, lsym := new int[MAXBITS + 1], new int[288];
    var dcount, dsym := new int[MAXBITS + 1], new int[30];
    var lt, dt := HuffTable(lcount, lsym), HuffTable(dcount, dsym);
    var left := Build(lcount, lsym, FixedLl());
    left := Build(dcount, dsym, FixedDl());
    ok, items := InflateCodes(s, o, lt, dt, FixedCodes(), plan);
  }
}
