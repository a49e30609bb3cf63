/** dyn_inflate: it accepts exactly the sequences of blocks of section 3.2.3 of
    RFC 1951 whose output fits, and produces their bytes. */
module InflateStream {
  import opened Arith
  import opened BitSeq
  import opened BitIo
  import opened Huffman
  import opened DeflateFormat
  import opened Inflate
  import opened FixedBlock
  import opened StoredBlock
  import opened DynamicBlock

  datatype Block = Stored(data: seq<Byte>) | Fixed(items: seq<Item>) | Dynamic(h: Header, items: seq<Item>)

  function BlockType(b: Block): nat
  {
    match b case Stored(_) => 0 case Fixed(_) => 1 case Dynamic(_, _) => 2
  }

  // ---- what a block takes and gives ------------------------------------------------------------

  ghost function StreamRest(c: Codes, items: seq<Item>, r: seq<bool>): seq<bool>
  {
    if AllEncodable(c, items) && HasCode(c.ll, END_OF_BLOCK) && |ItemsBits(c, items) + EndBits(c)| <= |r| then
      r[|ItemsBits(c, items) + EndBits(c)|..]
    else []
  }

  ghost function StreamOut(items: seq<Item>, out: seq<Byte>): seq<Byte>
  {
    if AllRefer(out, items) then Expand(out, items) else out
  }

  ghost function StoredRest(data: seq<Byte>, r: seq<bool>): seq<bool>
  {
    if |data| <= STORED_MAX && 8 * |StoredBytes(data)| <= |Aligned(r)| then
      Aligned(r)[8 * |StoredBytes(data)|..]
    else []
  }

  ghost function Skip(r: seq<bool>, n: nat): seq<bool>
  {
    if n <= |r| then r[n..] else []
  }

  /** The body of a block, after its three header bits. */
  ghost predicate BodyAt(b: Block, r: seq<bool>, out: seq<Byte>, limit: nat)
  {
    match b
    case Stored(data) => StoredAt(r, data) && |out| + |data| <= limit
    case Fixed(items) => IsStream(FixedCodes(), items, r, out, limit)
    case Dynamic(h, items) => HeaderAt(h, r) && IsStream(h.codes, items, Skip(r, h.size), out, limit)
  }

  ghost function BodyRest(b: Block, r: seq<bool>): seq<bool>
  {
    match b
    case Stored(data) => StoredRest(data, r)
    case Fixed(items) => StreamRest(FixedCodes(), items, r)
    case Dynamic(h, items) => StreamRest(h.codes, items, Skip(r, h.size))
  }

  ghost function BlockOut(b: Block, out: seq<Byte>): seq<Byte>
  {
    match b
    case Stored(data) => out + data
    case Fixed(items) => StreamOut(items, out)
    case Dynamic(_, items) => StreamOut(items, out)
  }

  /** BFINAL, BTYPE and the body. */
  ghost predicate BlockAt(b: Block, last: bool, r: seq<bool>, out: seq<Byte>, limit: nat)
  {
    |r| >= 3 && r[0] == last && FromLsb(r[1..3]) == BlockType(b) && BodyAt(b, r[3..], out, limit)
  }

  ghost function BlockRest(b: Block, r: seq<bool>): seq<bool>
  {
    BodyRest(b, Skip(r, 3))
  }

  /** All the blocks of a stream; the last one, and only it, is marked. */
  ghost predicate IsBlocks(blocks: seq<Block>, r: seq<bool>, out: seq<Byte>, limit: nat)
    decreases |blocks|
  {
    && blocks != [] && BlockAt(blocks[0], |blocks| == 1, r, out, limit)
    && (|blocks| > 1 ==> IsBlocks(blocks[1..], BlockRest(blocks[0], r), BlockOut(blocks[0], out), limit))
  }

  ghost function BlocksOut(blocks: seq<Block>, out: seq<Byte>): seq<Byte>
  {
    if blocks == [] then out else BlocksOut(blocks[1..], BlockOut(blocks[0], out))
  }

  // ---- one block ---------------------------------------------------------------------------------

  lemma StreamLeaves(c: Codes, items: seq<Item>, r: seq<bool>, out: seq<Byte>, limit: nat)
    requires IsStream(c, items, r, out, limit)
    ensures StreamRest(c, items, r) == r[|ItemsBits(c, items) + EndBits(c)|..]
    ensures StreamOut(items, out) == Expand(out, items) && |StreamRest(c, items, r)| <= |r|
  {
  }

  /** dyn_inflate_dynamic */
  method InflateDynamic(s: BitReader, o: OutBuf, ghost planH: Header, ghost plan: seq<Item>)
    returns (ok: bool, ghost h: Header, ghost items: seq<Item>)
    requires s.Valid() && !s.error && o.Valid()
    modifies s, o
    ensures s.Valid() && o.Valid()
    ensures ok ==> !s.error && BodyAt(Dynamic(h, items), old(s.Rest()), old(o.buf), o.limit)
                   && o.buf == StreamOut(items, old(o.buf)) && |s.Rest()| <= |old(s.Rest())|
                   && s.Rest() == BodyRest(Dynamic(h, items), old(s.Rest()))
    ensures BodyAt(Dynamic(planH, plan), old(s.Rest()), old(o.buf), o.limit) ==> ok && h == planH && items == plan
  {
    hide HeaderAt, IsStream, StreamRest, StreamOut, IsTable, UsableCodes, GoodCodes, s.Rest;
    ghost var r := s.Rest();
    items := [];
    var fine, lt, dt;
    fine, h, lt, dt := ReadHeader(s, planH);
    if !fine {
      return false, h, items;
    }
    HeaderUsable(h, r);
    ghost var r1, out := s.Rest(), o.buf;
    ok, items := InflateCodes(s, o, lt, dt, h.codes, plan);
    if ok { StreamLeaves(h.codes, items, r1, out, o.limit); }
  }

  lemma HeaderUsable(h: Header, r: seq<bool>)
    requires HeaderAt(h, r)
    ensures UsableCodes(h.codes) && h.size <= |r|
  {
    AcceptableUsable(h.codes);
  }

  /** A body of the given type. */
  method InflateBody(s: BitReader, o: OutBuf, kind: nat, ghost plan: Block) returns (ok: bool, ghost b: Block)
    requires s.Valid() && !s.error && o.Valid() && kind <= 3
    modifies s, o
    ensures s.Valid() && o.Valid()
    ensures ok ==> !s.error && BlockType(b) == kind && BodyAt(b, old(s.Rest()), old(o.buf), o.limit)
                   && o.buf == BlockOut(b, old(o.buf)) && s.Rest() == BodyRest(b, old(s.Rest()))
                   && |s.Rest()| <= |old(s.Rest())|
    ensures BlockType(plan) == kind && BodyAt(plan, old(s.Rest()), old(o.buf), o.limit) ==> ok && b == plan
  {
    hide HeaderAt, IsStream, StoredAt, StreamRest, StreamOut, StoredRest, FixedCodes, s.Rest;
    ghost var r, out := s.Rest(), o.buf;
    if kind == 0 {
      var data;
      ok, data := InflateStored(s, o, if plan.Stored? then plan.data else []);
      b := Stored(data);
      if ok { StoredLeaves(data, r); }
    } else if kind == 1 {
      ghost var items;
      ok, items := InflateFixed(s, o, if plan.Fixed? then plan.items else []);
      b := Fixed(items);
      if ok { StreamLeaves(FixedCodes(), items, r, out, o.limit); }
    } else if kind == 2 {
      ghost var h, items;
      ok, h, items := InflateDynamic(s, o, if plan.Dynamic? then plan.h else NoHeader(),
                                     if plan.Dynamic? then plan.items else []);
      b := Dynamic(h, items);
    } else {
      return false, plan;
    }
  }

  ghost function NoHeader(): Header { Header(Codes([], []), [], 0, [], 0) }

  lemma StoredLeaves(data: seq<Byte>, r: seq<bool>)
    requires StoredAt(r, data)
    ensures StoredRest(data, r) == Aligned(r)[8 * |StoredBytes(data)|..] && |StoredRest(data, r)| <= |r|
  {
  }

  /** One round of dyn_inflate. */
  method NextBlock(s: BitReader, o: OutBuf, ghost plan: Block) returns (ok: bool, last: bool, ghost b: Block)
    requires s.Valid() && !s.error && o.Valid()
    modifies s, o
    ensures s.Valid() && o.Valid()
    ensures ok ==> !s.error && BlockAt(b, last, old(s.Rest()), old(o.buf), o.limit)
                   && o.buf == BlockOut(b, old(o.buf)) && s.Rest() == BlockRest(b, old(s.Rest()))
                   && |s.Rest()| < |old(s.Rest())|
    ensures forall l :: BlockAt(plan, l, old(s.Rest()), old(o.buf), o.limit) ==> ok && b == plan && l == last
  {
    hide BodyAt, BlockOut, BodyRest, FromLsb, s.Rest, Pow;
    ghost var r := s.Rest();
    var bit := s.Bits(1);
    last := bit == 1;
    if !s.error { LastBit(r); }
    var kind := s.Bits(2);
    Four(kind);
    if s.error {
      return false, last, plan;
    }
    SliceTwice(r, 1, 2);
    ok, b := InflateBody(s, o, kind, plan);
  }

  lemma LastBit(r: seq<bool>)
    requires |r| >= 1
    ensures FromLsb(r[..1]) == if r[0] then 1 else 0
  {
    assert r[..1] == [r[0]] && [r[0]][1..] == [];
  }

  lemma Four(b: nat)
    requires b < Pow(2, 2)
    ensures b <= 3
  {
    FastPowIsPow(2, 2);
  }

  // ---- all blocks --------------------------------------------------------------------------------

  /** Blocks read so far, none of them the last. */
  ghost predicate OpenBlocks(blocks: seq<Block>, r: seq<bool>, out: seq<Byte>, limit: nat)
    decreases |blocks|
  {
    blocks != [] ==>
      && BlockAt(blocks[0], false, r, out, limit)
      && OpenBlocks(blocks[1..], BlockRest(blocks[0], r), BlockOut(blocks[0], out), limit)
  }

  ghost function BlocksRest(blocks: seq<Block>, r: seq<bool>): seq<bool>
  {
    if blocks == [] then r else BlocksRest(blocks[1..], BlockRest(blocks[0], r))
  }

  lemma {:induction false} MoreBlocks(blocks: seq<Block>, b: Block, last: bool, r: seq<bool>, out: seq<Byte>,
                                      limit: nat)
    requires OpenBlocks(blocks, r, out, limit)
    requires BlockAt(b, last, BlocksRest(blocks, r), BlocksOut(blocks, out), limit)
    ensures !last ==> OpenBlocks(blocks + [b], r, out, limit)
    ensures last ==> IsBlocks(blocks + [b], r, out, limit)
    ensures BlocksRest(blocks + [b], r) == BlockRest(b, BlocksRest(blocks, r))
    ensures BlocksOut(blocks + [b], out) == BlockOut(b, BlocksOut(blocks, out))
    decreases |blocks|
  {
    hide BlockAt, BlockRest, BlockOut;
    var all := blocks + [b];
    if blocks == [] {
      assert all == [b] && all[1..] == [];
    } else {
      assert all[0] == blocks[0] && all[1..] == blocks[1..] + [b];
      MoreBlocks(blocks[1..], b, last, BlockRest(blocks[0], r), BlockOut(blocks[0], out), limit);
    }
  }

  /** dyn_inflate */
  method InflateAll(src: seq<Byte>, o: OutBuf, ghost plan: seq<Block>) returns (ok: bool, ghost blocks: seq<Block>)
    requires o.Valid()
    modifies o
    ensures o.Valid()
    ensures ok ==> IsBlocks(blocks, BytesBits(src), old(o.buf), o.limit) && o.buf == BlocksOut(blocks, old(o.buf))
    ensures IsBlocks(plan, BytesBits(src), old(o.buf), o.limit) ==> ok && blocks == plan
  {
    hide BlockAt, BlockRest, BlockOut, BytesBits;
    var s := new BitReader(src);
    ghost var r, out, left := BytesBits(src), o.buf, plan;
    blocks := [];
    var last := false;
    while !last
      invariant s.Valid() && o.Valid() && !s.error && fresh(s)
      invariant !last ==> OpenBlocks(blocks, r, out, o.limit) && s.Rest() == BlocksRest(blocks, r)
      invariant o.buf == BlocksOut(blocks, out)
      invariant last ==> IsBlocks(blocks, r, out, o.limit)
      invariant IsBlocks(plan, r, out, o.limit) ==> blocks + left == plan
      invariant IsBlocks(plan, r, out, o.limit) && last ==> left == []
      invariant IsBlocks(plan, r, out, o.limit) && !last ==> IsBlocks(left, s.Rest(), o.buf, o.limit)
      decreases |s.Rest()|, !last
    {
      ghost var rest, buf := s.Rest(), o.buf;
      ghost var promised := IsBlocks(plan, r, out, o.limit);
      var fine;
      ghost var b;
      fine, last, b := NextBlock(s, o, if promised then left[0] else Stored([]));
      if !fine {
        return false, blocks;
      }
      MoreBlocks(blocks, b, last, r, out, o.limit);
      if promised {
        assert (blocks + [b]) + left[1..] == blocks + left;
        left := left[1..];
      }
      blocks := blocks + [b];
    }
    ok := true;
  }
}
