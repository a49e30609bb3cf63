/** Stored encoding, the choice between the two encodings, and the gzip framing of
    section 2.3 of RFC 1952. */
module Gzip {
  import opened Arith
  import opened BitSeq
  import opened BitIo
  import opened Huffman
  import opened DeflateFormat
  import opened FixedBlock
  import opened StoredBlock
  import opened InflateStream
  import opened Deflate

  /** The body decodes to src, however much room beyond |src| there is. */
  ghost predicate DecodesTo(body: seq<Byte>, blocks: seq<Block>, src: seq<Byte>)
  {
    BlocksOut(blocks, []) == src && forall limit: nat :: |src| <= limit ==> IsBlocks(blocks, BytesBits(body), [], limit)
  }

  // ---- the fixed body ----------------------------------------------------------------------------

  lemma FixedDecodes(items: seq<Item>, src: seq<Byte>, body: seq<Byte>, k: nat)
    requires FixedStream(items, src, BytesBits(body), k)
    ensures DecodesTo(body, [Fixed(items)], src)
  {
    hide Lsb, FromLsb, BytesBits, ItemsBits, CodeBits, FixedLl, Expand, AllRefer, AllEncodable;
    var bits := BytesBits(body);
    var rest := ItemsBits(FixedCodes(), items) + EndBits(FixedCodes());
    assert bits == Lsb(3, 3) + (rest + Lsb(0, k)) by {
      assert ((Lsb(3, 3) + ItemsBits(FixedCodes(), items)) + EndBits(FixedCodes())) + Lsb(0, k)
          == Lsb(3, 3) + (rest + Lsb(0, k));
    }
    FixedHeader(bits, rest + Lsb(0, k));
    FixedOut(items, src);
    forall limit: nat | |src| <= limit
      ensures IsBlocks([Fixed(items)], bits, [], limit)
    {
      assert rest <= rest + Lsb(0, k);
      FixedBody(items, src, rest + Lsb(0, k), limit);
    }
  }

  lemma FixedHeader(bits: seq<bool>, rest: seq<bool>)
    requires bits == Lsb(3, 3) + rest
    ensures |bits| >= 3 && bits[0] && FromLsb(bits[1..3]) == 1 && bits[3..] == rest
  {
    assert Lsb(3, 3) == [true] + Lsb(1, 2) && Lsb(1, 2) == [true] + Lsb(0, 1) && Lsb(0, 1) == [false] + Lsb(0, 0);
    assert bits[1..3] == [true, false] && [true, false][1..] == [false] && [false][1..] == [];
  }

  lemma FixedOut(items: seq<Item>, src: seq<Byte>)
    requires AllRefer([], items) && Expand([], items) == src
    ensures BlocksOut([Fixed(items)], []) == src
  {
  }

  lemma FixedBody(items: seq<Item>, src: seq<Byte>, r: seq<bool>, limit: nat)
    requires AllEncodable(FixedCodes(), items) && AllRefer([], items) && Expand([], items) == src
    requires HasCode(FixedLl(), END_OF_BLOCK) && |src| <= limit
    requires ItemsBits(FixedCodes(), items) + EndBits(FixedCodes()) <= r
    ensures BodyAt(Fixed(items), r, [], limit)
  {
  }

  // ---- the stored body ------------------------------------------------------------------------------

  /** Stored blocks of up to 65535 bytes, the last one marked. */
  function StoredStream(src: seq<Byte>): seq<Byte>
  {
    if |src| <= STORED_MAX then [1] + StoredBytes(src)
    else ([0] + StoredBytes(src[..STORED_MAX])) + StoredStream(src[STORED_MAX..])
  }

  function StoredBlocks(src: seq<Byte>): seq<Block>
  {
    if |src| <= STORED_MAX then [Stored(src)]
    else [Stored(src[..STORED_MAX])] + StoredBlocks(src[STORED_MAX..])
  }

  /** The size that dyn_gzip_build computes for them. */
  function StoredSize(n: nat): nat
  {
    if n == 0 then 5 else (n + STORED_MAX - 1) / STORED_MAX * 5 + n
  }

  lemma {:induction false} StoredStreamSize(src: seq<Byte>)
    ensures |StoredStream(src)| == StoredSize(|src|)
  {
    var n := |src|;
    if n <= STORED_MAX {
      assert n > 0 ==> (n + STORED_MAX - 1) / STORED_MAX == 1;
    } else {
      StoredStreamSize(src[STORED_MAX..]);
      assert (n + STORED_MAX - 1) / STORED_MAX == (n - 1) / STORED_MAX + 1;
    }
  }

  /** dyn_deflate_stored: it succeeds exactly when the blocks fit. */
  method DeflateStored(src: seq<Byte>, o: OutBuf) returns (ok: bool)
    requires o.Valid() && o.buf == []
    modifies o
    ensures o.Valid()
    ensures ok <==> StoredSize(|src|) <= o.limit
    ensures ok ==> o.buf == StoredStream(src)
  {
    StoredStreamSize(src);
    if |src| == 0 {
      var room := o.Ensure(5);
      if !room {
        return false;
      }
      o.buf := o.buf + [0x01, 0x00, 0x00, 0xff, 0xff];
      return true;
    }
    var off := 0;
    assert src[0..] == src;
    while off < |src|
      invariant 0 <= off <= |src| && o.Valid()
      invariant off < |src| ==> o.buf + StoredStream(src[off..]) == StoredStream(src)
      invariant off == |src| ==> o.buf == StoredStream(src)
    {
      var chunk := Min(|src| - off, STORED_MAX);
      ghost var tail := src[off..];
      assert tail[..chunk] == src[off..off + chunk] && tail[chunk..] == src[off + chunk..];
      var room := o.Ensure(5 + chunk);
      if !room {
        return false;
      }
      var head: Byte := if off + chunk == |src| then 1 else 0;
      StoredChunk(o.buf, tail, chunk, head);
      o.buf := o.buf + ([head] + StoredBytes(src[off..off + chunk]));
      off := off + chunk;
    }
    ok := true;
  }

  lemma StoredChunk(buf: seq<Byte>, tail: seq<Byte>, chunk: nat, head: Byte)
    requires 0 < |tail| && chunk == Min(|tail|, STORED_MAX) && head == (if chunk == |tail| then 1 else 0)
    ensures var x := [head] + StoredBytes(tail[..chunk]);
            && 5 + chunk <= |StoredStream(tail)|
            && (chunk == |tail| ==> buf + x == buf + StoredStream(tail))
            && (chunk < |tail| ==> (buf + x) + StoredStream(tail[chunk..]) == buf + StoredStream(tail))
  {
  }

  /** A stored block at a byte boundary. */
  lemma StoredBlockAt(last: bool, data: seq<Byte>, rest: seq<Byte>, out: seq<Byte>, limit: nat)
    requires |data| <= STORED_MAX && |out| + |data| <= limit
    ensures var r := BytesBits(([if last then 1 else 0] + StoredBytes(data)) + rest);
            BlockAt(Stored(data), last, r, out, limit) && BlockRest(Stored(data), r) == BytesBits(rest)
  {
    hide BytesBits, Lsb, FromLsb;
    var h: Byte := if last then 1 else 0;
    var d := StoredBytes(data) + rest;
    assert ([h] + StoredBytes(data)) + rest == [h] + d;
    BytesConcat([h], d);
    BytesOne(h);
    var r := BytesBits([h] + d);
    StoredBits(h, last, r, BytesBits(d));
    BytesLength(d);
    AlignedAfter(r, BytesBits(d));
    BytesPrefix(StoredBytes(data), d);
    DropBytes(d, StoredBytes(data));
    assert d[|StoredBytes(data)|..] == rest;
  }

  lemma StoredBits(h: Byte, last: bool, r: seq<bool>, tail: seq<bool>)
    requires h == (if last then 1 else 0) && r == Lsb(h, 8) + tail
    ensures |r| >= 8 && r[0] == last && FromLsb(r[1..3]) == 0 && r[8..] == tail
  {
    hide Lsb, FromLsb;
    FlagByte(h);
    assert r[1..3] == [false, false];
    NoBits();
  }

  lemma FlagByte(v: nat)
    requires v <= 1
    ensures Lsb(v, 8)[0] == (v == 1) && !Lsb(v, 8)[1] && !Lsb(v, 8)[2]
  {
  }

  lemma NoBits()
    ensures FromLsb([false, false]) == 0
  {
  }

  lemma AlignedAfter(r: seq<bool>, tail: seq<bool>)
    requires |r| >= 8 && r[8..] == tail && |tail| % 8 == 0
    ensures Aligned(r[3..]) == tail
  {
  }

  lemma {:induction false} StoredStreamBlocks(src: seq<Byte>, out: seq<Byte>, limit: nat)
    requires |out| + |src| <= limit
    ensures IsBlocks(StoredBlocks(src), BytesBits(StoredStream(src)), out, limit)
    ensures BlocksOut(StoredBlocks(src), out) == out + src
    decreases |src|
  {
    hide BlockAt, BlockRest, BytesBits, StoredBytes;
    if |src| <= STORED_MAX {
      assert ([1] + StoredBytes(src)) + [] == [1] + StoredBytes(src);
      StoredBlockAt(true, src, [], out, limit);
      assert [Stored(src)][1..] == [];
    } else {
      var a, b := src[..STORED_MAX], src[STORED_MAX..];
      StoredBlockAt(false, a, StoredStream(b), out, limit);
      StoredStreamBlocks(b, out + a, limit);
      var blocks := StoredBlocks(src);
      assert blocks[0] == Stored(a) && blocks[1..] == StoredBlocks(b);
      assert (out + a) + b == out + src;
      NonEmptyBlocks(b);
    }
  }

  lemma NonEmptyBlocks(src: seq<Byte>)
    ensures |StoredBlocks(src)| >= 1
  {
  }

  lemma StoredDecodes(src: seq<Byte>)
    ensures DecodesTo(StoredStream(src), StoredBlocks(src), src)
  {
    forall limit: nat | |src| <= limit
      ensures IsBlocks(StoredBlocks(src), BytesBits(StoredStream(src)), [], limit)
    {
      StoredStreamBlocks(src, [], limit);
    }
    StoredStreamBlocks(src, [], |src|);
  }
}
