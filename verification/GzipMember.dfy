/** gzip members (section 2.3 of RFC 1952): building one, and taking one apart. */
module GzipMember {
  import opened BitSeq
  import opened BitIo
  import opened StoredBlock
  import opened InflateStream
  import opened Deflate
  import opened Gzip
  import opened Crc
  import opened Common

  /** A 32-bit number, low byte first. */
  function Le32(n: nat): (s: seq<Byte>)
    requires n < 0x1_0000_0000
    ensures |s| == 4
  {
    [n % 256, n / 256 % 256, n / 256 / 256 % 256, n / 256 / 256 / 256]
  }

  function FromLe32(a: Byte, b: Byte, c: Byte, d: Byte): nat
  {
    Above(a, Above(b, Above(c, d)))
  }

  function Above(x: Byte, n: nat): nat
  {
    var v: int := x;
    v + 256 * n
  }

  lemma AboveIs(x: Byte, n: nat, m: nat)
    ensures Above(x, n) == m <==> x == m % 256 && n == m / 256
  {
  }

  lemma Le32Inverse(n: nat, s: seq<Byte>)
    requires n < 0x1_0000_0000 && |s| == 4
    ensures FromLe32(s[0], s[1], s[2], s[3]) == n <==> s == Le32(n)
  {
    hide Above;
    AboveIs(s[2], s[3], n / 256 / 256);
    AboveIs(s[1], Above(s[2], s[3]), n / 256);
    AboveIs(s[0], Above(s[1], Above(s[2], s[3])), n);
  }

  /** CRC32 and ISIZE. */
  function Trailer(data: seq<Byte>): seq<Byte>
  {
    Le32(Crc32(data)) + Le32(|data| % 0x1_0000_0000)
  }

  const PLAIN_HEADER: seq<Byte> := [0x1f, 0x8b, 0x08, 0x00, 0x00, 0x00, 0x00, 0x00, 0x00, 0xff]

  /** dyn_gzip_build. The rooms say how far each buffer may grow, tables and
      outRoom whether the chain tables and the result could be allocated. */
  method GzipBuild(src: seq<Byte>, fixedRoom: nat, storedRoom: nat, tables: bool, outRoom: bool)
    returns (ok: bool, out: seq<Byte>, ghost body: seq<Byte>, ghost blocks: seq<Block>)
    requires fixedRoom <= MAX_OUTPUT && storedRoom <= MAX_OUTPUT
    ensures ok ==> out == PLAIN_HEADER + body + Trailer(src) && DecodesTo(body, blocks, src)
    ensures ok && StoredSize(|src|) <= storedRoom ==> |body| <= StoredSize(|src|)
    ensures outRoom && StoredSize(|src|) <= storedRoom ==> ok
  {
    hide DecodesTo, StoredSize, FixedStream, Trailer;
    var o := new OutBuf(fixedRoom);
    var sb := new OutBuf(storedRoom);
    var bytes;
    ghost var items;
    ok, items := DeflateFixed(src, o, tables);
    blocks := StoredBlocks(src);
    StoredDecodes(src);
    StoredStreamSize(src);
    if !ok {
      var fine := DeflateStored(src, sb);
      if !fine {
        return false, [], [], [];
      }
      bytes := sb.buf;
    } else {
      bytes := o.buf;
      ghost var k: nat :| k < 8 && FixedStream(items, src, BytesBits(o.buf), k);
      FixedDecodes(items, src, o.buf, k);
      blocks := [Fixed(items)];
      if |o.buf| >= StoredSize(|src|) {
        var fine := DeflateStored(src, sb);
        if fine && |sb.buf| < |o.buf| {
          bytes := sb.buf;
          blocks := StoredBlocks(src);
        }
      }
    }
    body := bytes;
    if !outRoom {
      return false, [], [], [];
    }
    var crc := ComputeCrc(src);
    out := PLAIN_HEADER + bytes + TrailerOf(crc, |src|);
    TrailerIs(src);
    ok := true;
  }

  function TrailerOf(crc: nat, n: nat): seq<Byte>
    requires crc < 0x1_0000_0000
  {
    Le32(crc) + Le32(n % 0x1_0000_0000)
  }

  lemma TrailerIs(data: seq<Byte>)
    ensures Trailer(data) == TrailerOf(Crc32(data), |data|)
  {
  }

  // ---- the header ---------------------------------------------------------------------------------

  /** The parts of a member's header: FTEXT, the six bytes MTIME, XFL and OS, and
      the optional fields. */
  datatype MemberHeader = MemberHeader(text: bool, misc: seq<Byte>, extra: Option<seq<Byte>>,
                                       name: Option<seq<Byte>>, comment: Option<seq<Byte>>, hcrc: Option<seq<Byte>>)

  predicate ValidHeader(h: MemberHeader)
  {
    && |h.misc| == 6
    && (h.extra.Some? ==> |h.extra.value| <= STORED_MAX)
    && (h.name.Some? ==> 0 !in h.name.value)
    && (h.comment.Some? ==> 0 !in h.comment.value)
    && (h.hcrc.Some? ==> |h.hcrc.value| == 2)
  }

  function Flags(h: MemberHeader): Byte
  {
    (if h.text then 1 else 0) + (if h.hcrc.Some? then 2 else 0) + (if h.extra.Some? then 4 else 0)
    + (if h.name.Some? then 8 else 0) + (if h.comment.Some? then 16 else 0)
  }

  predicate Flag(flg: Byte, weight: nat)
    requires weight > 0
  {
    flg / weight % 2 == 1
  }

  lemma FlagsSet(h: MemberHeader)
    ensures Flags(h) < 32
    ensures Flag(Flags(h), 2) == h.hcrc.Some? && Flag(Flags(h), 4) == h.extra.Some?
    ensures Flag(Flags(h), 8) == h.name.Some? && Flag(Flags(h), 16) == h.comment.Some?
  {
  }

  function ExtraBytes(x: Option<seq<Byte>>): seq<Byte>
    requires x.Some? ==> |x.value| <= STORED_MAX
  {
    if x.Some? then [|x.value| % 256, |x.value| / 256] + x.value else []
  }

  function StringBytes(x: Option<seq<Byte>>): seq<Byte>
  {
    if x.Some? then x.value + [0] else []
  }

  function CrcBytes(x: Option<seq<Byte>>): seq<Byte>
  {
    if x.Some? then x.value else []
  }

  function OptionalFields(h: MemberHeader): seq<Byte>
    requires ValidHeader(h)
  {
    ExtraBytes(h.extra) + (StringBytes(h.name) + (StringBytes(h.comment) + CrcBytes(h.hcrc)))
  }

  function HeaderBytes(h: MemberHeader): seq<Byte>
    requires ValidHeader(h)
  {
    ([0x1f, 0x8b, 0x08, Flags(h)] + h.misc) + OptionalFields(h)
  }

  /** Skip an FEXTRA field. */
  method SkipExtra(src: seq<Byte>, pos: nat, ghost x: seq<Byte>, ghost rest: seq<Byte>) returns (ok: bool, next: nat)
    requires pos <= |src|
    ensures ok ==> pos <= next <= |src|
    ensures |x| <= STORED_MAX && src[pos..] == ExtraBytes(Some(x)) + rest ==> ok && src[next..] == rest
  {
    next := pos;
    if pos + 2 > |src| {
      return false, pos;
    }
    var xlen := Le16(src[pos], src[pos + 1]);
    next := pos + 2;
    if |x| <= STORED_MAX && src[pos..] == ExtraBytes(Some(x)) + rest {
      assert src[pos] == src[pos..][0] == |x| % 256 && src[pos + 1] == src[pos..][1] == |x| / 256;
      assert src[pos..][2 + |x|..] == rest;
    }
    if xlen > |src| - next {
      return false, next;
    }
    next := next + xlen;
    ok := true;
  }

  /** Skip a zero-terminated string. */
  method SkipString(src: seq<Byte>, pos: nat, ghost x: seq<Byte>, ghost rest: seq<Byte>) returns (ok: bool, next: nat)
    requires pos <= |src|
    ensures ok ==> pos <= next <= |src|
    ensures 0 !in x && src[pos..] == StringBytes(Some(x)) + rest ==> ok && src[next..] == rest
  {
    next := pos;
    ghost var promised := 0 !in x && src[pos..] == StringBytes(Some(x)) + rest;
    if promised { StringAt(src, pos, x, rest); }
    while next < |src| && src[next] != 0
      invariant pos <= next <= |src|
      invariant forall i :: pos <= i < next ==> src[i] != 0
    {
      next := next + 1;
    }
    if next >= |src| {
      return false, next;
    }
    next := next + 1;
    ok := true;
  }

  lemma StringAt(src: seq<Byte>, pos: nat, x: seq<Byte>, rest: seq<Byte>)
    requires pos <= |src| && 0 !in x && src[pos..] == StringBytes(Some(x)) + rest
    ensures pos + |x| < |src| && src[pos + |x|] == 0 && src[pos + |x| + 1..] == rest
    ensures forall i :: pos <= i < pos + |x| ==> src[i] != 0
  {
  }

  /** The fixed part of the header and the optional fields: where the body starts. */
  method SkipHeader(src: seq<Byte>, ghost h: MemberHeader, ghost rest: seq<Byte>) returns (ok: bool, pos: nat)
    requires |src| >= 18 && ValidHeader(h)
    ensures ok ==> pos <= |src|
    ensures src == HeaderBytes(h) + rest ==> ok && src[pos..] == rest
  {
    hide ExtraBytes, StringBytes, CrcBytes, Flag, Flags, ValidHeader, HeaderBytes;
    pos := 10;
    AbsentFields(h);
    ghost var promised := src == HeaderBytes(h) + rest;
    FlagsSet(h);
    ghost var e, n, c, k := ExtraBytes(h.extra), StringBytes(h.name), StringBytes(h.comment), CrcBytes(h.hcrc);
    if promised { FixedPart(src, h, e, n, c, k, rest); }
    if src[0] != 0x1f || src[1] != 0x8b || src[2] != 0x08 {
      return false, pos;
    }
    var flg := src[3];
    if flg >= 32 {
      return false, pos;
    }
    if Flag(flg, 4) {
      ok, pos := SkipExtra(src, pos, if h.extra.Some? then h.extra.value else [], n + (c + (k + rest)));
      if !ok {
        return;
      }
    }
    if Flag(flg, 8) {
      ok, pos := SkipString(src, pos, if h.name.Some? then h.name.value else [], c + (k + rest));
      if !ok {
        return;
      }
    }
    if Flag(flg, 16) {
      ok, pos := SkipString(src, pos, if h.comment.Some? then h.comment.value else [], k + rest);
      if !ok {
        return;
      }
    }
    if Flag(flg, 2) {
      if pos + 2 > |src| {
        return false, pos;
      }
      assert promised ==> src[pos..][2..] == rest;
      pos := pos + 2;
    }
    ok := true;
  }

  lemma FixedPart(src: seq<Byte>, h: MemberHeader, e: seq<Byte>, n: seq<Byte>, c: seq<Byte>, k: seq<Byte>,
                  rest: seq<Byte>)
    requires ValidHeader(h) && src == HeaderBytes(h) + rest
    requires e == ExtraBytes(h.extra) && n == StringBytes(h.name) && c == StringBytes(h.comment)
             && k == CrcBytes(h.hcrc)
    ensures |src| >= 10 && src[0] == 0x1f && src[1] == 0x8b && src[2] == 0x08 && src[3] == Flags(h)
    ensures src[10..] == e + (n + (c + (k + rest)))
  {
    var first := [0x1f, 0x8b, 0x08, Flags(h)] + h.misc;
    assert src == first + (OptionalFields(h) + rest);
    assert src[..4] == [0x1f, 0x8b, 0x08, Flags(h)];
    assert src[10..] == (e + (n + (c + k))) + rest;
  }

  lemma AbsentFields(h: MemberHeader)
    requires ValidHeader(h)
    ensures h.extra.None? ==> ExtraBytes(h.extra) == []
    ensures h.extra.Some? ==> ExtraBytes(h.extra) == ExtraBytes(Some(h.extra.value))
    ensures h.name.None? ==> StringBytes(h.name) == []
    ensures h.comment.None? ==> StringBytes(h.comment) == []
    ensures h.hcrc.None? ==> CrcBytes(h.hcrc) == []
    ensures h.hcrc.Some? ==> |CrcBytes(h.hcrc)| == 2
    ensures h.extra.Some? ==> |h.extra.value| <= STORED_MAX
    ensures (h.name.Some? ==> 0 !in h.name.value) && (h.comment.Some? ==> 0 !in h.comment.value)
  {
  }

  // ---- taking a member apart ------------------------------------------------------------------------

  /** A member with this header, body and contents. */
  ghost predicate IsMember(src: seq<Byte>, h: MemberHeader, body: seq<Byte>, blocks: seq<Block>, data: seq<Byte>)
  {
    ValidHeader(h) && DecodesTo(body, blocks, data) && src == HeaderBytes(h) + (body + Trailer(data))
  }

  /** dyn_gunzip_decode: it accepts every member whose contents fit, and what it
      accepts ends in the trailer of what it returns. */
  method GunzipDecode(src: seq<Byte>, o: OutBuf, ghost h: MemberHeader, ghost body: seq<Byte>,
                      ghost blocks: seq<Block>, ghost data: seq<Byte>)
    returns (ok: bool, ghost start: nat, ghost found: seq<Block>)
    requires o.Valid() && o.buf == [] && ValidHeader(h)
    modifies o
    ensures o.Valid()
    ensures ok ==> start + 8 <= |src| && src[|src| - 8..] == Trailer(o.buf)
                   && IsBlocks(found, BytesBits(src[start..|src| - 8]), [], o.limit) && o.buf == BlocksOut(found, [])
    ensures IsMember(src, h, body, blocks, data) && |data| <= o.limit ==> ok && o.buf == data
  {
    hide HeaderBytes, ValidHeader, DecodesTo, Trailer, IsBlocks, BlocksOut, BytesBits, Le32, FromLe32, Crc32;
    ghost var promised := IsMember(src, h, body, blocks, data) && |data| <= o.limit;
    start, found := 0, [];
    if promised { MemberLength(src, h, body, data); }
    if |src| < 18 {
      return false, start, found;
    }
    var pos;
    ok, pos := SkipHeader(src, h, body + Trailer(data));
    start := pos;
    if !ok || pos + 8 > |src| {
      TrailerLength(data);
      return false, start, found;
    }
    var inner := src[pos..|src| - 8];
    if promised {
      TrailerLength(data);
      assert inner == body by { assert inner == src[pos..][..|src| - 8 - pos]; }
      DecodesWithin(body, blocks, data, o.limit);
    }
    ok, found := InflateAll(inner, o, blocks);
    if !ok {
      return;
    }
    var t := src[|src| - 8..];
    assert promised ==> t == Trailer(data) by { if promised { assert src[pos..][|body|..] == t; } }
    var computed := ComputeCrc(o.buf);
    TrailerCheck(t, o.buf);
    if computed != FromLe32(t[0], t[1], t[2], t[3]) {
      return false, start, found;
    }
    if |o.buf| % 0x1_0000_0000 != FromLe32(t[4], t[5], t[6], t[7]) {
      return false, start, found;
    }
  }

  lemma TrailerLength(data: seq<Byte>)
    ensures |Trailer(data)| == 8
  {
  }

  lemma MemberLength(src: seq<Byte>, h: MemberHeader, body: seq<Byte>, data: seq<Byte>)
    requires ValidHeader(h) && src == HeaderBytes(h) + (body + Trailer(data))
    ensures |src| >= 18
  {
  }

  lemma DecodesWithin(body: seq<Byte>, blocks: seq<Block>, data: seq<Byte>, limit: nat)
    requires DecodesTo(body, blocks, data) && |data| <= limit
    ensures IsBlocks(blocks, BytesBits(body), [], limit) && BlocksOut(blocks, []) == data
  {
  }

  lemma TrailerCheck(t: seq<Byte>, data: seq<Byte>)
    requires |t| == 8
    ensures t == Trailer(data) <==> FromLe32(t[0], t[1], t[2], t[3]) == Crc32(data)
                                    && FromLe32(t[4], t[5], t[6], t[7]) == |data| % 0x1_0000_0000
  {
    hide Le32, FromLe32, Crc32;
    var a, b := t[..4], t[4..];
    assert t == a + b;
    Le32Inverse(Crc32(data), a);
    Le32Inverse(|data| % 0x1_0000_0000, b);
    SplitAtFour(t, Le32(Crc32(data)), Le32(|data| % 0x1_0000_0000));
  }

  lemma SplitAtFour(t: seq<Byte>, a: seq<Byte>, b: seq<Byte>)
    requires |t| == 8 && |a| == 4 && |b| == 4
    ensures t == a + b <==> t[..4] == a && t[4..] == b
  {
  }

  const PLAIN: MemberHeader := MemberHeader(false, [0x00, 0x00, 0x00, 0x00, 0x00, 0xff], None, None, None, None)

  lemma PlainHeader()
    ensures ValidHeader(PLAIN) && HeaderBytes(PLAIN) == PLAIN_HEADER
  {
  }

  /** gunzip undoes gzip: whenever gzip succeeds on an input of up to 2^30 bytes,
      whichever encoding it chose, gunzip succeeds on its output and gives the input
      back. */
  method GzipThenGunzip(src: seq<Byte>, fixedRoom: nat, storedRoom: nat, tables: bool, outRoom: bool)
    returns (zipped: bool, out: seq<Byte>, ghost body: seq<Byte>, ok: bool, back: seq<Byte>)
    requires |src| <= MAX_OUTPUT && fixedRoom <= MAX_OUTPUT && storedRoom <= MAX_OUTPUT
    ensures zipped ==> ok && back == src && out == PLAIN_HEADER + body + Trailer(src)
    ensures zipped && StoredSize(|src|) <= storedRoom ==> |body| <= StoredSize(|src|)
    ensures outRoom && StoredSize(|src|) <= storedRoom ==> zipped
    ensures ok ==> zipped
  {
    hide DecodesTo, Trailer, ValidHeader, HeaderBytes, StoredSize;
    ok, back := false, [];
    ghost var blocks;
    zipped, out, body, blocks := GzipBuild(src, fixedRoom, storedRoom, tables, outRoom);
    if zipped {
      var o := new OutBuf(MAX_OUTPUT);
      PlainHeader();
      assert PLAIN_HEADER + body + Trailer(src) == PLAIN_HEADER + (body + Trailer(src));
      ghost var start, found;
      ok, start, found := GunzipDecode(out, o, PLAIN, body, blocks, src);
      back := o.buf;
    }
  }
}
