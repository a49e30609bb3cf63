/** Stored blocks (section 3.2.4 of RFC 1951): the length, its complement, and the
    bytes, from the next byte boundary on. */
module StoredBlock {
  import opened Arith
  import opened BitSeq
  import opened BitIo

  const STORED_MAX: nat := 65535

  /** LEN and NLEN, low byte first. */
  function LengthField(n: nat): seq<Byte>
    requires n <= STORED_MAX
  {
    [n % 256, n / 256, 255 - n % 256, 255 - n / 256]
  }

  /** A 16-bit number, low byte first. */
  function Le16(lo: Byte, hi: Byte): (n: nat)
    ensures n <= STORED_MAX
  {
    var l: int, h: int := lo, hi;
    l + 256 * h
  }

  function StoredBytes(data: seq<Byte>): seq<Byte>
    requires |data| <= STORED_MAX
  {
    LengthField(|data|) + data
  }

  /** The bits from the next byte boundary on. */
  ghost function Aligned(r: seq<bool>): seq<bool>
  {
    r[|r| % 8..]
  }

  ghost predicate StoredAt(r: seq<bool>, data: seq<Byte>)
  {
    |data| <= STORED_MAX && BytesBits(StoredBytes(data)) <= Aligned(r)
  }

  // ---- bytes are determined by their bits -----------------------------------------------------

  lemma {:induction false} BytesPrefix(a: seq<Byte>, b: seq<Byte>)
    ensures BytesBits(a) <= BytesBits(b) <==> a <= b
  {
    if a == [] {
    } else {
      if a <= b {
        assert b == a + b[|a|..];
        BytesConcat(a, b[|a|..]);
      }
      if BytesBits(a) <= BytesBits(b) {
        assert Lsb(a[0], 8) == BytesBits(b)[..8] == Lsb(b[0], 8);
        ByteBits(a[0], b[0]);
        assert BytesBits(a[1..]) == BytesBits(a)[8..] && BytesBits(b[1..]) == BytesBits(b)[8..];
        BytesPrefix(a[1..], b[1..]);
        assert a == [a[0]] + a[1..] && b == [b[0]] + b[1..];
      }
    }
  }

  lemma ByteBits(x: Byte, y: Byte)
    requires Lsb(x, 8) == Lsb(y, 8)
    ensures x == y
  {
    hide Lsb, Pow;
    assert Pow(2, 8) == 256 by { FastPowIsPow(2, 8); }
    FromLsbOf(x, 8);
    FromLsbOf(y, 8);
  }

  lemma AlignedReader(v: nat, n: nat, d: seq<Byte>, r: seq<bool>)
    requires n < 8 && r == Lsb(v, n) + BytesBits(d)
    ensures Aligned(r) == BytesBits(d)
  {
  }

  /** The bytes d start with a stored block holding data. */
  ghost predicate Carries(d: seq<Byte>, data: seq<Byte>)
  {
    |data| <= STORED_MAX && StoredBytes(data) <= d
  }

  lemma StoredIs(d: seq<Byte>, r: seq<bool>, data: seq<Byte>)
    requires Aligned(r) == BytesBits(d)
    ensures StoredAt(r, data) <==> Carries(d, data)
  {
    if |data| <= STORED_MAX { BytesPrefix(StoredBytes(data), d); }
  }

  lemma CarriesField(d: seq<Byte>, data: seq<Byte>)
    requires Carries(d, data)
    ensures |d| >= 4 + |data| && Le16(d[0], d[1]) == |data| && Le16(d[2], d[3]) == 0xffff - |data|
    ensures data == d[4..4 + |data|]
  {
  }

  lemma FieldCarries(d: seq<Byte>, n: nat)
    requires |d| >= 4 + n && Le16(d[0], d[1]) == n && Le16(d[2], d[3]) == 0xffff - n
    ensures Carries(d, d[4..4 + n])
  {
  }

  /** dyn_inflate_stored: it succeeds exactly on a stored block that fits. */
  method InflateStored(s: BitReader, o: OutBuf, ghost plan: seq<Byte>) returns (ok: bool, data: seq<Byte>)
    requires s.Valid() && !s.error && o.Valid()
    modifies s, o
    ensures s.Valid() && o.Valid()
    ensures ok ==> StoredAt(old(s.Rest()), data) && |old(o.buf)| + |data| <= o.limit
    ensures ok ==> !s.error && o.buf == old(o.buf) + data
                   && s.Rest() == Aligned(old(s.Rest()))[8 * |StoredBytes(data)|..]
    ensures StoredAt(old(s.Rest()), plan) && |old(o.buf)| + |plan| <= o.limit ==> ok && data == plan
  {
    hide BytesBits, Lsb, Pow, Carries, StoredAt, Aligned, Le16;
    ghost var r, d := s.Rest(), s.data[s.pos..];
    AlignedReader(s.bitbuf, s.bitcnt, d, r);
    StoredIs(d, r, plan);
    if Carries(d, plan) { CarriesField(d, plan); }
    data := [];
    s.bitbuf, s.bitcnt := 0, 0;
    PowerStep(0);
    if s.pos + 4 > |s.data| {
      s.error := true;
      return false, data;
    }
    var len := Le16(s.data[s.pos], s.data[s.pos + 1]);
    var nlen := Le16(s.data[s.pos + 2], s.data[s.pos + 3]);
    s.pos := s.pos + 4;
    if 0xffff - len != nlen {
      return false, data;
    }
    if len > |s.data| - s.pos {
      s.error := true;
      return false, data;
    }
    var room := o.Ensure(len);
    if !room {
      return false, data;
    }
    data := s.data[s.pos..s.pos + len];
    assert data == d[4..4 + len];
    FieldCarries(d, len);
    StoredIs(d, r, data);
    AfterStored(d, data);
    o.buf := o.buf + data;
    s.pos := s.pos + len;
    assert s.data[s.pos..] == d[4 + len..];
    ok := true;
  }

  lemma AfterStored(d: seq<Byte>, data: seq<Byte>)
    requires Carries(d, data)
    ensures |data| <= STORED_MAX && 4 + |data| <= |d|
    ensures Lsb(0, 0) + BytesBits(d[4 + |data|..]) == BytesBits(d)[8 * |StoredBytes(data)|..]
  {
    hide BytesBits;
    var x := StoredBytes(data);
    assert |x| == 4 + |data|;
    DropBytes(d, x);
    EmptyBits(0);
  }

  lemma DropBytes(d: seq<Byte>, x: seq<Byte>)
    requires x <= d
    ensures BytesBits(d[|x|..]) == BytesBits(d)[8 * |x|..]
  {
    hide BytesBits;
    assert d == x + d[|x|..];
    BytesConcat(x, d[|x|..]);
    BytesLength(x);
  }

  lemma BytesLength(x: seq<Byte>)
    ensures |BytesBits(x)| == 8 * |x|
  {
  }
}
