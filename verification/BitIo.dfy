/** The growable output buffer, the bit reader and the bit writer of the DEFLATE
    code, each described by the bit sequence it stands for. */
module BitIo {
  import opened Arith
  import opened BitSeq

  /** DYN_MAX_OUTPUT */
  const MAX_OUTPUT: nat := 0x4000_0000

  /** dyn_outbuf_t. The limit stands for both the cap on the output size and the
      most the allocator grants. */
  class OutBuf {
    var buf: seq<Byte>
    const limit: nat

    ghost predicate Valid()
      reads this
    {
      |buf| <= limit <= MAX_OUTPUT
    }

    constructor (limit: nat)
      requires limit <= MAX_OUTPUT
      ensures Valid() && buf == [] && this.limit == limit
    {
      buf := [];
      this.limit := limit;
    }

    /** dyn_ob_ensure */
    method Ensure(extra: nat) returns (ok: bool)
      requires Valid()
      ensures ok <==> |buf| + extra <= limit
    {
      ok := |buf| + extra <= limit;
    }
  }

  /** dyn_bitreader_t */
  class BitReader {
    const data: seq<Byte>
    var pos: nat
    var bitbuf: nat
    var bitcnt: nat
    var error: bool

    ghost predicate Valid()
      reads this
    {
      pos <= |data| && bitbuf < Pow(2, bitcnt) && (!error ==> bitcnt < 8)
    }

    /** The bits not yet read. */
    ghost function Rest(): (s: seq<bool>)
      requires Valid()
      reads this
    {
      Lsb(bitbuf, bitcnt) + BytesBits(data[pos..])
    }

    constructor (data: seq<Byte>)
      ensures Valid() && !error && pos == 0 && bitcnt == 0 && this.data == data
      ensures Rest() == BytesBits(data)
    {
      this.data := data;
      pos, bitbuf, bitcnt, error := 0, 0, 0, false;
      new;
      assert data[0..] == data;
    }

    /** dyn_bits: the next need bits as a number, low bit first. */
    method Bits(need: nat) returns (r: nat)
      requires Valid() && need <= 15
      modifies this
      ensures Valid()
      ensures error <==> old(error) || |old(Rest())| < need
      ensures |old(Rest())| >= need ==> r == FromLsb(old(Rest())[..need]) && Rest() == old(Rest())[need..]
      ensures r < Pow(2, need)
    {
      hide Lsb, Pow, BytesBits, Shl, Shr, LowBits, FromLsb;
      ghost var rest := Rest();
      var val := bitbuf;
      while bitcnt < need
        invariant pos <= |data| && error == old(error) && 0 <= val < Pow(2, bitcnt)
        invariant bitcnt < need + 8 || bitcnt == old(bitcnt)
        invariant bitbuf == old(bitbuf) && old(bitcnt) <= bitcnt
        invariant Lsb(val, bitcnt) + BytesBits(data[pos..]) == rest
        decreases need - bitcnt
      {
        if pos >= |data| {
          error := true;
          NoBytes(data[pos..]);
          PowMonoExp(2, old(bitcnt), bitcnt);
          PowMonoExp(2, 0, need);
          PowerStep(0);
          return 0;
        }
        NextByte(val, bitcnt, data[pos], data[pos..], rest);
        assert data[pos..][1..] == data[pos + 1..];
        val := val + Shl(data[pos], bitcnt);
        pos := pos + 1;
        bitcnt := bitcnt + 8;
      }
      TakeBits(val, bitcnt, need, BytesBits(data[pos..]), rest);
      bitbuf := Shr(val, need);
      bitcnt := bitcnt - need;
      r := LowBits(val, need);
    }
  }

  lemma NoBytes(d: seq<Byte>)
    requires d == []
    ensures BytesBits(d) == []
  {
  }

  lemma NextByte(val: nat, n: nat, x: Byte, d: seq<Byte>, rest: seq<bool>)
    requires d != [] && x == d[0] && val < Pow(2, n) && Lsb(val, n) + BytesBits(d) == rest
    ensures val + Shl(x, n) < Pow(2, n + 8)
    ensures Lsb(val + Shl(x, n), n + 8) + BytesBits(d[1..]) == rest
  {
    hide Lsb, Pow;
    LsbJoin(val, n, x, 8);
    PowAdd(2, n, 8);
    MulMono(x + 1, 256, Pow(2, n));
    FastPowIsPow(2, 8);
    assert (Lsb(val, n) + Lsb(x, 8)) + BytesBits(d[1..]) == Lsb(val, n) + (Lsb(x, 8) + BytesBits(d[1..]));
  }

  lemma TakeBits(val: nat, n: nat, need: nat, tail: seq<bool>, rest: seq<bool>)
    requires need <= n && val < Pow(2, n) && Lsb(val, n) + tail == rest
    ensures LowBits(val, need) == FromLsb(rest[..need]) && LowBits(val, need) < Pow(2, need)
    ensures Shr(val, need) < Pow(2, n - need)
    ensures Lsb(Shr(val, need), n - need) + tail == rest[need..]
  {
    hide Lsb, Pow;
    LsbSplit(val, need, n - need);
    FromLsbOf(val, need);
    assert rest[..need] == Lsb(val, need);
    assert rest[need..] == Lsb(val / Pow(2, need), n - need) + tail;
    PowAdd(2, need, n - need);
    DivModEq(val, Pow(2, need));
    MulCancelLt(val / Pow(2, need), Pow(2, n - need), Pow(2, need));
  }

  /** dyn_bitwriter_t */
  class BitWriter {
    const o: OutBuf
    var bitbuf: nat
    var bitcnt: nat

    ghost predicate Valid()
      reads this, o
    {
      o.Valid() && bitbuf < Pow(2, bitcnt) && bitcnt < 8
    }

    /** The bits written so far. */
    ghost function Written(): (s: seq<bool>)
      reads this, o
    {
      BytesBits(o.buf) + Lsb(bitbuf, bitcnt)
    }

    constructor (o: OutBuf)
      requires o.Valid()
      ensures Valid() && this.o == o && bitcnt == 0 && Written() == BytesBits(o.buf)
    {
      this.o := o;
      bitbuf, bitcnt := 0, 0;
    }

    /** dyn_wbits: append the nbits low bits of value. It fails when the bytes
        completed by them do not fit. */
    method Wbits(value: nat, nbits: nat) returns (ok: bool)
      requires Valid()
      modifies this, o
      ensures ok <==> (|old(Written())| + nbits) / 8 <= o.limit
      ensures o.Valid() && old(o.buf) <= o.buf
      ensures ok ==> Valid() && Written() == old(Written()) + Lsb(value, nbits)
    {
      hide Lsb, Pow, BytesBits, Shl, LowBits;
      ghost var target := Written() + Lsb(value, nbits);
      PushBits(bitbuf, bitcnt, value, nbits, BytesBits(o.buf));
      bitbuf := bitbuf + Shl(LowBits(value, nbits), bitcnt);
      bitcnt := bitcnt + nbits;
      while bitcnt >= 8
        invariant o.Valid() && bitbuf < Pow(2, bitcnt) && old(o.buf) <= o.buf
        invariant Written() == target
      {
        var room := o.Ensure(1);
        if !room {
          return false;
        }
        FirstByte(bitbuf, bitcnt, o.buf);
        o.buf := o.buf + [bitbuf % 256];
        bitbuf := bitbuf / 256;
        bitcnt := bitcnt - 8;
      }
      ok := true;
    }

    /** dyn_wflush: fill the last byte up with zero bits. */
    method Flush() returns (ok: bool)
      requires Valid()
      modifies this, o
      ensures ok <==> (|old(Written())| + 7) / 8 <= o.limit
      ensures o.Valid() && old(o.buf) <= o.buf
      ensures ok ==> Valid() && exists k: nat :: k < 8 && BytesBits(o.buf) == old(Written()) + Lsb(0, k)
    {
      hide Lsb, Pow, BytesBits;
      if bitcnt > 0 {
        var room := o.Ensure(1);
        if !room {
          return false;
        }
        PowMonoExp(2, bitcnt, 8);
        FastPowIsPow(2, 8);
        PadByte(bitbuf, bitcnt);
        BytesSnoc(o.buf, bitbuf % 256);
        assert BytesBits(o.buf + [bitbuf % 256]) == Written() + Lsb(0, 8 - bitcnt);
        o.buf := o.buf + [bitbuf % 256];
        bitbuf, bitcnt := 0, 0;
        PowerStep(0);
      } else {
        EmptyBits(bitbuf);
        assert BytesBits(o.buf) == Written() + Lsb(0, 0);
      }
      ok := true;
    }
  }

  lemma EmptyBits(v: nat)
    ensures Lsb(v, 0) == [] && Lsb(0, 0) == []
  {
  }

  lemma PadByte(v: nat, n: nat)
    requires n < 8 && v < Pow(2, n)
    ensures Lsb(v, 8) == Lsb(v, n) + Lsb(0, 8 - n)
  {
    hide Lsb, Pow;
    LsbJoin(v, n, 0, 8 - n);
  }

  lemma PushBits(buf: nat, cnt: nat, value: nat, n: nat, front: seq<bool>)
    requires buf < Pow(2, cnt)
    ensures var b := buf + Shl(LowBits(value, n), cnt);
            b < Pow(2, cnt + n) && front + Lsb(b, cnt + n) == (front + Lsb(buf, cnt)) + Lsb(value, n)
  {
    hide Lsb, Pow;
    PowerStep(n);
    var v := value % Pow(2, n);
    LsbLow(value, n);
    LsbJoin(buf, cnt, v, n);
    PowAdd(2, cnt, n);
    MulMono(v + 1, Pow(2, n), Pow(2, cnt));
    assert (front + Lsb(buf, cnt)) + Lsb(v, n) == front + (Lsb(buf, cnt) + Lsb(v, n));
  }

  lemma FirstByte(buf: nat, cnt: nat, out: seq<Byte>)
    requires cnt >= 8 && buf < Pow(2, cnt)
    ensures buf / 256 < Pow(2, cnt - 8)
    ensures BytesBits(out + [buf % 256]) + Lsb(buf / 256, cnt - 8) == BytesBits(out) + Lsb(buf, cnt)
  {
    hide Lsb, Pow, BytesBits;
    FastPowIsPow(2, 8);
    LsbSplit(buf, 8, cnt - 8);
    LsbLow(buf, 8);
    BytesSnoc(out, buf % 256);
    PowAdd(2, 8, cnt - 8);
    assert (BytesBits(out) + Lsb(buf, 8)) + Lsb(buf / 256, cnt - 8)
           == BytesBits(out) + (Lsb(buf, 8) + Lsb(buf / 256, cnt - 8));
  }
}
