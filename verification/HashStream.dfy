/** Streaming Merkle-Damgard hashing: any division of a message into updates gives
    the hash of the whole message, for any compression function. */
module HashStream {
  import opened Arith
  import opened BitSeq

  /** dyn_hash_algo: block_size, len_bytes, big_endian_len, init, compress and
      extract. */
  datatype Algo<!S, D> = Algo(block: nat, lenBytes: nat, bigEndian: bool, init: S,
                              compress: (S, seq<Byte>) -> S, extract: S -> D)

  const MAX_BLOCK: nat := 128

  /** The two families: 64-byte blocks with an 8-byte length, 128 with 16. */
  ghost predicate ValidAlgo<S, D>(a: Algo<S, D>)
  {
    (a.block == 64 && a.lenBytes == 8) || (a.block == 128 && a.lenBytes == 16 && a.bigEndian)
  }

  // ---- the hash of a whole message ---------------------------------------------------------------

  /** The compression function over all whole blocks. */
  ghost function Fold<S, D>(a: Algo<S, D>, st: S, data: seq<Byte>): S
    requires a.block > 0
    decreases |data|
  {
    if |data| < a.block then st else Fold(a, a.compress(st, data[..a.block]), data[a.block..])
  }

  /** n as k bytes, low byte first. */
  function LittleEndian(n: nat, k: nat): (s: seq<Byte>)
    ensures |s| == k
  {
    if k == 0 then [] else [n % 256] + LittleEndian(n / 256, k - 1)
  }

  /** Byte i counts 256 to the power i. */
  lemma {:induction false} LittleEndianAt(n: nat, k: nat, i: nat)
    requires i < k
    ensures Pow(256, i) > 0 && LittleEndian(n, k)[i] == n / Pow(256, i) % 256
    decreases k
  {
    if i == 0 {
      assert Pow(256, 0) == 1;
    } else {
      LittleEndianAt(n / 256, k - 1, i - 1);
      DivTwice(n, 256, Pow(256, i - 1));
    }
  }

  function Zeros(n: nat): (s: seq<Byte>)
    ensures |s| == n
  {
    seq(n, i => 0)
  }

  function LengthField<S, D>(a: Algo<S, D>, bytes: nat): seq<Byte>
  {
    if a.bigEndian then BigEndian(8 * bytes, a.lenBytes) else LittleEndian(8 * bytes, a.lenBytes)
  }

  /** How many zero bytes bring n bytes, the marker and the length to whole blocks. */
  function Gap(n: nat, block: nat, lenBytes: nat): nat
    requires block > 0
  {
    var r := (n + 1 + lenBytes) % block;
    if r == 0 then 0 else block - r
  }

  /** The padded message of section 5.1 of FIPS 180-4, or of section 3 of RFC 1321. */
  function Padded<S, D>(a: Algo<S, D>, msg: seq<Byte>): seq<Byte>
    requires a.block > 0
  {
    msg + ([0x80] + (Zeros(Gap(|msg|, a.block, a.lenBytes)) + LengthField(a, |msg|)))
  }

  /** The padded message starts with the message and a marker bit, ends with the length in
      bits, has zeros between them, and is the shortest that fills whole blocks. */
  lemma PaddedIs<S, D>(a: Algo<S, D>, msg: seq<Byte>, i: nat)
    requires ValidAlgo(a)
    ensures var p, n := Padded(a, msg), |Padded(a, msg)| - a.lenBytes;
            && |p| % a.block == 0 && |msg| + 1 <= n < |msg| + 1 + a.block
            && p[..|msg|] == msg && p[|msg|] == 0x80
            && (|msg| < i < n ==> p[i] == 0)
            && (i < a.lenBytes ==>
                  var place := if a.bigEndian then a.lenBytes - 1 - i else i;
                  Pow(256, place) > 0 && p[n + i] == 8 * |msg| / Pow(256, place) % 256)
  {
    hide Pow, BigEndian, LittleEndian;
    var gap := Gap(|msg|, a.block, a.lenBytes);
    var field := LengthField(a, |msg|);
    FieldSize(a, |msg|);
    GapFills(|msg|, a.block, a.lenBytes, gap);
    if i < a.lenBytes {
      if a.bigEndian { BigEndianAt(8 * |msg|, a.lenBytes, i); } else { LittleEndianAt(8 * |msg|, a.lenBytes, i); }
      assert Padded(a, msg)[|msg| + 1 + gap + i] == field[i];
    }
  }

  lemma GapFills(n: nat, block: nat, lenBytes: nat, gap: nat)
    requires (block == 64 || block == 128) && gap == Gap(n, block, lenBytes)
    ensures gap < block && (n + 1 + gap + lenBytes) % block == 0
  {
  }

  ghost function Hash<S, D>(a: Algo<S, D>, msg: seq<Byte>): D
    requires a.block > 0
  {
    a.extract(Fold(a, a.init, Padded(a, msg)))
  }

  lemma {:induction false} FoldConcat<S, D>(a: Algo<S, D>, st: S, x: seq<Byte>, y: seq<Byte>)
    requires a.block > 0 && |x| % a.block == 0
    ensures Fold(a, st, x + y) == Fold(a, Fold(a, st, x), y)
    decreases |x|
  {
    if |x| == 0 {
      assert x + y == y;
    } else {
      WholeBlocks(|x|, a.block);
      var b := a.block;
      assert (x + y)[..b] == x[..b] && (x + y)[b..] == x[b..] + y;
      FoldConcat(a, a.compress(st, x[..b]), x[b..], y);
    }
  }

  lemma WholeBlocks(n: nat, b: nat)
    requires b > 0 && n % b == 0 && n > 0
    ensures n >= b && (n - b) % b == 0
  {
    DivModEq(n, b);
    if n < b { DivModUnique(n, b, 0, n); }
    DivAddMultiple(n, b, -1);
  }

  lemma FoldBlock<S, D>(a: Algo<S, D>, st: S, x: seq<Byte>)
    requires a.block > 0 && |x| == a.block
    ensures Fold(a, st, x) == a.compress(st, x)
  {
    assert x[..a.block] == x && x[a.block..] == [];
  }

  /** One more whole block. */
  lemma FoldMore<S, D>(a: Algo<S, D>, done: seq<Byte>, x: seq<Byte>)
    requires a.block > 0 && |done| % a.block == 0 && |x| == a.block
    ensures Fold(a, a.init, done + x) == a.compress(Fold(a, a.init, done), x) && |done + x| % a.block == 0
  {
    FoldConcat(a, a.init, done, x);
    FoldBlock(a, Fold(a, a.init, done), x);
    DivAddMultiple(|done|, a.block, 1);
  }

  // ---- the streaming context ----------------------------------------------------------------------

  /** memcpy into a buffer. */
  function Splice(buf: seq<Byte>, at: nat, x: seq<Byte>): (r: seq<Byte>)
    requires at + |x| <= |buf|
    ensures |r| == |buf| && r[..at] == buf[..at] && r[at..at + |x|] == x && r[at + |x|..] == buf[at + |x|..]
    ensures r[..at + |x|] == buf[..at] + x
  {
    buf[..at] + x + buf[at + |x|..]
  }

  /** The state after msg: its whole blocks compressed, the rest buffered. */
  ghost predicate IsAbsorbed<S, D>(a: Algo<S, D>, st: S, buffer: seq<Byte>, buflen: nat, msg: seq<Byte>)
  {
    && buflen < a.block && buflen <= |msg| && buflen <= |buffer|
    && (|msg| - buflen) % a.block == 0
    && st == Fold(a, a.init, msg[..|msg| - buflen]) && buffer[..buflen] == msg[|msg| - buflen..]
  }

  /** dyn_hash_ctx */
  class HashCtx<!S, D> {
    const algo: Algo<S, D>
    var st: S
    var buffer: seq<Byte>
    var buflen: nat
    var bytelen: nat

    /** The whole message absorbed so far. */
    ghost var msg: seq<Byte>

    ghost predicate Valid()
      reads this
    {
      && ValidAlgo(algo) && |buffer| == MAX_BLOCK && bytelen == |msg| % TWO64
      && IsAbsorbed(algo, st, buffer, buflen, msg)
    }

    /** dyn_hash_init */
    constructor (a: Algo<S, D>)
      requires ValidAlgo(a)
      ensures Valid() && msg == [] && algo == a
    {
      algo, st, buffer, buflen, bytelen, msg := a, a.init, Zeros(MAX_BLOCK), 0, 0, [];
    }

    /** The first part of dyn_hash_update: top up a partial block. */
    method TopUp(data: seq<Byte>) returns (take: nat)
      requires ValidAlgo(algo) && |buffer| == MAX_BLOCK && IsAbsorbed(algo, st, buffer, buflen, msg) && buflen > 0
      modifies `st, `buffer, `buflen, `msg
      ensures take <= |data| && msg == old(msg) + data[..take] && (take < |data| ==> buflen == 0)
      ensures |buffer| == MAX_BLOCK && IsAbsorbed(algo, st, buffer, buflen, msg)
    {
      hide Fold;
      ghost var done := msg[..|msg| - buflen];
      take := Min(|data|, algo.block - buflen);
      buffer := Splice(buffer, buflen, data[..take]);
      buflen := buflen + take;
      msg := msg + data[..take];
      assert msg == done + buffer[..buflen];
      if buflen == algo.block {
        FoldMore(algo, done, buffer[..algo.block]);
        st := algo.compress(st, buffer[..algo.block]);
        buflen := 0;
        assert msg[..|msg|] == msg;
      } else {
        assert msg[..|msg| - buflen] == done;
      }
    }

    /** dyn_hash_update */
    method Update(data: seq<Byte>)
      requires Valid()
      modifies this
      ensures Valid() && msg == old(msg) + data
    {
      hide Fold;
      var d := data;
      LengthWraps(|msg|, |data|);
      bytelen := (bytelen + |data|) % TWO64;
      ghost var all := msg + data;
      if buflen > 0 {
        var take := TopUp(d);
        d := d[take..];
      }
      assert msg + d == all;
      if buflen == 0 {
        assert msg[..|msg|] == msg;
        ghost var done;
        st, d, done := AbsorbBlocks(algo, st, d, msg);
        if |d| > 0 {
          buffer := Splice(buffer, 0, d);
          buflen := |d|;
        }
        msg := all;
        assert msg[..|msg| - buflen] == done && msg[|msg| - buflen..] == d;
      } else {
        assert msg == all;
      }
    }

    /** dyn_hasher_digest: finalize a copy, so the context stays as it is. */
    method Digest() returns (out: D)
      requires Valid()
      requires algo.lenBytes == 16 ==> |msg| < TWO64
      ensures out == Hash(algo, msg)
    {
      var copySt, copyBuffer := st, buffer;
      out := Final(algo, copySt, copyBuffer, buflen, bytelen, msg);
    }
  }

  lemma LengthWraps(n: nat, k: nat)
    ensures (n % TWO64 + k) % TWO64 == (n + k) % TWO64
  {
  }

  /** The loop of dyn_hash_update over whole blocks. */
  method AbsorbBlocks<S, D>(a: Algo<S, D>, st0: S, d0: seq<Byte>, ghost done0: seq<Byte>)
    returns (st: S, d: seq<Byte>, ghost done: seq<Byte>)
    requires a.block > 0 && |done0| % a.block == 0 && st0 == Fold(a, a.init, done0)
    ensures |done| % a.block == 0 && st == Fold(a, a.init, done) && done + d == done0 + d0 && |d| < a.block
  {
    st, d, done := st0, d0, done0;
    while |d| >= a.block
      invariant |done| % a.block == 0 && st == Fold(a, a.init, done) && done + d == done0 + d0
      decreases |d|
    {
      FoldMore(a, done, d[..a.block]);
      assert (done + d[..a.block]) + d[a.block..] == done + d;
      st := a.compress(st, d[..a.block]);
      done := done + d[..a.block];
      d := d[a.block..];
    }
  }

  // ---- the length field -------------------------------------------------------------------------------

  lemma {:induction false} BigEndianSplit(n: nat, j: nat, k: nat)
    ensures Pow(256, k) > 0 && BigEndian(n, j + k) == BigEndian(n / Pow(256, k), j) + BigEndian(n, k)
  {
    hide Pow;
    PowBytes(k);
    if k == 0 {
    } else {
      BigEndianSplit(n / 256, j, k - 1);
      DivTwice(n, 256, Pow(256, k - 1));
      assert BigEndian(n, j + k) == BigEndian(n / 256, j + (k - 1)) + [n % 256];
      assert (BigEndian(n / Pow(256, k), j) + BigEndian(n / 256, k - 1)) + [n % 256]
          == BigEndian(n / Pow(256, k), j) + (BigEndian(n / 256, k - 1) + [n % 256]);
    }
  }

  lemma PowBytes(k: nat)
    ensures Pow(256, k) > 0 && (k == 0 ==> Pow(256, k) == 1) && (k > 0 ==> Pow(256, k) == 256 * Pow(256, k - 1))
  {
  }

  /** Only the k low bytes matter. */
  lemma {:induction false} EndianLow(n: nat, k: nat)
    ensures Pow(256, k) > 0
    ensures BigEndian(n % Pow(256, k), k) == BigEndian(n, k) && LittleEndian(n % Pow(256, k), k) == LittleEndian(n, k)
  {
    if k == 0 {
    } else {
      EndianLow(n / 256, k - 1);
      DivTwice(n, 256, Pow(256, k - 1));
      LowByte(n / 256 % Pow(256, k - 1), n % 256, n % Pow(256, k));
    }
  }

  lemma LowByte(h: nat, l: nat, m: nat)
    requires l < 256 && m == h * 256 + l
    ensures m / 256 == h && m % 256 == l
  {
  }

  lemma TwoTo64()
    ensures Pow(256, 8) == TWO64
  {
    FastPowIsPow(256, 8);
  }

  /** The 64-bit arithmetic of dyn_hash_final yields the length in bits. */
  lemma FieldIs<S, D>(a: Algo<S, D>, n: nat, bytelen: nat, bits: nat, bitsHi: nat)
    requires ValidAlgo(a) && bytelen == n % TWO64 && bits == 8 * bytelen % TWO64
             && bitsHi == bytelen / 0x2000_0000_0000_0000
    requires a.lenBytes == 16 ==> n < TWO64
    ensures a.lenBytes == 8 ==> LengthField(a, n) == if a.bigEndian then BigEndian(bits, 8) else LittleEndian(bits, 8)
    ensures a.lenBytes == 16 ==> LengthField(a, n) == BigEndian(bitsHi, 8) + BigEndian(bits, 8)
  {
    hide BigEndian, LittleEndian, Pow;
    TwoTo64();
    EndianLow(8 * n, 8);
    assert bits == 8 * n % TWO64 by { BitsWrap(n); }
    if a.lenBytes == 16 {
      BigEndianSplit(8 * n, 8, 8);
      assert bitsHi == 8 * n / TWO64;
    }
  }

  lemma BitsWrap(n: nat)
    ensures 8 * (n % TWO64) % TWO64 == 8 * n % TWO64
  {
    var q, r := n / TWO64, n % TWO64;
    assert 8 * n == 8 * r + TWO64 * (8 * q);
    DivAddMultiple(8 * r, TWO64, 8 * q);
  }

  lemma GapIs(n: nat, q: nat, k: nat, block: nat, lenBytes: nat)
    requires block > lenBytes > 0 && n == q + k && q % block == 0 && k < block
    ensures Gap(n, block, lenBytes)
            == if k + 1 <= block - lenBytes then block - lenBytes - (k + 1) else (block - (k + 1)) + (block - lenBytes)
  {
    DivModEq(q, block);
    var m := k + 1 + lenBytes;
    assert n + 1 + lenBytes == m + block * (q / block);
    DivAddMultiple(m, block, q / block);
    if m < block {
      DivModUnique(m, block, 0, m);
    } else {
      DivModUnique(m, block, 1, m - block);
    }
  }

  // ---- finishing ----------------------------------------------------------------------------------------

  /** The loops that store zero bytes. */
  method FillZeros(buf0: seq<Byte>, from: nat, to: nat) returns (buf: seq<Byte>)
    requires from <= to <= |buf0|
    ensures |buf| == |buf0| && buf[..to] == buf0[..from] + Zeros(to - from)
  {
    buf := buf0;
    for n := from to to
      invariant |buf| == |buf0| && buf[..n] == buf0[..from] + Zeros(n - from)
    {
      buf := buf[n := 0];
    }
  }

  /** The marker byte, and a block of its own when the length has no room after
      it. */
  method PutMarker<S, D>(a: Algo<S, D>, st0: S, buffer: seq<Byte>, buflen: nat, ghost head: seq<Byte>,
                         ghost tail: seq<Byte>)
    returns (st: S, buf: seq<Byte>, n: nat, ghost done: seq<Byte>)
    requires ValidAlgo(a) && |buffer| == MAX_BLOCK && buflen < a.block && buffer[..buflen] == tail
    requires |head| % a.block == 0 && st0 == Fold(a, a.init, head)
    ensures |buf| == MAX_BLOCK && |done| % a.block == 0 && st == Fold(a, a.init, done)
    ensures if buflen + 1 <= a.block - a.lenBytes then
              done == head && n == buflen + 1 && buf[..n] == tail + [0x80]
            else
              done == head + ((tail + [0x80]) + Zeros(a.block - (buflen + 1))) && n == 0
  {
    hide Zeros, Fold;
    st, done := st0, head;
    buf := Splice(buffer, buflen, [0x80]);
    n := buflen + 1;
    if n > a.block - a.lenBytes {
      buf := FillZeros(buf, n, a.block);
      FoldMore(a, done, buf[..a.block]);
      st := a.compress(st, buf[..a.block]);
      done := done + buf[..a.block];
      n := 0;
    }
  }

  /** dyn_hash_final on a context that has absorbed msg. */
  method Final<S, D>(a: Algo<S, D>, st0: S, buffer: seq<Byte>, buflen: nat, bytelen: nat, ghost msg: seq<Byte>)
    returns (out: D)
    requires ValidAlgo(a) && |buffer| == MAX_BLOCK && IsAbsorbed(a, st0, buffer, buflen, msg)
             && bytelen == |msg| % TWO64
    requires a.lenBytes == 16 ==> |msg| < TWO64
    ensures out == Hash(a, msg)
  {
    hide Zeros, Fold, Gap, LengthField, Padded, Splice;
    var block, lenb := a.block, a.lenBytes;
    ghost var head, tail := msg[..|msg| - buflen], msg[|msg| - buflen..];
    var st, buf, n, done := PutMarker(a, st0, buffer, buflen, head, tail);
    buf := FillZeros(buf, n, block - lenb);
    ghost var front := buf[..block - lenb];
    var field := LengthBytes(a, bytelen, |msg|);
    SpliceIs(buf, block - lenb, field);
    buf := Splice(buf, block - lenb, field);
    var last := buf[..block];
    assert last == front + field;
    FoldMore(a, done, last);
    LastBlocks(a, msg, buflen, done, last, field);
    st := a.compress(st, last);
    out := a.extract(st);
  }

  lemma SpliceIs(buf: seq<Byte>, at: nat, x: seq<Byte>)
    requires at + |x| <= |buf|
    ensures |Splice(buf, at, x)| == |buf| && Splice(buf, at, x)[..at + |x|] == buf[..at] + x
  {
  }

  /** The length field, in the 64-bit arithmetic of the source. */
  method LengthBytes<S, D>(a: Algo<S, D>, bytelen: nat, ghost n: nat) returns (field: seq<Byte>)
    requires ValidAlgo(a) && bytelen == n % TWO64 && (a.lenBytes == 16 ==> n < TWO64)
    ensures field == LengthField(a, n) && |field| == a.lenBytes
  {
    hide BigEndian, LittleEndian, LengthField;
    var bits, bitsHi := 8 * bytelen % TWO64, bytelen / 0x2000_0000_0000_0000;
    FieldIs(a, n, bytelen, bits, bitsHi);
    FieldSize(a, n);
    if a.bigEndian {
      if a.lenBytes == 16 {
        field := BigEndian(bitsHi, 8) + BigEndian(bits, 8);
      } else {
        field := BigEndian(bits, 8);
      }
    } else {
      field := LittleEndian(bits, 8);
    }
  }

  lemma FieldSize<S, D>(a: Algo<S, D>, n: nat)
    ensures |LengthField(a, n)| == a.lenBytes
  {
  }

  /** The blocks compressed are those of the padded message. */
  lemma LastBlocks<S, D>(a: Algo<S, D>, msg: seq<Byte>, buflen: nat, done: seq<Byte>, last: seq<Byte>, field: seq<Byte>)
    requires ValidAlgo(a) && buflen < a.block && buflen <= |msg| && (|msg| - buflen) % a.block == 0
    requires field == LengthField(a, |msg|)
    requires var (head, tail) := (msg[..|msg| - buflen], msg[|msg| - buflen..]);
             if buflen + 1 <= a.block - a.lenBytes then
               done == head && last == (tail + [0x80] + Zeros(a.block - a.lenBytes - (buflen + 1))) + field
             else
               && done == head + ((tail + [0x80]) + Zeros(a.block - (buflen + 1)))
               && last == Zeros(a.block - a.lenBytes) + field
    ensures done + last == Padded(a, msg)
  {
    hide LengthField, Gap;
    GapIs(|msg|, |msg| - buflen, buflen, a.block, a.lenBytes);
    assert msg == msg[..|msg| - buflen] + msg[|msg| - buflen..];
    if buflen + 1 > a.block - a.lenBytes {
      assert Zeros(a.block - (buflen + 1)) + Zeros(a.block - a.lenBytes)
          == Zeros((a.block - (buflen + 1)) + (a.block - a.lenBytes));
    }
  }
}
