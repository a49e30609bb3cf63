/** Bytes as sequences of bits, in the two orders that section 3.1.1 of RFC 1951
    uses: numbers low bit first, Huffman codes high bit first. */
module BitSeq {
  import opened Arith

  type Byte = x: int | 0 <= x < 256

  /** n as k bytes, high byte first. */
  function BigEndian(n: nat, k: nat): (s: seq<Byte>)
    ensures |s| == k
  {
    if k == 0 then [] else BigEndian(n / 256, k - 1) + [n % 256]
  }

  /** Byte i counts 256 to the power of the bytes after it. */
  lemma {:induction false} BigEndianAt(n: nat, k: nat, i: nat)
    requires i < k
    ensures Pow(256, k - 1 - i) > 0 && BigEndian(n, k)[i] == n / Pow(256, k - 1 - i) % 256
    decreases k
  {
    if i == k - 1 {
      assert Pow(256, 0) == 1;
    } else {
      BigEndianAt(n / 256, k - 1, i);
      DivTwice(n, 256, Pow(256, k - 2 - i));
    }
  }

  /** The shifts and the mask of C. */
  function Shl(v: nat, n: nat): nat { v * Pow(2, n) }

  function Shr(v: nat, n: nat): nat { v / Pow(2, n) }

  function LowBits(v: nat, n: nat): nat { v % Pow(2, n) }

  /** The n low bits of v, low bit first. */
  ghost function Lsb(v: nat, n: nat): (s: seq<bool>)
    ensures |s| == n
  {
    if n == 0 then [] else [v % 2 == 1] + Lsb(v / 2, n - 1)
  }

  /** The n low bits of v, high bit first. */
  ghost function Msb(v: nat, n: nat): (s: seq<bool>)
    ensures |s| == n
  {
    if n == 0 then [] else Msb(v / 2, n - 1) + [v % 2 == 1]
  }

  ghost function FromLsb(s: seq<bool>): nat
  {
    if s == [] then 0 else (if s[0] then 1 else 0) + 2 * FromLsb(s[1..])
  }

  ghost function FromMsb(s: seq<bool>): nat
  {
    if s == [] then 0 else 2 * FromMsb(s[..|s| - 1]) + if s[|s| - 1] then 1 else 0
  }

  ghost function BytesBits(d: seq<Byte>): (s: seq<bool>)
    ensures |s| == 8 * |d|
  {
    if d == [] then [] else Lsb(d[0], 8) + BytesBits(d[1..])
  }

  // ---- low bit first -----------------------------------------------------------------

  lemma {:induction false} LsbSplit(v: nat, a: nat, b: nat)
    ensures Pow(2, a) > 0 && Lsb(v, a + b) == Lsb(v, a) + Lsb(v / Pow(2, a), b)
  {
    hide Pow;
    PowerStep(a);
    if a == 0 {
    } else {
      LsbSplit(v / 2, a - 1, b);
      DivTwice(v, 2, Pow(2, a - 1));
      LsbStep(v, a, b, Lsb(v / Pow(2, a), b));
    }
  }

  lemma PowerStep(a: nat)
    ensures Pow(2, a) > 0 && (a == 0 ==> Pow(2, a) == 1) && (a > 0 ==> Pow(2, a) == 2 * Pow(2, a - 1))
  {
  }

  lemma LsbStep(v: nat, a: nat, b: nat, t: seq<bool>)
    requires a > 0 && Lsb(v / 2, a - 1 + b) == Lsb(v / 2, a - 1) + t
    ensures Lsb(v, a + b) == Lsb(v, a) + t
  {
    assert [v % 2 == 1] + (Lsb(v / 2, a - 1) + t) == ([v % 2 == 1] + Lsb(v / 2, a - 1)) + t;
  }

  /** Bits above the n low ones do not matter. */
  lemma {:induction false} LsbLow(v: nat, n: nat)
    ensures Pow(2, n) > 0 && Lsb(v % Pow(2, n), n) == Lsb(v, n)
  {
    if n == 0 {
    } else {
      var p := Pow(2, n - 1);
      LsbLow(v / 2, n - 1);
      DivTwice(v, 2, p);
      var w := (v / 2) % p;
      assert v % Pow(2, n) == w * 2 + v % 2;
      assert (w * 2 + v % 2) / 2 == w && (w * 2 + v % 2) % 2 == v % 2;
    }
  }

  lemma {:induction false} FromLsbOf(v: nat, n: nat)
    ensures Pow(2, n) > 0 && FromLsb(Lsb(v, n)) == v % Pow(2, n)
  {
    if n == 0 {
    } else {
      FromLsbOf(v / 2, n - 1);
      DivTwice(v, 2, Pow(2, n - 1));
      assert Lsb(v, n)[1..] == Lsb(v / 2, n - 1);
    }
  }

  /** A number is its low bits and its high bits. */
  lemma LsbJoin(lo: nat, a: nat, hi: nat, b: nat)
    requires lo < Pow(2, a)
    ensures Lsb(lo + hi * Pow(2, a), a + b) == Lsb(lo, a) + Lsb(hi, b)
  {
    var v, p := lo + hi * Pow(2, a), Pow(2, a);
    LsbSplit(v, a, b);
    LsbLow(v, a);
    DivModUnique(v, p, hi, lo);
  }

  // ---- bytes ----------------------------------------------------------------------------

  lemma {:induction false} BytesConcat(a: seq<Byte>, b: seq<Byte>)
    ensures BytesBits(a + b) == BytesBits(a) + BytesBits(b)
  {
    if a == [] {
      assert a + b == b;
    } else {
      assert (a + b)[1..] == a[1..] + b;
      BytesConcat(a[1..], b);
      assert Lsb(a[0], 8) + (BytesBits(a[1..]) + BytesBits(b)) == (Lsb(a[0], 8) + BytesBits(a[1..])) + BytesBits(b);
    }
  }

  lemma BytesOne(x: Byte)
    ensures BytesBits([x]) == Lsb(x, 8)
  {
    assert [x][1..] == [];
  }

  lemma BytesSnoc(d: seq<Byte>, x: Byte)
    ensures BytesBits(d + [x]) == BytesBits(d) + Lsb(x, 8)
  {
    BytesConcat(d, [x]);
    BytesOne(x);
  }

  // ---- high bit first ---------------------------------------------------------------------

  lemma {:induction false} MsbFront(v: nat, n: nat)
    ensures Pow(2, n) > 0 && Msb(v, n + 1) == [v / Pow(2, n) % 2 == 1] + Msb(v, n)
  {
    if n == 0 {
    } else {
      MsbFront(v / 2, n - 1);
      DivTwice(v, 2, Pow(2, n - 1));
      assert ([v / Pow(2, n) % 2 == 1] + Msb(v / 2, n - 1)) + [v % 2 == 1]
          == [v / Pow(2, n) % 2 == 1] + (Msb(v / 2, n - 1) + [v % 2 == 1]);
    }
  }

  lemma {:induction false} FromMsbOf(v: nat, n: nat)
    requires v < Pow(2, n)
    ensures FromMsb(Msb(v, n)) == v
  {
    if n == 0 {
    } else {
      FromMsbOf(v / 2, n - 1);
      assert Msb(v, n)[..n - 1] == Msb(v / 2, n - 1);
    }
  }

  lemma {:induction false} MsbOfFrom(s: seq<bool>)
    ensures FromMsb(s) < Pow(2, |s|) && Msb(FromMsb(s), |s|) == s
  {
    if s == [] {
    } else {
      var t := s[..|s| - 1];
      MsbOfFrom(t);
      assert FromMsb(s) / 2 == FromMsb(t);
      assert s == t + [s[|s| - 1]];
    }
  }

  lemma FromMsbSnoc(s: seq<bool>, k: nat)
    requires k < |s|
    ensures FromMsb(s[..k + 1]) == 2 * FromMsb(s[..k]) + if s[k] then 1 else 0
  {
    assert s[..k + 1][..k] == s[..k];
  }
}
