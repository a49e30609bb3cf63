/** The CRC-32 of the gzip trailer, bit by bit. */
module Crc {
  import opened BitSeq

  function CrcStep(c: bv32): bv32
  {
    (c >> 1) ^ (if c & 1 == 1 then 0xedb88320 else 0)
  }

  function CrcBits(c: bv32, k: nat): bv32
    decreases k
  {
    if k == 0 then c else CrcBits(CrcStep(c), k - 1)
  }

  function CrcMix(c: bv32, b: Byte): bv32 { c ^ (b as bv32) }

  /** The register after the bytes of p. */
  function CrcOf(p: seq<Byte>): bv32
  {
    if p == [] then 0xffffffff else CrcBits(CrcMix(CrcOf(p[..|p| - 1]), p[|p| - 1]), 8)
  }

  function Complement(c: bv32): (n: nat)
    ensures n < 0x1_0000_0000
  {
    (c ^ 0xffffffff) as int
  }

  function Crc32(p: seq<Byte>): (n: nat)
    ensures n < 0x1_0000_0000
  {
    Complement(CrcOf(p))
  }

  /** dyn_crc32 */
  method ComputeCrc(p: seq<Byte>) returns (r: nat)
    ensures r == Crc32(p)
  {
    hide CrcStep, CrcMix, Complement;
    var crc: bv32 := 0xffffffff;
    for i := 0 to |p|
      invariant crc == CrcOf(p[..i])
    {
      assert p[..i + 1][..i] == p[..i];
      crc := CrcMix(crc, p[i]);
      for k := 0 to 8
        invariant CrcBits(crc, 8 - k) == CrcOf(p[..i + 1])
      {
        crc := CrcStep(crc);
      }
    }
    assert p[..|p|] == p;
    r := Complement(crc);
  }
}
