/** Octets, and the little-endian four-octet form of a 32-bit word. */
module Bytes {

  type byte = bv8

  /** The four octets of w, least significant first (MAKE_DIGEST_WORD). */
  function Le32(w: bv32): (b: seq<byte>)
    ensures |b| == 4
  {
    [(w & 0xff) as bv8, ((w >> 8) & 0xff) as bv8, ((w >> 16) & 0xff) as bv8, ((w >> 24) & 0xff) as bv8]
  }

  /** The word whose least significant octet comes first (left side of MATCH_DIGEST_WORD). */
  function FromLe32(b: seq<byte>): bv32
    requires |b| == 4
  {
    (b[0] as bv32) | ((b[1] as bv32) << 8) | ((b[2] as bv32) << 16) | ((b[3] as bv32) << 24)
  }

  lemma Le32RoundTrip(w: bv32)
    ensures FromLe32(Le32(w)) == w
  {
    assert ((w & 0xff) as bv8) as bv32 == w & 0xff;
    assert (((w >> 8) & 0xff) as bv8) as bv32 == (w >> 8) & 0xff;
    assert (((w >> 16) & 0xff) as bv8) as bv32 == (w >> 16) & 0xff;
    assert (((w >> 24) & 0xff) as bv8) as bv32 == (w >> 24) & 0xff;
  }

  lemma Le32OfWord(b: seq<byte>)
    requires |b| == 4
    ensures Le32(FromLe32(b)) == b
  {
    Widened(b[0]);
    Widened(b[1]);
    Widened(b[2]);
    Widened(b[3]);
    Fields(b[0] as bv32, b[1] as bv32, b[2] as bv32, b[3] as bv32);
  }

  lemma Widened(b: byte)
    ensures b as bv32 <= 0xff && (b as bv32) as bv8 == b
  {
  }

  lemma Fields(a: bv32, b: bv32, c: bv32, d: bv32)
    requires a <= 0xff && b <= 0xff && c <= 0xff && d <= 0xff
    ensures var w := a | (b << 8) | (c << 16) | (d << 24);
            w & 0xff == a && (w >> 8) & 0xff == b && (w >> 16) & 0xff == c && (w >> 24) & 0xff == d
  {
  }

  function Zeros(n: nat): (z: seq<byte>)
    ensures |z| == n
    ensures forall i | 0 <= i < n :: z[i] == 0
  {
    seq(n, _ => 0)
  }
}
