/// The IV deriver: chunk t's 16-byte IV has eight zero bytes followed by
/// the little-endian bytes of t (`iv[8..16].copy_from_slice(&t.to_le_bytes())`).
module Iv {

  import opened Bytes

  /// The IV of chunk t.
  function ChunkIv(t: Usize): Block
  {
    Zeros(8) + LeBytes(t, 8)
  }

  /// Builds the IV as the generator does: a zeroed 16-byte array whose last
  /// eight bytes are overwritten with the little-endian bytes of t.
  method BuildIv(t: Usize) returns (iv: Block)
    ensures iv[..8] == Zeros(8)
    ensures FromLe(iv[8..]) == t
    ensures iv == ChunkIv(t)
  {
    var a := new Byte[16](_ => 0);
    var le := LeBytes(t, 8);
    forall k | 8 <= k < 16 {
      a[k] := le[k - 8];
    }
    iv := a[..];
    assert iv == Zeros(8) + le;
    assert iv[8..] == le;
    LeRoundTrip(t, 8);
  }

  /// Layout and round trip: the first eight bytes are zero, and decoding the
  /// last eight as little-endian gives back the chunk index.
  lemma IvLayout(t: Usize)
    ensures ChunkIv(t)[..8] == Zeros(8)
    ensures FromLe(ChunkIv(t)[8..]) == t
  {
    assert ChunkIv(t)[8..] == LeBytes(t, 8);
    LeRoundTrip(t, 8);
  }

  /// Distinct chunks get distinct IVs.
  lemma IvInjective(t: Usize, u: Usize)
    requires t != u
    ensures ChunkIv(t) != ChunkIv(u)
  {
    IvLayout(t);
    IvLayout(u);
  }
}
