/// The counter spaces of the chunks. Because the chunk index sits
/// little-endian in the low half of an IV that counter mode reads
/// big-endian, chunk t's counter starts at the byte-swap of t within the
/// low 64 bits (chunk 1 starts at 2^56). This module proves when the
/// counter ranges of distinct chunks are disjoint, and that all generated
/// records are then distinct.
module Counters {

  import opened Bytes
  import opened Iv
  import opened Ctr
  import opened Generator

  /// Every start counter is below 2^64, so a chunk of up to 2^64 blocks never wraps.
  lemma StartCounterBound(t: Usize)
    ensures StartCounter(t) == FromBe(LeBytes(t, 8))
    ensures StartCounter(t) < Pow256(8)
  {
    FromBeLeadingZeros(8, LeBytes(t, 8));
    FromBeBound(LeBytes(t, 8));
  }

  /// Distinct chunks start from distinct counters.
  lemma StartCounterInjective(t: Usize, u: Usize)
    requires t != u
    ensures StartCounter(t) != StartCounter(u)
  {
    IvInjective(t, u);
    BeBytesOfFromBe(ChunkIv(t));
    BeBytesOfFromBe(ChunkIv(u));
  }

  /// For t < 2^16 the start counter is the 16-bit byte-swap of t shifted
  /// left by 48 bits: (256 * (t % 256) + t / 256) * 2^48.
  lemma {:induction false} StartCounterSwap(t: Usize)
    requires t < Pow256(2)
    ensures StartCounter(t) == Swap16(t) * Pow256(6)
  {
    var a, b := (t % 256) as Byte, (t / 256) as Byte;
    var le := LeBytes(t, 8);
    assert le == [a, b] + LeBytes(0, 6) by {
      assert le == [a] + LeBytes(t / 256, 7);
      assert (t / 256) % 256 == t / 256 && t / 256 / 256 == 0;
      assert LeBytes(t / 256, 7) == [b] + LeBytes(0, 6);
    }
    LeBytesOfZero(6);
    StartCounterBound(t);
    FromBeTrailingZeros([a, b], 6);
    assert [a, b][..1] == [a];
    assert FromBe([a]) == a as nat by {
      assert [a][..0] == [];
    }
  }

  /// Chunk 0's IV is all zero, so its counter starts at 0.
  lemma ChunkZeroStart()
    ensures ChunkIv(0) == Zeros(16) && StartCounter(0) == 0
  {
    LeBytesOfZero(8);
    assert Zeros(8) + Zeros(8) == Zeros(16);
    FromBeOfZeros(16);
  }

  /// Chunk 1's IV has byte 8 set to 1 and every other byte zero.
  lemma ChunkOneIv()
    ensures ChunkIv(1) == Zeros(8) + [1] + Zeros(7)
  {
    LeBytesOfZero(7);
    assert LeBytes(1, 8) == [1] + LeBytes(0, 7);
  }

  /// Chunk 1 therefore starts at counter 2^56, not at 1.
  lemma ChunkOneStart()
    ensures StartCounter(1) == Pow256(7)
  {
    StartCounterLowByte(1);
  }

  /// A chunk index below 256 lands in byte 8 of the IV: it starts at t * 2^56.
  lemma StartCounterLowByte(t: Usize)
    requires t < 256
    ensures StartCounter(t) == t * Pow256(7)
  {
    StartCounterSwap(t);
    assert Swap16(t) == 256 * t;
    assert Pow256(7) == 256 * Pow256(6);
    assert (256 * t) * Pow256(6) == t * (256 * Pow256(6));
  }

  /// No counter overlap: with at most 2^16 chunks of at most 2^48 records,
  /// the counter ranges [StartCounter(t), StartCounter(t) + c) of distinct
  /// chunks are disjoint and none of them wraps past 2^128.
  lemma CounterRangesDisjoint(c: nat, t: Usize, u: Usize)
    requires t < Pow256(2) && u < Pow256(2) && t != u
    requires c <= Pow256(6)
    ensures StartCounter(t) + c <= CounterModulus
    ensures StartCounter(t) + c <= StartCounter(u) || StartCounter(u) + c <= StartCounter(t)
  {
    Swap16Injective(t, u);
    StartCounterSwap(t);
    StartCounterSwap(u);
    StartCounterBound(t);
    Pow256Values();
    Spaced(Swap16(t), Swap16(u), Pow256(6), c);
  }

  lemma Pow256Values()
    ensures Pow256(6) == 0x1_0000_0000_0000
    ensures Pow256(8) == 0x1_0000_0000_0000_0000
  {
    assert Pow256(2) == 0x1_0000;
    assert Pow256(4) == 0x1_0000_0000;
    assert Pow256(6) == 0x1_0000_0000_0000;
  }

  /// Distinct multiples of p are at least p apart.
  lemma Spaced(a: nat, b: nat, p: nat, c: nat)
    requires a != b && c <= p
    ensures a * p + c <= b * p || b * p + c <= a * p
  {
    if a < b {
      MulMono(a + 1, b, p);
    } else {
      MulMono(b + 1, a, p);
    }
  }

  /// The two bytes of a 16-bit value swapped.
  function Swap16(t: nat): nat
  {
    256 * (t % 256) + t / 256
  }

  lemma Swap16Injective(t: nat, u: nat)
    requires t < Pow256(2) && u < Pow256(2) && t != u
    ensures Swap16(t) != Swap16(u)
  {
    ModUnique(Swap16(t), 256, t % 256, t / 256);
    ModUnique(Swap16(u), 256, u % 256, u / 256);
  }

  /// The bound is needed: chunk 2^56 starts at counter 1, so once there are
  /// that many chunks its range overlaps chunk 0's for any c >= 2.
  lemma CounterRangesOverlapBeyondBound()
    ensures StartCounter(0) == 0 && StartCounter(Pow256(7)) == 1
  {
    ChunkZeroStart();
    StartCounterBound(Pow256(7));
    var le := LeBytes(Pow256(7), 8);
    assert le == Zeros(7) + [1] by {
      LeShift(7, 1, 1);
      assert LeBytes(1, 1) == [1];
    }
    FromBeLeadingZeros(7, [1]);
    assert [1 as Byte][..0] == [];
  }

  /// k low zero bytes of x * 256^k, then the low bytes of x.
  lemma {:induction false} LeShift(k: nat, x: nat, m: nat)
    ensures LeBytes(Pow256(k) * x, k + m) == Zeros(k) + LeBytes(x, m)
  {
    if k == 0 {
      assert Zeros(k) + LeBytes(x, m) == LeBytes(x, m);
    } else {
      var z := Pow256(k - 1) * x;
      MulPowStep(k, x);
      LeBytesOfShifted(z, k - 1 + m);
      LeShift(k - 1, x, m);
      assert Zeros(k) == [0] + Zeros(k - 1);
    }
  }

  /// Kept apart from LeShift: inside LeShift's context the solver takes
  /// far longer to find this product regrouping.
  lemma MulPowStep(k: nat, x: nat)
    requires k > 0
    ensures Pow256(k) * x == 256 * (Pow256(k - 1) * x)
  {
  }

  /// The little-endian bytes of 256 * z are a zero byte, then those of z.
  lemma LeBytesOfShifted(z: nat, n: nat)
    ensures LeBytes(256 * z, n + 1) == [0] + LeBytes(z, n)
  {
    assert (256 * z) % 256 == 0 && (256 * z) / 256 == z;
  }

  /// Whether the block cipher is a permutation of blocks under the key, as AES is.
  ghost predicate Injective(cipher: BlockCipher, key: Block)
  {
    forall a: Block, b: Block :: cipher(key, a) == cipher(key, b) ==> a == b
  }

  /// All generated records are distinct ("unique passwords"), provided the
  /// cipher is a permutation and the no-overlap bounds hold.
  lemma RecordsDistinct(cipher: BlockCipher, key: Block, n: Usize, c: Usize, r: nat, r': nat)
    requires Injective(cipher, key)
    requires c > 0 && n % c == 0
    requires n / c <= Pow256(2) && c <= Pow256(6)
    requires r < n && r' < n && r != r'
    ensures 16 * r + 16 <= 16 * n && 16 * r' + 16 <= 16 * n
    ensures Record(Output(cipher, key, n, c), r) != Record(Output(cipher, key, n, c), r')
  {
    var t, j := RecordIs(cipher, key, n, c, r);
    var u, j' := RecordIs(cipher, key, n, c, r');
    CounterBlocksDiffer(c, t, j, u, j');
    var a, b := CounterBlock(StartCounter(t), j), CounterBlock(StartCounter(u), j');
    assert cipher(key, a) != cipher(key, b);
  }

  /// Record r of the output is the encryption of counter block r % c of chunk r / c.
  lemma RecordIs(cipher: BlockCipher, key: Block, n: Usize, c: Usize, r: nat) returns (t: Usize, j: nat)
    requires c > 0 && n % c == 0 && r < n
    ensures t < n / c && j < c && r == t * c + j
    ensures 16 * r + 16 <= 16 * n
    ensures Record(Output(cipher, key, n, c), r) == cipher(key, CounterBlock(StartCounter(t), j))
  {
    t, j := RecordIndex(n, c, r);
    RecordContent(cipher, key, n, c, t, j);
  }

  /// Distinct records of distinct or equal chunks use distinct counter blocks.
  lemma CounterBlocksDiffer(c: nat, t: Usize, j: nat, u: Usize, j': nat)
    requires t < Pow256(2) && u < Pow256(2) && c <= Pow256(6)
    requires j < c && j' < c && (t != u || j != j')
    ensures CounterBlock(StartCounter(t), j) != CounterBlock(StartCounter(u), j')
  {
    CounterValuesDiffer(c, t, j, u, j');
    CounterValueFits(c, t, j);
    CounterValueFits(c, u, j');
    CounterBlocksApart(StartCounter(t), j, StartCounter(u), j');
  }

  /// Distinct counter values below 2^128 give distinct counter blocks.
  lemma CounterBlocksApart(s: nat, j: nat, s': nat, j': nat)
    requires s + j != s' + j' && s + j < Pow256(16) && s' + j' < Pow256(16)
    ensures CounterBlock(s, j) != CounterBlock(s', j')
  {
    CounterModulusIsPow();
    ModUnique(s + j, CounterModulus, 0, s + j);
    ModUnique(s' + j', CounterModulus, 0, s' + j');
    if BeBytes(s + j, 16) == BeBytes(s' + j', 16) {
      BeBytesInjective(s + j, s' + j', 16);
    }
  }

  lemma CounterValuesDiffer(c: nat, t: Usize, j: nat, u: Usize, j': nat)
    requires t < Pow256(2) && u < Pow256(2) && c <= Pow256(6)
    requires j < c && j' < c && (t != u || j != j')
    ensures StartCounter(t) + j != StartCounter(u) + j'
  {
    if t != u {
      CounterRangesDisjoint(c, t, u);
      CounterRangesDisjoint(c, u, t);
    }
  }

  /// Counter value j of chunk t stays below 2^128, so no reduction happens.
  lemma CounterValueFits(c: nat, t: Usize, j: nat)
    requires c <= Pow256(6) && j < c
    ensures StartCounter(t) + j < Pow256(16)
  {
    StartCounterBound(t);
    Pow256Values();
    CounterModulusIsPow();
  }

  /// Record r is record r % c of chunk r / c.
  lemma RecordIndex(n: nat, c: nat, r: nat) returns (t: nat, j: nat)
    requires c > 0 && n % c == 0 && r < n
    ensures t < n / c && j < c && r == t * c + j
  {
    t, j := r / c, r % c;
    assert r == t * c + j;
    assert n == (n / c) * c;
    if t >= n / c {
      MulMono(n / c, t, c);
    }
  }
}
