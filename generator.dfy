/// The generation engine: the divisibility guard, the zeroed record buffer,
/// and the fill of every chunk with its own counter-mode keystream. The
/// worker pool's `for_each` over the chunks is a sequential loop over an
/// arbitrary dispatch order; the result is proved not to depend on it.
module Generator {

  import opened Bytes
  import opened Partition
  import opened Iv
  import opened Ctr

  /// Why a run aborts before anything is allocated.
  datatype ConfigError =
    | DivisionByZero                             // `N % C` with C == 0 panics
    | NotDivisible(records: nat, chunkSize: nat) // the explicit guard fires

  datatype Result<T> = Ok(value: T) | Err(error: ConfigError)

  /// The guard and `num_chunks = N / C`: a run goes ahead exactly when C
  /// divides N, and then `par_chunks_mut(C)` yields num_chunks chunks of
  /// exactly C records each.
  function CheckConfig(n: Usize, c: Usize): (r: Result<nat>)
    ensures r.Ok? <==> c > 0 && n % c == 0
    ensures c == 0 ==> r == Err(DivisionByZero)
    ensures r.Err? && c > 0 ==> r.error == NotDivisible(n, c)
    ensures r.Ok? ==> r.value * c == n && |Chunks(n, c)| == r.value
    ensures r.Ok? ==> forall t :: 0 <= t < r.value ==> Chunks(n, c)[t] == Chunk(t * c, c)
  {
    if c == 0 then Err(DivisionByZero)
    else if n % c != 0 then Err(NotDivisible(n, c))
    else
      ChunksExact(n, c);
      Ok(n / c)
  }

  /// Chunk t of an exact partition lies inside the buffer, and its index is a `usize`.
  lemma ChunkFits(n: Usize, c: Usize, t: nat)
    requires c > 0 && n % c == 0 && t < n / c
    ensures 16 * (t * c) + 16 * c <= 16 * n
    ensures t < 0x1_0000_0000_0000_0000
  {
    assert n == (n / c) * c;
    ChunksOrdered(c, t, n / c);
  }

  /// n / c chunks of 16 * c bytes make up the 16 * n bytes of the buffer.
  lemma ExactBytes(n: nat, c: nat)
    requires c > 0 && n % c == 0
    ensures (n / c) * (16 * c) == 16 * n
  {
    var m := n / c;
    assert n == m * c;
    calc {
      m * (16 * c);
      16 * (m * c);
    }
  }

  /// Division of a nat by a positive divisor w that is not a constant. The
  /// solver does not find these facts within Locate's larger context, and
  /// runs out of resource there.
  lemma DivMod(p: nat, w: nat)
    requires w > 0
    ensures p / w >= 0
    ensures p == (p / w) * w + p % w && p % w < w
  {
  }

  /// Byte p of the buffer is byte p % (16 * c) of chunk p / (16 * c).
  lemma Locate(n: nat, c: nat, p: nat)
    requires c > 0 && n % c == 0 && p < 16 * n
    ensures 0 <= p / (16 * c) < n / c && p % (16 * c) < 16 * c
    ensures p == 16 * ((p / (16 * c)) * c) + p % (16 * c)
  {
    var w := 16 * c;
    DivMod(p, w);
    var t: nat, q := p / w, p % w;
    assert t * w == 16 * (t * c);
    if t >= n / c {
      MulMono(n / c, t, w);
      ExactBytes(n, c);
    }
  }

  /// The counter value chunk t's keystream starts from: its IV read as a
  /// 128-bit big-endian integer.
  function StartCounter(t: Usize): (s: nat)
    ensures s < CounterModulus
  {
    FromBeBound(ChunkIv(t));
    CounterModulusIsPow();
    FromBe(ChunkIv(t))
  }

  /// Chunk t's keystream: c blocks, counting up from its start counter.
  function ChunkKeystream(cipher: BlockCipher, key: Block, c: nat, t: Usize): (ks: seq<Byte>)
    ensures |ks| == 16 * c
  {
    Keystream(cipher, key, StartCounter(t), c)
  }

  /// The generated buffer: the keystreams of all chunks laid end to end in
  /// chunk order. Byte p lies in chunk p / (16 * c), at offset p % (16 * c).
  function Output(cipher: BlockCipher, key: Block, n: Usize, c: Usize): (out: seq<Byte>)
    requires c > 0 && n % c == 0
    ensures |out| == 16 * n
  {
    seq(16 * n, p requires 0 <= p < 16 * n => OutputByte(cipher, key, n, c, p))
  }

  /// Byte p of the generated buffer.
  function OutputByte(cipher: BlockCipher, key: Block, n: Usize, c: Usize, p: nat): Byte
    requires c > 0 && n % c == 0 && p < 16 * n
  {
    Locate(n, c, p);
    ChunkFits(n, c, p / (16 * c));
    ChunkKeystream(cipher, key, c, p / (16 * c))[p % (16 * c)]
  }

  /// Output byte 16 * (t * c) + q is byte q of chunk t's keystream.
  lemma OutputAt(cipher: BlockCipher, key: Block, n: Usize, c: Usize, t: nat, q: nat)
    requires c > 0 && n % c == 0 && t < n / c && q < 16 * c
    ensures 16 * (t * c) + q < 16 * n
    ensures Output(cipher, key, n, c)[16 * (t * c) + q] == ChunkKeystream(cipher, key, c, t)[q]
  {
    ChunkFits(n, c, t);
    assert t * (16 * c) == 16 * (t * c);
    ModUnique(16 * (t * c) + q, 16 * c, t, q);
  }

  /// Record r (16 bytes) of a buffer.
  function Record(buf: seq<Byte>, r: nat): seq<Byte>
    requires 16 * r + 16 <= |buf|
  {
    buf[16 * r .. 16 * r + 16]
  }

  /// Counter-mode content: record j of chunk t is the encryption of counter
  /// block j of that chunk, (StartCounter(t) + j) mod 2^128.
  lemma RecordContent(cipher: BlockCipher, key: Block, n: Usize, c: Usize, t: nat, j: nat)
    requires c > 0 && n % c == 0 && t < n / c && j < c
    ensures 16 * (t * c + j) + 16 <= 16 * n
    ensures Record(Output(cipher, key, n, c), t * c + j) == cipher(key, CounterBlock(StartCounter(t), j))
  {
    var out, ks := Output(cipher, key, n, c), ChunkKeystream(cipher, key, c, t);
    OutputChunk(cipher, key, n, c, t);
    KeystreamAt(cipher, key, StartCounter(t), c, j);
    SliceOfSlice(out, 16 * (t * c), 16 * c, 16 * j);
  }

  /// A 16-byte span inside a span is a span of the whole.
  lemma SliceOfSlice(a: seq<Byte>, lo: nat, len: nat, k: nat)
    requires lo + len <= |a| && k + 16 <= len
    ensures a[lo .. lo + len][k .. k + 16] == a[lo + k .. lo + k + 16]
  {
    var x, y := a[lo .. lo + len][k .. k + 16], a[lo + k .. lo + k + 16];
    forall i | 0 <= i < 16
      ensures x[i] == y[i]
    {
    }
    assert x == y;
  }

  /// Byte i of record j of chunk t is byte i of the encryption of counter block j.
  lemma RecordByte(cipher: BlockCipher, key: Block, n: Usize, c: Usize, t: nat, j: nat, i: nat)
    requires c > 0 && n % c == 0 && t < n / c && j < c && i < 16
    ensures 16 * (t * c + j) + i < 16 * n
    ensures Output(cipher, key, n, c)[16 * (t * c + j) + i] == cipher(key, CounterBlock(StartCounter(t), j))[i]
  {
    OutputAt(cipher, key, n, c, t, 16 * j + i);
    KeystreamByteAt(cipher, key, StartCounter(t), c, j, i);
    assert 16 * (t * c + j) + i == 16 * (t * c) + (16 * j + i);
  }

  /// The XOR form, for a buffer that did not start out zeroed: byte i of
  /// record j of chunk t ends up as its prior value XOR byte i of the
  /// encryption of counter block j of that chunk.
  lemma RecordXor(s: seq<Byte>, cipher: BlockCipher, key: Block, n: Usize, c: Usize, t: nat, j: nat, i: nat)
    requires c > 0 && n % c == 0 && |s| == 16 * n
    requires t < n / c && j < c && i < 16
    ensures 16 * (t * c + j) + i < 16 * n
    ensures XorAt(s, 0, Output(cipher, key, n, c))[16 * (t * c + j) + i]
         == Xor(s[16 * (t * c + j) + i], cipher(key, CounterBlock(StartCounter(t), j))[i])
  {
    RecordByte(cipher, key, n, c, t, j, i);
    var p := 16 * (t * c + j) + i;
    assert XorAt(s, 0, Output(cipher, key, n, c))[0 + p] == Xor(s[0 + p], Output(cipher, key, n, c)[p]);
  }

  /// Chunk t occupies bytes [16 * (t * c), 16 * (t * c) + 16 * c) of the output.
  lemma OutputChunk(cipher: BlockCipher, key: Block, n: Usize, c: Usize, t: nat)
    requires c > 0 && n % c == 0 && t < n / c
    ensures 16 * (t * c) + 16 * c <= 16 * n
    ensures Output(cipher, key, n, c)[16 * (t * c) .. 16 * (t * c) + 16 * c] == ChunkKeystream(cipher, key, c, t)
  {
    ChunkFits(n, c, t);
    forall q | 0 <= q < 16 * c
      ensures Output(cipher, key, n, c)[16 * (t * c) + q] == ChunkKeystream(cipher, key, c, t)[q]
    {
      OutputAt(cipher, key, n, c, t, q);
    }
    SliceIs(Output(cipher, key, n, c), 16 * (t * c), ChunkKeystream(cipher, key, c, t));
  }

  /// A dispatch order of the worker pool: a permutation of the chunk
  /// indices 0 .. m - 1, so that every chunk is filled exactly once.
  predicate IsSchedule(order: seq<nat>, m: nat)
  {
    && (forall k :: 0 <= k < |order| ==> order[k] < m)
    && (forall t :: 0 <= t < m ==> t in order)
    && (forall k, l :: 0 <= k < l < |order| ==> order[k] != order[l])
  }

  /// The order `enumerate()` hands the chunks out in is a schedule.
  lemma InOrderIsSchedule(m: nat)
    ensures IsSchedule(seq(m, k => k), m)
  {
    var order := seq(m, k => k);
    forall t | 0 <= t < m
      ensures t in order
    {
      assert order[t] == t;
    }
  }

  /// Buffer s after filling, one after another, the chunks listed in `order`.
  function FillOrder(s: seq<Byte>, cipher: BlockCipher, key: Block, n: Usize, c: Usize, order: seq<nat>): (r: seq<Byte>)
    requires c > 0 && n % c == 0 && |s| == 16 * n
    requires forall k :: 0 <= k < |order| ==> order[k] < n / c
    ensures |r| == |s|
    decreases |order|
  {
    if order == [] then s
    else
      var t := order[|order| - 1];
      ChunkFits(n, c, t);
      XorAt(FillOrder(s, cipher, key, n, c, order[..|order| - 1]), 16 * (t * c), ChunkKeystream(cipher, key, c, t))
  }

  /// Byte q of chunk t after filling the chunks in `order`: XORed with
  /// chunk t's keystream if t was among them, untouched otherwise. Filling
  /// any other chunk never reaches it.
  lemma {:induction false} FillOrderAt(s: seq<Byte>, cipher: BlockCipher, key: Block, n: Usize, c: Usize,
                                      order: seq<nat>, t: nat, q: nat)
    requires c > 0 && n % c == 0 && |s| == 16 * n
    requires forall k :: 0 <= k < |order| ==> order[k] < n / c
    requires forall k, l :: 0 <= k < l < |order| ==> order[k] != order[l]
    requires t < n / c && q < 16 * c
    ensures 16 * (t * c) + q < 16 * n
    ensures FillOrder(s, cipher, key, n, c, order)[16 * (t * c) + q]
         == if t in order then Xor(s[16 * (t * c) + q], ChunkKeystream(cipher, key, c, t)[q]) else s[16 * (t * c) + q]
    decreases |order|
  {
    ChunkFits(n, c, t);
    if order != [] {
      var init := order[..|order| - 1];
      var u := order[|order| - 1];
      FillOrderAt(s, cipher, key, n, c, init, t, q);
      assert order == init + [u];
      if u == t {
        assert t !in init;
      } else {
        SpansDisjoint(c, t, u);
      }
    }
  }

  /// Order independence: filling the chunks in any schedule XORs the whole
  /// output into the buffer.
  lemma FillOrderIsOutput(s: seq<Byte>, cipher: BlockCipher, key: Block, n: Usize, c: Usize, order: seq<nat>)
    requires c > 0 && n % c == 0 && |s| == 16 * n
    requires IsSchedule(order, n / c)
    ensures FillOrder(s, cipher, key, n, c, order) == XorAt(s, 0, Output(cipher, key, n, c))
  {
    var w := 16 * c;
    var left := FillOrder(s, cipher, key, n, c, order);
    var right := XorAt(s, 0, Output(cipher, key, n, c));
    forall p | 0 <= p < 16 * n
      ensures left[p] == right[p]
    {
      Locate(n, c, p);
      var t: nat, q: nat := p / w, p % w;
      FillOrderAt(s, cipher, key, n, c, order, t, q);
      OutputAt(cipher, key, n, c, t, q);
      assert right[0 + p] == Xor(s[0 + p], Output(cipher, key, n, c)[p]);
    }
  }

  /// Any two schedules leave the buffer in the same state.
  lemma ScheduleIrrelevant(s: seq<Byte>, cipher: BlockCipher, key: Block, n: Usize, c: Usize,
                           order1: seq<nat>, order2: seq<nat>)
    requires c > 0 && n % c == 0 && |s| == 16 * n
    requires IsSchedule(order1, n / c) && IsSchedule(order2, n / c)
    ensures FillOrder(s, cipher, key, n, c, order1) == FillOrder(s, cipher, key, n, c, order2)
  {
    FillOrderIsOutput(s, cipher, key, n, c, order1);
    FillOrderIsOutput(s, cipher, key, n, c, order2);
  }

  /// One task of the worker pool: views chunk `ch` as bytes, builds its IV
  /// from its index t, and applies the counter-mode keystream to the span.
  /// No byte outside the chunk's span changes.
  method FillChunk(buf: array<Byte>, cipher: BlockCipher, key: Block, t: Usize, ch: Chunk)
    requires ByteSpan(ch).1 <= buf.Length
    modifies buf
    ensures buf[..] == XorAt(old(buf[..]), ByteSpan(ch).0, Keystream(cipher, key, StartCounter(t), ch.len))
  {
    var byteLen := ch.len * RecordBytes;
    var iv := BuildIv(t);
    var ctr := new Aes128Ctr(cipher, key, iv);
    ctr.ApplyKeystream(buf, RecordBytes * ch.first, byteLen);
  }

  /// `par_chunks_mut(C).enumerate().for_each(...)`, with the chunks
  /// dispatched in the order `order`: XORs the output into the buffer.
  method FillChunks(buf: array<Byte>, cipher: BlockCipher, key: Block, n: Usize, c: Usize, order: seq<nat>)
    requires c > 0 && n % c == 0 && buf.Length == 16 * n
    requires IsSchedule(order, n / c)
    modifies buf
    ensures buf[..] == XorAt(old(buf[..]), 0, Output(cipher, key, n, c))
  {
    var chunks := Chunks(n, c);
    ChunksExact(n, c);
    var k := 0;
    while k < |order|
      invariant k <= |order|
      invariant buf[..] == FillOrder(old(buf[..]), cipher, key, n, c, order[..k])
    {
      var t := order[k];
      ChunkFits(n, c, t);
      FillChunk(buf, cipher, key, t, chunks[t]);
      assert order[..k + 1][..k] == order[..k];
      k := k + 1;
    }
    assert order[..k] == order;
    FillOrderIsOutput(old(buf[..]), cipher, key, n, c, order);
  }

  /// Generation as a whole: abort on a bad configuration before allocating
  /// anything, otherwise allocate a zeroed buffer of N records and fill every
  /// chunk. For every dispatch order the result is the output keystream.
  method Generate(cipher: BlockCipher, key: Block, n: Usize, c: Usize, order: seq<nat>) returns (r: Result<seq<Byte>>)
    requires c > 0 && n % c == 0 ==> IsSchedule(order, n / c)
    ensures c == 0 ==> r == Err(DivisionByZero)
    ensures c > 0 && n % c != 0 ==> r == Err(NotDivisible(n, c))
    ensures c > 0 && n % c == 0 ==> r == Ok(Output(cipher, key, n, c))
  {
    var check := CheckConfig(n, c);
    if check.Err? {
      return Err(check.error);
    }
    var buf := new Byte[16 * n](_ => 0);
    assert buf[..] == Zeros(16 * n);
    FillChunks(buf, cipher, key, n, c, order);
    XorAtZeros(Output(cipher, key, n, c));
    r := Ok(buf[..]);
  }
}
