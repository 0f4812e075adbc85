/// The chunk partitioner: how `par_chunks_mut(size)` cuts the record
/// buffer into contiguous chunks, and why the divisibility guard makes the
/// cut exact.
module Partition {

  import Bytes

  /// Every record (`PasswordBlock = [u8; 16]`) is 16 bytes long.
  const RecordBytes: nat := 16

  /// One chunk: the records [first, first + len) of the buffer.
  datatype Chunk = Chunk(first: nat, len: nat)

  /// The chunks of the records [first, first + rem), in order: each `size`
  /// records long, except a shorter last one when `size` does not divide `rem`.
  function Split(first: nat, rem: nat, size: nat): (r: seq<Chunk>)
    requires size > 0
    ensures forall k :: 0 <= k < |r| ==>
      0 < r[k].len <= size && first <= r[k].first && r[k].first + r[k].len <= first + rem
    decreases rem
  {
    if rem == 0 then []
    else if rem <= size then [Chunk(first, rem)]
    else [Chunk(first, size)] + Split(first + size, rem - size, size)
  }

  /// `par_chunks_mut(size)` over a buffer of n records.
  function Chunks(n: nat, size: nat): (r: seq<Chunk>)
    requires size > 0
    ensures forall k :: 0 <= k < |r| ==> 0 < r[k].len <= size && r[k].first + r[k].len <= n
  {
    Split(0, n, size)
  }

  /// Whether record r lies in chunk ch.
  predicate Holds(ch: Chunk, r: nat)
  {
    ch.first <= r < ch.first + ch.len
  }

  /// The byte span [lo, hi) that a chunk's records occupy.
  function ByteSpan(ch: Chunk): (span: (nat, nat))
    ensures span.1 - span.0 == RecordBytes * ch.len
  {
    (RecordBytes * ch.first, RecordBytes * (ch.first + ch.len))
  }

  /// Cutting k * size records gives k chunks; chunk t starts at record
  /// first + t * size and holds exactly size records.
  lemma {:induction false} SplitExact(first: nat, k: nat, size: nat)
    requires size > 0
    ensures |Split(first, k * size, size)| == k
    ensures forall t :: 0 <= t < k ==> Split(first, k * size, size)[t] == Chunk(first + t * size, size)
    decreases k
  {
    if k == 1 {
      assert k * size == size;
    } else if k > 1 {
      var rest := Split(first + size, (k - 1) * size, size);
      assert k * size == (k - 1) * size + size;
      assert (k - 1) * size >= size by { assert (k - 1) * size == (k - 2) * size + size; }
      assert Split(first, k * size, size) == [Chunk(first, size)] + rest;
      SplitExact(first + size, k - 1, size);
      forall t | 0 <= t < k
        ensures Split(first, k * size, size)[t] == Chunk(first + t * size, size)
      {
        if t > 0 {
          assert rest[t - 1] == Chunk(first + size + (t - 1) * size, size);
          assert size + (t - 1) * size == t * size;
        }
      }
    }
  }

  /// With n % size == 0 the partition is exact: n / size chunks, chunk t
  /// covering records [t * size, (t + 1) * size).
  lemma ChunksExact(n: nat, size: nat)
    requires size > 0 && n % size == 0
    ensures |Chunks(n, size)| == n / size
    ensures forall t :: 0 <= t < n / size ==> Chunks(n, size)[t] == Chunk(t * size, size)
  {
    assert n == (n / size) * size;
    SplitExact(0, n / size, size);
  }

  /// Chunk t ends at or before chunk u begins whenever t < u.
  lemma ChunksOrdered(size: nat, t: nat, u: nat)
    requires t < u
    ensures t * size + size <= u * size
  {
    assert t * size + size == (t + 1) * size;
    Bytes.MulMono(t + 1, u, size);
  }

  /// A record lies in chunk t exactly when t is its index divided by the chunk size.
  lemma HoldsIff(size: nat, t: nat, r: nat)
    requires size > 0
    ensures Holds(Chunk(t * size, size), r) <==> t == r / size
  {
    var q := r / size;
    assert q * size <= r < q * size + size;
    if t < q {
      ChunksOrdered(size, t, q);
    } else if q < t {
      ChunksOrdered(size, q, t);
    }
  }

  /// Exact coverage: with n % size == 0, every record below n lies in
  /// exactly one chunk, and no chunk reaches past n.
  lemma ChunksCover(n: nat, size: nat, r: nat)
    requires size > 0 && n % size == 0
    ensures forall t :: 0 <= t < |Chunks(n, size)| ==> Chunks(n, size)[t].first + Chunks(n, size)[t].len <= n
    ensures r < n ==> r / size < |Chunks(n, size)|
    ensures forall t :: 0 <= t < |Chunks(n, size)| ==> (Holds(Chunks(n, size)[t], r) <==> t == r / size)
  {
    ChunksExact(n, size);
    var m := n / size;
    assert n == m * size;
    forall t | 0 <= t < m
      ensures Chunks(n, size)[t].first + Chunks(n, size)[t].len <= n
      ensures Holds(Chunks(n, size)[t], r) <==> t == r / size
    {
      Bytes.MulMono(t + 1, m, size);
      assert t * size + size == (t + 1) * size;
      HoldsIff(size, t, r);
    }
    if r < n && r / size >= m {
      Bytes.MulMono(m, r / size, size);
    }
  }

  /// Chunks of the same size with distinct indices occupy disjoint byte spans.
  lemma SpansDisjoint(size: nat, t: nat, u: nat)
    requires t != u
    ensures ByteSpan(Chunk(t * size, size)).1 <= ByteSpan(Chunk(u * size, size)).0
         || ByteSpan(Chunk(u * size, size)).1 <= ByteSpan(Chunk(t * size, size)).0
  {
    if t < u {
      ChunksOrdered(size, t, u);
    } else {
      ChunksOrdered(size, u, t);
    }
  }

  /// Without the guard the last chunk is short: n % size records.
  lemma {:induction false} SplitRagged(first: nat, rem: nat, size: nat)
    requires size > 0 && rem % size != 0
    ensures |Split(first, rem, size)| > 0
    ensures Split(first, rem, size)[|Split(first, rem, size)| - 1].len == rem % size
    decreases rem
  {
    if rem > size {
      var rest := Split(first + size, rem - size, size);
      assert Split(first, rem, size) == [Chunk(first, size)] + rest;
      ModDropOne(rem, size);
      SplitRagged(first + size, rem - size, size);
    } else {
      Bytes.ModUnique(rem, size, 0, rem);
    }
  }

  /// Removing one chunk's worth of records leaves the remainder unchanged.
  lemma ModDropOne(rem: nat, size: nat)
    requires 0 < size <= rem
    ensures (rem - size) % size == rem % size
  {
    var q, m := rem / size, rem % size;
    assert q >= 1;
    assert rem - size == (q - 1) * size + m;
    Bytes.ModUnique(rem - size, size, q - 1, m);
  }
}
