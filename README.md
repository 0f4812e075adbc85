# Bulk password generation with AES-128-CTR, modelled in Dafny

The program fills one large buffer with N 16-byte records ("passwords").
It refuses to run unless the chunk size C divides N. It cuts the buffer
into N / C contiguous chunks of C records and gives chunk i its own
16-byte IV: eight zero bytes, then the little-endian bytes of i. A worker
pool then fills every chunk in parallel with the keystream of AES-128 in
counter mode (`Ctr128BE`: the whole IV is a 128-bit big-endian counter,
as in section 6.5 and Appendix B.1 of NIST SP 800-38A).

The model is split into these modules:

- `Bytes`: bytes, `usize`, and little- and big-endian encodings with
  their round trips. It also holds XOR of a keystream into a span of a
  byte string (`XorAt`).
- `Partition`: how `par_chunks_mut(C)` cuts N records into chunks, and
  why the divisibility guard makes the cut exact and disjoint.
- `Iv`: IV construction, both as the imperative array fill the program
  performs (`BuildIv`) and as a function (`ChunkIv`).
- `Ctr`: counter mode. `Aes128Ctr` is a class whose `counter` field
  advances once per block while `ApplyKeystream` XORs keystream blocks
  into an `array<Byte>` in place. It is proved against the specification
  function `Keystream`.
- `Generator`: the guard, the zeroed buffer, one worker task
  (`FillChunk`), and the parallel `for_each` as a loop over an arbitrary
  dispatch order (`FillChunks`). `Generate` is the whole run. The result
  is proved equal to `Output`, the chunk keystreams laid end to end,
  whatever order the chunks are filled in.
- `Counters`: where each chunk's counter range starts. Chunk i starts at
  the byte-swap of i, so chunk 1 starts at 2^56, not at 1. This module
  proves the bounds under which the counter ranges of distinct chunks are
  disjoint, and that all records are then distinct.

AES-128 is a parameter `cipher: (Block, Block) -> Block` (key, input).
The distinctness of records assumes only that this function is injective
in its input for the fixed key, as a block cipher is.

The comment at src/main.rs:94 says each chunk gets its own IV "to avoid
overlap". The IV is different for every chunk, but the keystream walks
from it: block j of chunk t is the encryption of the counter
(StartCounter(t) + j) mod 2^128, where StartCounter(t) is the IV read as a
big-endian number. The code puts the chunk index little-endian in the low
half of that big-endian counter. The counter ranges of distinct chunks
are therefore disjoint only under bounds. `CounterRangesDisjoint` proves
they are disjoint for at most 2^16 chunks of at most 2^48 records each.
`CounterRangesOverlapBeyondBound` shows that chunk 2^56 starts at counter
1, inside chunk 0's range. The configured 4000 chunks of 10^6 records are
within the bound.

## Model

| member | source | states |
|---|---|---|
| Bytes.LeRoundTrip | src/main.rs:97 | decoding the n little-endian bytes of any x < 256^n gives back x |
| Bytes.LeBytesOfFromLe | src/main.rs:97 | encoding a decoded little-endian byte string gives back the string |
| Bytes.LeBytes | src/main.rs:97 | `to_le_bytes` on n bytes gives exactly n bytes; LeRoundTrip and LeBytesOfFromLe show it is the inverse of little-endian decoding |
| Bytes.BeRoundTrip | src/main.rs:11-12 | decoding the n big-endian bytes of any x < 256^n gives back x |
| Bytes.BeBytesOfFromBe | src/main.rs:11-12 | encoding a decoded big-endian byte string gives back the string |
| Bytes.BeBytesInjective | src/main.rs:11-12 | two values below 256^n with the same big-endian bytes are equal |
| Bytes.FromBeLeadingZeros | src/main.rs:95-97 | leading zero bytes do not change the big-endian value |
| Bytes.FromBeTrailingZeros | src/main.rs:95-97 | k trailing zero bytes multiply the big-endian value by 256^k |
| Bytes.FromBeAppendZero | src/main.rs:95-97 | one trailing zero byte multiplies the big-endian value by 256 |
| Bytes.XorAt | src/main.rs:102 | applying a keystream to a span keeps the length, changes no byte outside the span, and XORs byte q of the keystream into byte lo + q |
| Bytes.XorAtAdjacent | src/main.rs:102 | XORing a and then b right after it equals XORing a + b |
| Bytes.XorAtJoin | src/main.rs:102 | XORing a and then b right after it, at an offset given by name, equals XORing a + b |
| Bytes.XorAtZeros | src/main.rs:68-69 | a keystream applied to an all-zero buffer is the keystream itself |
| Partition.ByteSpan | src/main.rs:90-92 | a chunk of len records spans 16 * len bytes |
| Partition.Split | src/main.rs:86 | every chunk cut from rem records starting at first holds between 1 and C records and lies inside [first, first + rem); SplitExact and SplitRagged give the exact cut |
| Partition.Chunks | src/main.rs:86 | every chunk `par_chunks_mut(C)` cuts from N records holds between 1 and C records and ends at or before N; ChunksExact, HoldsIff and ChunksCover say which chunks there are |
| Partition.ChunksExact | src/main.rs:71 | when C divides N there are N / C chunks and chunk t is records [t*C, t*C + C) |
| Partition.ChunksOrdered | src/main.rs:85-86 | chunk t ends at or before chunk u begins when t < u |
| Partition.HoldsIff | src/main.rs:85-86 | record r lies in chunk t if and only if t == r / C |
| Partition.ChunksCover | src/main.rs:85-88 | with C dividing N, no chunk reaches past N, and every record below N lies in exactly one chunk, the one numbered r / C |
| Partition.SpansDisjoint | src/main.rs:90-92 | distinct chunks occupy disjoint byte spans |
| Partition.SplitRagged | src/main.rs:86 | without the guard the last chunk holds only N % C records |
| Iv.BuildIv | src/main.rs:95-97 | the IV built in place has zero bytes 0..8, bytes 8..16 decode little-endian to the chunk index, and it equals ChunkIv |
| Iv.ChunkIv | src/main.rs:95-97 | the IV of chunk t as a value; IvLayout proves its layout and IvInjective that distinct chunks get distinct IVs |
| Iv.IvLayout | src/main.rs:95-97 | ChunkIv has eight zero bytes, and its last eight bytes decode to the chunk index |
| Iv.IvInjective | src/main.rs:94-97 | distinct chunk indices get distinct IVs |
| Ctr.CounterModulusIsPow | src/main.rs:11-12 | the counter wraps at 256^16 = 2^128 |
| Ctr.CounterBlock | src/main.rs:11-12 | counter block j from a start value is the 16 big-endian bytes of (start + j) mod 2^128; CounterBlockValue proves it decodes back to that value |
| Ctr.CounterBlockValue | src/main.rs:11-12 | counter block j read back big-endian is (start + j) mod 2^128 |
| Ctr.KeystreamBlock | src/main.rs:100-102 | keystream block j is the cipher applied to counter block j; KeystreamAt and KeystreamByteAt place it at bytes [16j, 16j + 16) of the keystream |
| Ctr.Keystream | src/main.rs:11-12 | the keystream of b blocks is 16 * b bytes long; its bytes are those of keystream blocks 0, 1, ... in order (see KeystreamByteAt) |
| Ctr.KeystreamGrow | src/main.rs:11-12 | one more block extends the keystream by exactly that block |
| Ctr.KeystreamAt | src/main.rs:11-12 | bytes [16j, 16j + 16) of the keystream are the encryption of counter block j |
| Ctr.KeystreamByteAt | src/main.rs:11-12 | byte 16 * j + i of the keystream is byte i of the encryption of counter block j, for every j below the block count and i < 16 |
| Ctr.XorNextBlock | src/main.rs:102 | XORing the encryption of counter value (start + j) mod 2^128 right after the first j blocks is XORing the first j + 1 blocks |
| Ctr.Aes128Ctr.constructor | src/main.rs:100 | the cipher keeps the key, and its counter starts at the IV read big-endian |
| Ctr.Aes128Ctr.ApplyKeystream | src/main.rs:102 | XORs the next len/16 keystream blocks into buf[lo, lo + len), changes nothing else, and advances the counter by len/16 modulo 2^128 |
| Ctr.Aes128Ctr.ApplyBlock | src/main.rs:102 | encrypts the current counter block big-endian, XORs it into 16 bytes of the buffer, changes nothing else, and increments the counter modulo 2^128 |
| Ctr.XorBlockInto | src/main.rs:102 | XORs one keystream block into 16 bytes of the buffer and nothing else |
| Generator.CheckConfig | src/main.rs:54-59 | the run goes ahead if and only if C > 0 and C divides N; C == 0 reports DivisionByZero, and otherwise a C that does not divide N reports NotDivisible(N, C); num_chunks * C == N and the partition is exact |
| Generator.ChunkFits | src/main.rs:71 | chunk t < N / C lies inside the 16 * N byte buffer and its index fits a usize |
| Generator.ExactBytes | src/main.rs:67-71 | N / C chunks of 16 * C bytes make up exactly the 16 * N bytes of the buffer |
| Generator.StartCounter | src/main.rs:100 | chunk t's counter starts at its IV read big-endian, a value below 2^128; StartCounterBound and StartCounterInjective bound it and separate chunks |
| Generator.ChunkKeystream | src/main.rs:85-102 | chunk t's keystream of C blocks is 16 * C bytes, the length of the chunk's byte span; OutputChunk places it in the output |
| Generator.Output | src/main.rs:85-103 | the generated buffer is 16 * N bytes |
| Generator.OutputAt | src/main.rs:85-102 | output byte 16*(t*C) + q is byte q of chunk t's keystream |
| Generator.OutputChunk | src/main.rs:85-102 | chunk t's byte span of the output is chunk t's keystream |
| Generator.RecordContent | src/main.rs:100-102 | record j of chunk t is the encryption of counter block (StartCounter(t) + j) mod 2^128 |
| Generator.RecordByte | src/main.rs:100-102 | byte i of record j of chunk t is byte i of the encryption of counter block (StartCounter(t) + j) mod 2^128 |
| Generator.RecordXor | src/main.rs:68-69 | from an arbitrary prior buffer, byte i of record j of chunk t ends up as its prior value XOR byte i of that encryption |
| Generator.InOrderIsSchedule | src/main.rs:87 | the order enumerate() hands out the chunks in is a dispatch order |
| Generator.FillOrder | src/main.rs:85-102 | filling the chunks in a dispatch order keeps the buffer length; FillOrderAt and FillOrderIsOutput give its contents |
| Generator.FillOrderAt | src/main.rs:85-102 | after filling the chunks in a dispatch order, a byte of chunk t is XORed with chunk t's keystream if t was filled, and is otherwise unchanged |
| Generator.FillOrderIsOutput | src/main.rs:85-88 | filling the chunks in any dispatch order XORs the output into the buffer |
| Generator.ScheduleIrrelevant | src/main.rs:85-88 | any two dispatch orders give the same buffer |
| Generator.FillChunk | src/main.rs:88-102 | one task XORs chunk t's keystream into the chunk's byte span and nothing else |
| Generator.FillChunks | src/main.rs:85-103 | filling all chunks in any dispatch order XORs the output into the buffer |
| Generator.Generate | src/main.rs:54-103 | a bad configuration gives the matching error; otherwise the run returns Output, the chunk keystreams in chunk order, for every dispatch order |
| Counters.StartCounterBound | src/main.rs:95-97 | a chunk's start counter is its index's little-endian bytes read big-endian, below 2^64 |
| Counters.StartCounterInjective | src/main.rs:94-97 | distinct chunks start from distinct counters |
| Counters.StartCounterSwap | src/main.rs:95-97 | for t < 2^16 the start counter is the 16-bit byte-swap of t times 2^48 |
| Counters.Swap16Injective | src/main.rs:95-97 | the byte-swap is injective on 16-bit values |
| Counters.ChunkZeroStart | src/main.rs:95-97 | chunk 0's IV is sixteen zero bytes and its counter starts at 0 |
| Counters.ChunkOneIv | src/main.rs:95-97 | chunk 1's IV is eight zero bytes, a 1, then seven zero bytes |
| Counters.ChunkOneStart | src/main.rs:95-97 | chunk 1's counter starts at 256^7 = 2^56 |
| Counters.StartCounterLowByte | src/main.rs:95-97 | a chunk index t below 256 starts its counter at t * 2^56 |
| Counters.CounterRangesDisjoint | src/main.rs:15-16 | with at most 2^16 chunks of at most 2^48 records, counter ranges never wrap and are pairwise disjoint |
| Counters.CounterRangesOverlapBeyondBound | src/main.rs:94-97 | chunk 2^56 starts at counter 1, so without the bound ranges overlap |
| Counters.LeShift | src/main.rs:97 | the little-endian bytes of x * 256^k are k zero bytes and then the bytes of x |
| Counters.RecordsDistinct | src/main.rs:113-116 | with an injective block cipher and the no-overlap bounds, any two distinct records of the output differ |
| Counters.RecordIs | src/main.rs:85-102 | record r of the output is the encryption of counter block r % C of chunk r / C |
| Counters.CounterBlocksDiffer | src/main.rs:94-102 | under the no-overlap bounds, distinct (chunk, record) pairs use distinct counter blocks |
| Counters.CounterBlocksApart | src/main.rs:11-12 | distinct counter values below 2^128 give distinct counter blocks |
| Counters.CounterValuesDiffer | src/main.rs:94-97 | under the no-overlap bounds, distinct (chunk, record) pairs reach distinct counter values |
| Counters.CounterValueFits | src/main.rs:94-97 | counter value j of any chunk with j below 2^48 stays below 2^128, so no wrap-around happens |
| Counters.RecordIndex | src/main.rs:85-88 | record r is record r % C of chunk r / C, and that chunk exists |

## Left out

- System information, memory figures and their floating-point GiB conversions (src/main.rs:22-49, 64, 110-111) are external state and console output.
- All console output, including the sample loop at the end (src/main.rs:129-131), is I/O only.
- Timing and the throughput rate (src/main.rs:83, 105, 117-123) depend on the wall clock and floating point.
- AES-128 is a parameter, not its rounds. Only its injectivity for a fixed key is assumed, and only by `Counters.RecordsDistinct`.
- The worker pool's parallelism is not modelled. The chunks are filled one after another in an arbitrary dispatch order. Safety is captured by the span frame of `FillChunk`, by `SpansDisjoint`, and by order independence.
- The buffer starts zeroed in `Generate` rather than uninitialised (`set_len` without zeroing). The XOR form for an arbitrary prior buffer is in `FillChunks` and `RecordXor`.
- The raw pointer reinterpretation of a chunk as bytes is modelled as a byte array of 16 * N bytes and index ranges into it.
- N and C are parameters. The constants 4_000_000_000 and 1_000_000 are not fixed in the model, and their comment's "1 billion" is not modelled.
- Allocation failure is not modelled.
- The fixed key `[0x13; 16]` is a parameter.
- `Ctr.Aes128Ctr.ApplyKeystream` handles whole 16-byte blocks only. The crate's buffering of a partial final block is not modelled, because every chunk is a whole number of records.
- Ctr.Aes128Ctr.ApplyKeystream wraps the counter modulo 2^128. The crate's check that refuses to run past the end of the keystream is not modelled.
- The cipher's key and IV are fixed-size blocks, so the length errors of `new` cannot arise and are not modelled.
- Bytes.Usize is a 64-bit `usize`, as on the targets the program is built for.
