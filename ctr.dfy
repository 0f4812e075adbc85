/// The keystream generator: AES-128 in counter mode with a 128-bit
/// big-endian counter (`Ctr128BE<Aes128>`), as in section 6.5 of NIST
/// SP 800-38A with the standard incrementing function of its Appendix B.1
/// applied to the whole block.
module Ctr {

  import opened Bytes

  /// The block cipher as counter mode sees it: encryption of one block
  /// under a key. AES-128 itself is an external collaborator.
  type BlockCipher = (Block, Block) -> Block

  /// 2^128: counter values wrap modulo this.
  const CounterModulus: nat := 0x1_0000_0000_0000_0000_0000_0000_0000_0000

  lemma CounterModulusIsPow()
    ensures CounterModulus == Pow256(16)
  {
    Pow256Add(8, 8);
  }

  /// Counter block j of a stream whose initial counter block denotes `start`:
  /// (start + j) mod 2^128, written big-endian.
  function CounterBlock(start: nat, j: nat): Block
  {
    BeBytes((start + j) % CounterModulus, 16)
  }

  /// A counter block read back big-endian is the counter value it encodes.
  lemma CounterBlockValue(start: nat, j: nat)
    ensures FromBe(CounterBlock(start, j)) == (start + j) % CounterModulus
  {
    CounterModulusIsPow();
    BeRoundTrip((start + j) % CounterModulus, 16);
  }

  /// Keystream block j: the encryption of counter block j.
  function KeystreamBlock(cipher: BlockCipher, key: Block, start: nat, j: nat): Block
  {
    cipher(key, CounterBlock(start, j))
  }

  /// The first `blocks` keystream blocks, one after another: byte p is
  /// byte p % 16 of block p / 16.
  function Keystream(cipher: BlockCipher, key: Block, start: nat, blocks: nat): (ks: seq<Byte>)
    ensures |ks| == 16 * blocks
  {
    seq(16 * blocks, p requires 0 <= p < 16 * blocks => KeystreamBlock(cipher, key, start, p / 16)[p % 16])
  }

  /// One more block extends the keystream by that block.
  lemma KeystreamGrow(cipher: BlockCipher, key: Block, start: nat, j: nat)
    ensures Keystream(cipher, key, start, j + 1) == Keystream(cipher, key, start, j) + KeystreamBlock(cipher, key, start, j)
  {
    var a, b := Keystream(cipher, key, start, j + 1), Keystream(cipher, key, start, j) + KeystreamBlock(cipher, key, start, j);
    forall p | 0 <= p < 16 * (j + 1)
      ensures a[p] == b[p]
    {
    }
  }

  /// Bytes [16 * j, 16 * j + 16) of the keystream are keystream block j.
  lemma KeystreamAt(cipher: BlockCipher, key: Block, start: nat, blocks: nat, j: nat)
    requires j < blocks
    ensures Keystream(cipher, key, start, blocks)[16 * j .. 16 * j + 16] == KeystreamBlock(cipher, key, start, j)
  {
    var ks := Keystream(cipher, key, start, blocks);
    forall i | 0 <= i < 16
      ensures ks[16 * j + i] == KeystreamBlock(cipher, key, start, j)[i]
    {
      KeystreamByteAt(cipher, key, start, blocks, j, i);
    }
    SliceIs(ks, 16 * j, KeystreamBlock(cipher, key, start, j));
  }

  /// Byte 16 * j + i of the keystream is byte i of keystream block j.
  lemma KeystreamByteAt(cipher: BlockCipher, key: Block, start: nat, blocks: nat, j: nat, i: nat)
    requires j < blocks && i < 16
    ensures 16 * j + i < 16 * blocks
    ensures Keystream(cipher, key, start, blocks)[16 * j + i] == KeystreamBlock(cipher, key, start, j)[i]
  {
    ModUnique(16 * j + i, 16, j, i);
  }

  /// XORing keystream block j right after the first j blocks is XORing
  /// the first j + 1. Block j is the encryption of the counter value r
  /// reached after j increments.
  lemma XorNextBlock(s: seq<Byte>, lo: nat, cipher: BlockCipher, key: Block, start: nat, j: nat,
                     prev: seq<Byte>, r: nat)
    requires lo + 16 * (j + 1) <= |s|
    requires prev == XorAt(s, lo, Keystream(cipher, key, start, j))
    requires r == (start + j) % CounterModulus
    ensures XorAt(prev, lo + 16 * j, cipher(key, BeBytes(r, 16)))
         == XorAt(s, lo, Keystream(cipher, key, start, j + 1))
  {
    KeystreamGrow(cipher, key, start, j);
    XorAtJoin(s, lo, Keystream(cipher, key, start, j), lo + 16 * j, KeystreamBlock(cipher, key, start, j), Keystream(cipher, key, start, j + 1));
  }

  /// A counter-mode cipher instance (`Aes128Ctr::new(&key, &iv)`): the key
  /// and the current counter block, read as a 128-bit big-endian integer.
  class Aes128Ctr {
    const cipher: BlockCipher
    const key: Block
    var counter: nat

    ghost predicate Valid()
      reads this
    {
      counter < CounterModulus
    }

    /// The counter starts at the IV.
    constructor (cipher: BlockCipher, key: Block, iv: Block)
      ensures Valid()
      ensures this.cipher == cipher && this.key == key
      ensures counter == FromBe(iv)
    {
      this.cipher := cipher;
      this.key := key;
      FromBeBound(iv);
      CounterModulusIsPow();
      counter := FromBe(iv);
    }

    /// XORs the next len / 16 keystream blocks into buf[lo .. lo + len),
    /// advancing the counter once per block; no byte outside that span changes.
    method ApplyKeystream(buf: array<Byte>, lo: nat, len: nat)
      requires Valid()
      requires lo + len <= buf.Length && len % 16 == 0
      modifies this, buf
      ensures Valid()
      ensures counter == (old(counter) + len / 16) % CounterModulus
      ensures buf[..] == XorAt(old(buf[..]), lo, Keystream(cipher, key, old(counter), len / 16))
    {
      ghost var start := counter;
      ghost var before := buf[..];
      var j := 0;
      while j < len / 16
        invariant j <= len / 16
        invariant counter == (start + j) % CounterModulus
        invariant buf[..] == XorAt(before, lo, Keystream(cipher, key, start, j))
      {
        ghost var prev, r := buf[..], counter;
        ModStep(start, j, r, CounterModulus);
        XorNextBlock(before, lo, cipher, key, start, j, prev, r);
        ApplyBlock(buf, lo + 16 * j);
        j := j + 1;
      }
    }

    /// One keystream block: encrypts the current counter block, XORs it
    /// into buf[off .. off + 16], and increments the counter modulo 2^128.
    method ApplyBlock(buf: array<Byte>, off: nat)
      requires Valid()
      requires off + 16 <= buf.Length
      modifies this, buf
      ensures Valid()
      ensures counter == (old(counter) + 1) % CounterModulus
      ensures buf[..] == XorAt(old(buf[..]), off, cipher(key, BeBytes(old(counter), 16)))
    {
      var block := cipher(key, BeBytes(counter, 16));
      XorBlockInto(buf, off, block);
      counter := (counter + 1) % CounterModulus;
    }
  }

  /// XORs one keystream block into buf[off .. off + 16].
  method XorBlockInto(buf: array<Byte>, off: nat, block: Block)
    requires off + 16 <= buf.Length
    modifies buf
    ensures buf[..] == XorAt(old(buf[..]), off, block)
  {
    forall p | off <= p < off + 16 {
      buf[p] := Xor(buf[p], block[p - off]);
    }
  }
}
