/// Bytes, fixed-width unsigned integers as byte strings, and the
/// operation the generator performs on byte strings: XOR of a keystream
/// into a span.
module Bytes {

  /// A `u8`.
  newtype Byte = b: int | 0 <= b < 256

  /// A `usize` on a 64-bit target.
  type Usize = x: nat | x < 0x1_0000_0000_0000_0000

  /// A 16-byte cipher block, key or IV (`[u8; 16]`).
  type Block = s: seq<Byte> | |s| == 16 witness seq(16, _ => 0)

  /// Bitwise exclusive or of two bytes.
  function Xor(a: Byte, b: Byte): Byte
  {
    ((a as bv8) ^ (b as bv8)) as Byte
  }

  lemma XorZeroLeft(b: Byte)
    ensures Xor(0, b) == b
  {
    var x := b as bv8;
    assert (0 as Byte) as bv8 == 0;
    assert (0 as bv8) ^ x == x;
    assert x as Byte == b;
  }

  function Pow256(n: nat): (r: nat)
    ensures r > 0
  {
    if n == 0 then 1 else 256 * Pow256(n - 1)
  }

  lemma {:induction false} Pow256Add(a: nat, b: nat)
    ensures Pow256(a + b) == Pow256(a) * Pow256(b)
  {
    if a > 0 {
      Pow256Add(a - 1, b);
    }
  }

  function Zeros(n: nat): (r: seq<Byte>)
    ensures |r| == n
    ensures forall k :: 0 <= k < n ==> r[k] == 0
  {
    seq(n, _ => 0)
  }

  // ---------------------------------------------------------------------
  // Little-endian encoding (`to_le_bytes`)
  // ---------------------------------------------------------------------

  /// The low n bytes of x, least significant first.
  function LeBytes(x: nat, n: nat): (r: seq<Byte>)
    ensures |r| == n
  {
    if n == 0 then [] else [(x % 256) as Byte] + LeBytes(x / 256, n - 1)
  }

  /// The unsigned integer a little-endian byte string denotes.
  function FromLe(s: seq<Byte>): nat
  {
    if s == [] then 0 else s[0] as nat + 256 * FromLe(s[1..])
  }

  /// Decoding what was encoded gives back every value that fits.
  lemma {:induction false} LeRoundTrip(x: nat, n: nat)
    requires x < Pow256(n)
    ensures FromLe(LeBytes(x, n)) == x
  {
    if n > 0 {
      var s := LeBytes(x, n);
      assert s[1..] == LeBytes(x / 256, n - 1);
      LeRoundTrip(x / 256, n - 1);
    }
  }

  /// Encoding what was decoded gives back every byte string.
  lemma {:induction false} LeBytesOfFromLe(s: seq<Byte>)
    ensures LeBytes(FromLe(s), |s|) == s
  {
    if s != [] {
      var x := FromLe(s);
      assert x % 256 == s[0] as nat && x / 256 == FromLe(s[1..]);
      LeBytesOfFromLe(s[1..]);
    }
  }

  lemma {:induction false} LeBytesOfZero(n: nat)
    ensures LeBytes(0, n) == Zeros(n)
  {
    if n > 0 {
      LeBytesOfZero(n - 1);
    }
  }

  // ---------------------------------------------------------------------
  // Big-endian encoding (the counter block of `Ctr128BE`)
  // ---------------------------------------------------------------------

  /// The low n bytes of x, most significant first.
  function BeBytes(x: nat, n: nat): (r: seq<Byte>)
    ensures |r| == n
  {
    if n == 0 then [] else BeBytes(x / 256, n - 1) + [(x % 256) as Byte]
  }

  /// The unsigned integer a big-endian byte string denotes.
  function FromBe(s: seq<Byte>): nat
  {
    if s == [] then 0 else 256 * FromBe(s[..|s| - 1]) + s[|s| - 1] as nat
  }

  lemma {:induction false} FromBeBound(s: seq<Byte>)
    ensures FromBe(s) < Pow256(|s|)
  {
    if s != [] {
      FromBeBound(s[..|s| - 1]);
    }
  }

  lemma {:induction false} BeRoundTrip(x: nat, n: nat)
    requires x < Pow256(n)
    ensures FromBe(BeBytes(x, n)) == x
  {
    if n == 0 {
      assert BeBytes(x, n) == [];
    } else {
      ShiftDown(x, n);
      BeRoundTrip(x / 256, n - 1);
      BeRoundTripStep(x, n);
    }
  }

  lemma BeRoundTripStep(x: nat, n: nat)
    requires n > 0 && FromBe(BeBytes(x / 256, n - 1)) == x / 256
    ensures FromBe(BeBytes(x, n)) == x
  {
    BeBytesStep(x, n);
  }

  /// Dropping the low byte of a value below 256^n leaves one below 256^(n-1).
  lemma ShiftDown(x: nat, n: nat)
    requires n > 0 && x < Pow256(n)
    ensures x / 256 < Pow256(n - 1)
    ensures x == 256 * (x / 256) + x % 256
  {
  }

  lemma BeBytesStep(x: nat, n: nat)
    requires n > 0
    ensures FromBe(BeBytes(x, n)) == 256 * FromBe(BeBytes(x / 256, n - 1)) + x % 256
  {
    var s := BeBytes(x, n);
    assert s[..n - 1] == BeBytes(x / 256, n - 1);
  }

  lemma {:induction false} BeBytesOfFromBe(s: seq<Byte>)
    ensures BeBytes(FromBe(s), |s|) == s
  {
    if s != [] {
      var x := FromBe(s);
      var init := s[..|s| - 1];
      assert x % 256 == s[|s| - 1] as nat && x / 256 == FromBe(init);
      BeBytesOfFromBe(init);
      assert s == init + [s[|s| - 1]];
    }
  }

  /// Two values below 256^n have the same n-byte big-endian encoding only if equal.
  lemma BeBytesInjective(x: nat, y: nat, n: nat)
    requires x < Pow256(n) && y < Pow256(n)
    requires BeBytes(x, n) == BeBytes(y, n)
    ensures x == y
  {
    BeRoundTrip(x, n);
    BeRoundTrip(y, n);
  }

  /// Leading zero bytes do not change a big-endian value.
  lemma {:induction false} FromBeLeadingZeros(k: nat, s: seq<Byte>)
    ensures FromBe(Zeros(k) + s) == FromBe(s)
    decreases |s|
  {
    if s == [] {
      assert Zeros(k) + s == Zeros(k);
      FromBeOfZeros(k);
    } else {
      var t := Zeros(k) + s;
      assert t[..|t| - 1] == Zeros(k) + s[..|s| - 1];
      FromBeLeadingZeros(k, s[..|s| - 1]);
    }
  }

  lemma {:induction false} FromBeOfZeros(k: nat)
    ensures FromBe(Zeros(k)) == 0
  {
    if k > 0 {
      assert Zeros(k)[..k - 1] == Zeros(k - 1);
      FromBeOfZeros(k - 1);
    }
  }

  /// Each trailing zero byte multiplies a big-endian value by 256.
  lemma {:induction false} FromBeTrailingZeros(s: seq<Byte>, k: nat)
    ensures FromBe(s + Zeros(k)) == FromBe(s) * Pow256(k)
  {
    if k == 0 {
      assert s + Zeros(0) == s;
    } else {
      FromBeAppendZero(s + Zeros(k - 1));
      assert s + Zeros(k) == s + Zeros(k - 1) + [0];
      FromBeTrailingZeros(s, k - 1);
      MulShift(FromBe(s), Pow256(k - 1));
    }
  }

  /// One trailing zero byte multiplies a big-endian value by 256.
  lemma FromBeAppendZero(s: seq<Byte>)
    ensures FromBe(s + [0]) == 256 * FromBe(s)
  {
    assert (s + [0])[..|s|] == s;
  }

  /// Kept apart from FromBeTrailingZeros, whose context makes this product
  /// regrouping costly for the solver.
  lemma MulShift(v: nat, q: nat)
    ensures 256 * (v * q) == v * (256 * q)
  {
  }

  // ---------------------------------------------------------------------
  // Keystream application
  // ---------------------------------------------------------------------

  /// s with ks XORed into the span s[lo .. lo + |ks|]: the effect of
  /// `apply_keystream` on that sub-slice. No byte outside the span changes.
  function XorAt(s: seq<Byte>, lo: nat, ks: seq<Byte>): (r: seq<Byte>)
    requires lo + |ks| <= |s|
    ensures |r| == |s|
    ensures forall p :: 0 <= p < |s| && !(lo <= p < lo + |ks|) ==> r[p] == s[p]
    ensures forall q :: 0 <= q < |ks| ==> r[lo + q] == Xor(s[lo + q], ks[q])
  {
    seq(|s|, p requires 0 <= p < |s| => if lo <= p < lo + |ks| then Xor(s[p], ks[p - lo]) else s[p])
  }

  /// XORing a and then b right after it is XORing a + b.
  lemma XorAtAdjacent(s: seq<Byte>, lo: nat, a: seq<Byte>, b: seq<Byte>)
    requires lo + |a| + |b| <= |s|
    ensures XorAt(XorAt(s, lo, a), lo + |a|, b) == XorAt(s, lo, a + b)
  {
    var left := XorAt(XorAt(s, lo, a), lo + |a|, b);
    var right := XorAt(s, lo, a + b);
    forall p | 0 <= p < |s|
      ensures left[p] == right[p]
    {
      if lo <= p < lo + |a| {
        assert right[p] == right[lo + (p - lo)];
      } else if lo + |a| <= p < lo + |a| + |b| {
        assert left[p] == left[lo + |a| + (p - lo - |a|)];
        assert right[p] == right[lo + (p - lo)];
      }
    }
  }

  /// XorAtAdjacent, with the joined keystream and the offset of b given by
  /// name: callers that compute the offset differently (lo + 16 * j) then
  /// match this ensures term for term, which keeps their proofs cheap.
  lemma XorAtJoin(s: seq<Byte>, lo: nat, a: seq<Byte>, mid: nat, b: seq<Byte>, ab: seq<Byte>)
    requires lo + |ab| <= |s| && ab == a + b && mid == lo + |a|
    ensures XorAt(XorAt(s, lo, a), mid, b) == XorAt(s, lo, ab)
  {
    XorAtAdjacent(s, lo, a, b);
  }

  /// Applying a keystream to an all-zero buffer yields the keystream itself.
  lemma XorAtZeros(ks: seq<Byte>)
    ensures XorAt(Zeros(|ks|), 0, ks) == ks
  {
    var r := XorAt(Zeros(|ks|), 0, ks);
    forall q | 0 <= q < |ks|
      ensures r[q] == ks[q]
    {
      assert r[0 + q] == Xor(0, ks[q]);
      XorZeroLeft(ks[q]);
    }
  }

  /// A span whose bytes are those of b is b.
  lemma SliceIs(a: seq<Byte>, lo: nat, b: seq<Byte>)
    requires lo + |b| <= |a|
    requires forall i :: 0 <= i < |b| ==> a[lo + i] == b[i]
    ensures a[lo .. lo + |b|] == b
  {
  }

  lemma MulMono(a: nat, b: nat, w: nat)
    requires a <= b
    ensures a * w <= b * w
  {
  }

  /// The remainder is the unique m in [0, d) with x == q * d + m.
  lemma ModUnique(x: nat, d: nat, q: nat, m: nat)
    requires 0 <= m < d && x == q * d + m
    ensures x % d == m && x / d == q
  {
    var q', m' := x / d, x % d;
    assert x == q' * d + m';
    if q' < q {
      MulMono(q' + 1, q, d);
    } else if q < q' {
      MulMono(q + 1, q', d);
    }
  }

  /// Stepping the residue r of s + j and reducing again gives the residue of s + (j + 1).
  lemma ModStep(s: nat, j: nat, r: nat, d: nat)
    requires d > 0 && r == (s + j) % d
    ensures (r + 1) % d == (s + (j + 1)) % d
  {
    var x := s + j;
    var q, m := x / d, x % d;
    if m + 1 < d {
      ModUnique(x + 1, d, q, m + 1);
      ModUnique(m + 1, d, 0, m + 1);
    } else {
      ModUnique(x + 1, d, q + 1, 0);
      ModUnique(m + 1, d, 1, 0);
    }
  }
}
