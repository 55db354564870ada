/** Bytes, fixed-width integers in little-endian layout, and the two bulk operations the pipeline
    performs on byte buffers: copying a slice into place and XOR-ing two buffers. */
module Bytes {
  newtype byte = x: int | 0 <= x < 0x100

  type u16 = x: nat | x < 0x1_0000
  type u32 = x: nat | x < 0x1_0000_0000
  type u64 = x: nat | x < 0x1_0000_0000_0000_0000
  type i32 = x: int | -0x8000_0000 <= x < 0x8000_0000

  const U32_MAX: u32 := 0xFFFF_FFFF
  const I32_MIN: i32 := -0x8000_0000

  function Min(a: int, b: int): int {
    if a <= b then a else b
  }

  function Zeros(n: nat): seq<byte> {
    seq(n, _ => 0)
  }

  // ---------- bulk operations ----------

  /** `s` with `d` written over the bytes from `off` on. */
  function Splice(s: seq<byte>, off: nat, d: seq<byte>): (r: seq<byte>)
    requires off + |d| <= |s|
    ensures |r| == |s|
    ensures forall k | 0 <= k < |s| :: r[k] == if off <= k < off + |d| then d[k - off] else s[k]
  {
    s[..off] + d + s[off + |d|..]
  }

  lemma SpliceHolds(s: seq<byte>, off: nat, d: seq<byte>)
    requires off + |d| <= |s|
    ensures Splice(s, off, d)[off..off + |d|] == d
  {
  }

  lemma SpliceKeeps(s: seq<byte>, off: nat, d: seq<byte>, lo: nat, hi: nat)
    requires off + |d| <= |s| && lo <= hi <= |s| && (hi <= off || off + |d| <= lo)
    ensures Splice(s, off, d)[lo..hi] == s[lo..hi]
  {
  }

  lemma SpliceMiddle(a: seq<byte>, was: seq<byte>, d: seq<byte>, b: seq<byte>)
    requires |was| == |d|
    ensures Splice(a + (was + b), |a|, d) == a + (d + b)
  {
  }

  // ---------- XOR ----------

  type bits = seq<bool>

  predicate BitAt(n: nat, k: nat)
    decreases k
  {
    if k == 0 then n % 2 == 1 else BitAt(n / 2, k - 1)
  }

  /** The `k` low binary digits of `n`, the least significant one first. */
  function ToBits(n: nat, k: nat): (r: bits)
    ensures |r| == k
  {
    seq(k, j requires 0 <= j < k => BitAt(n, j))
  }

  function OfBits(b: bits): nat {
    if b == [] then 0 else (if b[0] then 1 else 0) + 2 * OfBits(b[1..])
  }

  function Pow2(k: nat): (r: nat)
    ensures r > 0
  {
    if k == 0 then 1 else 2 * Pow2(k - 1)
  }

  lemma {:induction false} OfToBits(n: nat, k: nat)
    requires n < Pow2(k)
    ensures OfBits(ToBits(n, k)) == n
  {
    if k != 0 {
      OfToBits(n / 2, k - 1);
      assert ToBits(n, k)[1..] == ToBits(n / 2, k - 1);
    }
  }

  lemma {:induction false} ToOfBits(b: bits)
    ensures OfBits(b) < Pow2(|b|)
    ensures ToBits(OfBits(b), |b|) == b
  {
    if b != [] {
      ToOfBits(b[1..]);
      assert ToBits(OfBits(b), |b|) == [b[0]] + ToBits(OfBits(b[1..]), |b| - 1);
    }
  }

  lemma ByteIsEightBits()
    ensures Pow2(8) == 0x100
  {
    assert Pow2(4) == 16;
    assert Pow2(6) == 4 * Pow2(4);
  }

  function ByteBits(b: byte): (r: bits)
    ensures |r| == 8
  {
    ToBits(b as nat, 8)
  }

  function ByteOfBits(r: bits): byte
    requires |r| == 8
  {
    ToOfBits(r);
    ByteIsEightBits();
    OfBits(r) as byte
  }

  lemma ByteBitsInverse(b: byte)
    ensures ByteOfBits(ByteBits(b)) == b
  {
    ByteIsEightBits();
    OfToBits(b as nat, 8);
  }

  lemma BitsByteInverse(r: bits)
    requires |r| == 8
    ensures ByteBits(ByteOfBits(r)) == r
  {
    ToOfBits(r);
  }

  /** The exclusive or of two machine words, digit by digit. */
  function XorBits(a: bits, b: bits): (r: bits)
    requires |a| == |b|
    ensures |r| == |a|
  {
    seq(|a|, k requires 0 <= k < |a| => a[k] != b[k])
  }

  function XorByte(a: byte, b: byte): byte {
    ByteOfBits(XorBits(ByteBits(a), ByteBits(b)))
  }

  lemma XorByteBits(a: byte, b: byte)
    ensures ByteBits(XorByte(a, b)) == XorBits(ByteBits(a), ByteBits(b))
  {
    BitsByteInverse(XorBits(ByteBits(a), ByteBits(b)));
  }

  // XOR on bytes is a commutative group in which every element is its own inverse.

  lemma XorByteCancel(a: byte, b: byte)
    ensures XorByte(XorByte(a, b), b) == a
  {
    XorByteBits(a, b);
    ByteBitsInverse(a);
    assert XorBits(XorBits(ByteBits(a), ByteBits(b)), ByteBits(b)) == ByteBits(a);
  }

  lemma XorByteCommutes(a: byte, b: byte)
    ensures XorByte(a, b) == XorByte(b, a)
  {
    assert XorBits(ByteBits(a), ByteBits(b)) == XorBits(ByteBits(b), ByteBits(a));
  }

  lemma XorByteAssociates(a: byte, b: byte, c: byte)
    ensures XorByte(XorByte(a, b), c) == XorByte(a, XorByte(b, c))
  {
    XorByteBits(a, b);
    XorByteBits(b, c);
    var x, y, z := ByteBits(a), ByteBits(b), ByteBits(c);
    assert XorBits(XorBits(x, y), z) == XorBits(x, XorBits(y, z));
  }

  lemma XorByteUnit(a: byte)
    ensures XorByte(a, 0) == a && XorByte(a, a) == 0
  {
    forall k: nat | k < 8 ensures !BitAt(0, k) {
      ZeroBits(k);
    }
    ByteBitsInverse(a);
    ByteBitsInverse(0);
    assert XorBits(ByteBits(a), ByteBits(0)) == ByteBits(a);
    assert XorBits(ByteBits(a), ByteBits(a)) == ByteBits(0);
  }

  lemma {:induction false} ZeroBits(k: nat)
    ensures !BitAt(0, k)
  {
    if k != 0 {
      ZeroBits(k - 1);
    }
  }

  /** Bytewise XOR of two buffers of the same length. */
  function Xor(a: seq<byte>, b: seq<byte>): (r: seq<byte>)
    requires |a| == |b|
    ensures |r| == |a|
  {
    seq(|a|, k requires 0 <= k < |a| => XorByte(a[k], b[k]))
  }

  lemma XorCancel(a: seq<byte>, b: seq<byte>)
    requires |a| == |b|
    ensures Xor(Xor(a, b), b) == a
  {
    forall k | 0 <= k < |a| ensures Xor(Xor(a, b), b)[k] == a[k] {
      XorByteCancel(a[k], b[k]);
    }
  }

  lemma XorCommutes(a: seq<byte>, b: seq<byte>)
    requires |a| == |b|
    ensures Xor(a, b) == Xor(b, a)
  {
    forall k | 0 <= k < |a| ensures Xor(a, b)[k] == Xor(b, a)[k] {
      XorByteCommutes(a[k], b[k]);
    }
  }

  lemma XorAssociates(a: seq<byte>, b: seq<byte>, c: seq<byte>)
    requires |a| == |b| == |c|
    ensures Xor(Xor(a, b), c) == Xor(a, Xor(b, c))
  {
    forall k | 0 <= k < |a| ensures Xor(Xor(a, b), c)[k] == Xor(a, Xor(b, c))[k] {
      XorByteAssociates(a[k], b[k], c[k]);
    }
  }

  lemma XorZero(a: seq<byte>)
    ensures Xor(a, Zeros(|a|)) == a && Xor(a, a) == Zeros(|a|)
  {
    forall k | 0 <= k < |a|
      ensures Xor(a, Zeros(|a|))[k] == a[k] && Xor(a, a)[k] == 0
    {
      XorByteUnit(a[k]);
    }
  }

  // ---------- little-endian integers ----------

  function ByteOf(n: nat): byte
    requires n < 0x100
  {
    n as byte
  }

  function Pow256(n: nat): (r: nat)
    ensures r > 0
  {
    if n == 0 then 1 else 0x100 * Pow256(n - 1)
  }

  lemma Pow256Values()
    ensures Pow256(2) == 0x1_0000 && Pow256(4) == 0x1_0000_0000 && Pow256(8) == 0x1_0000_0000_0000_0000
  {
    assert Pow256(6) == 0x1_0000 * Pow256(4);
  }

  /** The number whose little-endian bytes are `s`. */
  function LeNat(s: seq<byte>): nat {
    if s == [] then 0 else s[0] as nat + 0x100 * LeNat(s[1..])
  }

  lemma {:induction false} LeNatBound(s: seq<byte>)
    ensures LeNat(s) < Pow256(|s|)
  {
    if s != [] {
      LeNatBound(s[1..]);
    }
  }

  function LeByte(v: nat, k: nat): byte
    decreases k
  {
    if k == 0 then ByteOf(v % 0x100) else LeByte(v / 0x100, k - 1)
  }

  /** The `n` little-endian bytes of `v`. */
  function LeBytes(v: nat, n: nat): (s: seq<byte>)
    ensures |s| == n
  {
    seq(n, k requires 0 <= k < n => LeByte(v, k))
  }

  lemma {:induction false} LeInverse(v: nat, n: nat)
    requires v < Pow256(n)
    ensures LeNat(LeBytes(v, n)) == v
  {
    if n != 0 {
      LeInverse(v / 0x100, n - 1);
      assert LeBytes(v, n)[1..] == LeBytes(v / 0x100, n - 1);
    }
  }

  lemma {:induction false} LeBytesOfLeNat(s: seq<byte>)
    ensures LeBytes(LeNat(s), |s|) == s
  {
    if s != [] {
      LeBytesOfLeNat(s[1..]);
      assert LeBytes(LeNat(s), |s|) == [s[0]] + LeBytes(LeNat(s[1..]), |s| - 1);
    }
  }

  lemma {:induction false} ZeroByte(v: nat, k: nat)
    requires v == 0
    ensures LeByte(v, k) == 0
  {
    if k > 0 {
      ZeroByte(v / 0x100, k - 1);
    }
  }

  lemma ZeroBytes(n: nat)
    ensures forall k | 0 <= k < n :: LeBytes(0, n)[k] == 0
  {
    forall k | 0 <= k < n ensures LeBytes(0, n)[k] == 0 {
      ZeroByte(0, k);
    }
  }

  function U16Of(s: seq<byte>): u16
    requires |s| == 2
  {
    Pow256Values();
    LeNatBound(s);
    LeNat(s)
  }

  function U16Bytes(v: u16): (s: seq<byte>)
    ensures |s| == 2 && U16Of(s) == v
  {
    Pow256Values();
    LeInverse(v, 2);
    LeBytes(v, 2)
  }

  function U32Of(s: seq<byte>): u32
    requires |s| == 4
  {
    Pow256Values();
    LeNatBound(s);
    LeNat(s)
  }

  function U32Bytes(v: u32): (s: seq<byte>)
    ensures |s| == 4 && U32Of(s) == v
  {
    Pow256Values();
    LeInverse(v, 4);
    LeBytes(v, 4)
  }

  function U64Of(s: seq<byte>): u64
    requires |s| == 8
  {
    Pow256Values();
    LeNatBound(s);
    LeNat(s)
  }

  function U64Bytes(v: u64): (s: seq<byte>)
    ensures |s| == 8 && U64Of(s) == v
  {
    Pow256Values();
    LeInverse(v, 8);
    LeBytes(v, 8)
  }

  lemma UnsignedInverse(s: seq<byte>)
    ensures |s| == 2 ==> U16Bytes(U16Of(s)) == s
    ensures |s| == 4 ==> U32Bytes(U32Of(s)) == s
    ensures |s| == 8 ==> U64Bytes(U64Of(s)) == s
  {
    LeBytesOfLeNat(s);
  }

  /** Two's complement reading of a 32-bit word. */
  function I32Of(s: seq<byte>): (r: i32)
    requires |s| == 4
  {
    var u := U32Of(s);
    if u < 0x8000_0000 then u else u - 0x1_0000_0000
  }

  function I32Bytes(v: i32): (s: seq<byte>)
    ensures |s| == 4 && I32Of(s) == v
  {
    U32Bytes(if v < 0 then v + 0x1_0000_0000 else v)
  }

  function I32At(b: seq<byte>, off: nat): (r: i32)
    requires off + 4 <= |b|
  {
    I32Of(b[off..off + 4])
  }

  /** Little-endian: the byte at the lowest address counts least. */
  lemma LittleEndian(s: seq<byte>)
    ensures |s| == 2 ==> U16Of(s) == s[0] as nat + 0x100 * s[1] as nat
    ensures |s| == 4 ==>
              U32Of(s) == s[0] as nat + 0x100 * s[1] as nat + 0x1_0000 * s[2] as nat + 0x100_0000 * s[3] as nat
    ensures |s| == 8 ==> U64Of(s) == U32Of(s[..4]) + 0x1_0000_0000 * U32Of(s[4..])
  {
    if |s| == 2 {
      LowestFirst(s);
      LowestFirst(s[1..]);
    }
    if |s| == 4 {
      WordIs(s);
    }
    if |s| == 8 {
      LongIs(s);
    }
  }

  lemma LowestFirst(s: seq<byte>)
    requires s != []
    ensures LeNat(s) == s[0] as nat + 0x100 * LeNat(s[1..])
    ensures |s| == 1 ==> LeNat(s[1..]) == 0
  {
  }

  lemma WordIs(s: seq<byte>)
    requires |s| == 4
    ensures U32Of(s) == s[0] as nat + 0x100 * s[1] as nat + 0x1_0000 * s[2] as nat + 0x100_0000 * s[3] as nat
  {
    LowestFirst(s);
    LowestFirst(s[1..]);
    LowestFirst(s[1..][1..]);
    LowestFirst(s[1..][1..][1..]);
  }

  /** The number of two pieces, the first one less significant. */
  lemma {:induction false} LeNatSplits(s: seq<byte>, k: nat)
    requires k <= |s|
    ensures LeNat(s) == LeNat(s[..k]) + Pow256(k) * LeNat(s[k..])
  {
    if k == 0 {
      assert s[..k] == [] && s[k..] == s;
    } else {
      LeNatSplits(s[1..], k - 1);
      assert s[1..][..k - 1] == s[..k][1..] && s[1..][k - 1..] == s[k..];
      Redistribute(LeNat(s[1..][..k - 1]), Pow256(k - 1), LeNat(s[k..]));
    }
  }

  lemma Redistribute(lo: nat, p: nat, hi: nat)
    ensures 0x100 * (lo + p * hi) == 0x100 * lo + (0x100 * p) * hi
  {
  }

  lemma LongIs(s: seq<byte>)
    requires |s| == 8
    ensures U64Of(s) == U32Of(s[..4]) + 0x1_0000_0000 * U32Of(s[4..])
  {
    LeNatSplits(s, 4);
    Pow256Values();
  }

  /** An `i32` in memory: two's complement, little-endian. */
  lemma I32InMemory(b: seq<byte>, off: nat)
    requires off + 4 <= |b|
    ensures var u := b[off] as nat + 0x100 * b[off + 1] as nat + 0x1_0000 * b[off + 2] as nat
                     + 0x100_0000 * b[off + 3] as nat;
            I32At(b, off) == if u < 0x8000_0000 then u else u - 0x1_0000_0000
  {
    WordIs(b[off..off + 4]);
  }

  /** Rust's `v as usize` for an `i32`: negative values wrap to huge 64-bit ones. */
  function AsUsize(v: i32): (r: nat)
    ensures 0 <= v ==> r == v
    ensures v < 0 ==> r == 0x1_0000_0000_0000_0000 + v
  {
    if v < 0 then v + 0x1_0000_0000_0000_0000 else v
  }

  lemma SliceOfShifted(s: seq<byte>, base: nat, top: nat, lo: nat, hi: nat)
    requires base <= lo <= hi <= top <= |s|
    ensures s[base..top][lo - base..hi - base] == s[lo..hi]
  {
    var t := s[base..top];
    forall k | 0 <= k < hi - lo ensures t[lo - base..hi - base][k] == s[lo..hi][k] {
      assert t[lo - base + k] == s[lo + k];
    }
  }

  /** Sub-slices of equal slices are equal; the form in which header fields are transported. */
  lemma SliceOfSlice(a: seq<byte>, b: seq<byte>, lo: nat, hi: nat, n: nat)
    requires lo <= hi <= n <= |a| && n <= |b| && a[..n] == b[..n]
    ensures a[lo..hi] == b[lo..hi]
  {
    assert a[lo..hi] == a[..n][lo..hi];
    assert b[lo..hi] == b[..n][lo..hi];
  }
}
