/** `xor_delta` (protocol.rs): XOR two buffers eight bytes at a time, then the tail byte by byte.
    The specification is bytewise `Xor`; the 64-bit words are read and written in the machine's own
    byte order, and the result does not depend on which order that is. */
module XorDelta {
  import opened Bytes

  const WORD: nat := 8

  function Reverse(s: seq<byte>): (r: seq<byte>)
    ensures |r| == |s|
  {
    seq(|s|, k requires 0 <= k < |s| => s[|s| - 1 - k])
  }

  /** The word whose bytes are `s`, the first one least significant. */
  function Join(s: seq<byte>): (w: bits)
    ensures |w| == 8 * |s|
  {
    if s == [] then [] else ByteBits(s[0]) + Join(s[1..])
  }

  function Split(w: bits): (s: seq<byte>)
    requires |w| % 8 == 0
    ensures |s| == |w| / 8
  {
    if w == [] then [] else [ByteOfBits(w[..8])] + Split(w[8..])
  }

  /** `u64::from_ne_bytes` on a machine of the given byte order: the 64 digits of the word. */
  function FromNative(little: bool, s: seq<byte>): (w: bits)
    requires |s| == WORD
    ensures |w| == 64
  {
    Join(if little then s else Reverse(s))
  }

  /** `u64::to_ne_bytes` on a machine of the given byte order. */
  function ToNative(little: bool, w: bits): (s: seq<byte>)
    requires |w| == 64
    ensures |s| == WORD
  {
    if little then Split(w) else Reverse(Split(w))
  }

  lemma {:induction false} SplitXor(a: seq<byte>, b: seq<byte>)
    requires |a| == |b|
    ensures Split(XorBits(Join(a), Join(b))) == Xor(a, b)
  {
    if a != [] {
      SplitXor(a[1..], b[1..]);
      var w := XorBits(Join(a), Join(b));
      assert w[..8] == XorBits(ByteBits(a[0]), ByteBits(b[0]));
      assert w[8..] == XorBits(Join(a[1..]), Join(b[1..]));
      assert Xor(a, b) == [XorByte(a[0], b[0])] + Xor(a[1..], b[1..]);
    }
  }

  /** XOR-ing two eight-byte groups as machine words is XOR-ing them bytewise, in either byte order. */
  lemma WordXorIsBytewise(little: bool, a: seq<byte>, b: seq<byte>)
    requires |a| == |b| == WORD
    ensures ToNative(little, XorBits(FromNative(little, a), FromNative(little, b))) == Xor(a, b)
  {
    SplitXor(a, b);
    SplitXor(Reverse(a), Reverse(b));
    assert Reverse(Xor(Reverse(a), Reverse(b))) == Xor(a, b);
  }

  lemma XorSlice(a: seq<byte>, b: seq<byte>, lo: nat, hi: nat)
    requires lo <= hi <= |a| == |b|
    ensures Xor(a[lo..hi], b[lo..hi]) == Xor(a, b)[lo..hi]
  {
  }

  /** One step of the word loop. */
  method XorWord(little: bool, a: seq<byte>, b: seq<byte>) returns (w: seq<byte>)
    requires |a| == |b| == WORD
    ensures w == Xor(a, b)
  {
    var c := FromNative(little, a);
    var p := FromNative(little, b);
    w := ToNative(little, XorBits(c, p));
    WordXorIsBytewise(little, a, b);
  }

  /** `xor_delta(current, previous, &mut output[..n])` with `n` the common length. */
  method XorInto(little: bool, current: seq<byte>, previous: seq<byte>, output: array<byte>)
    requires |current| == |previous| <= output.Length
    modifies output
    ensures output[..|current|] == Xor(current, previous)
    ensures output[|current|..] == old(output[|current|..])
  {
    var len := |current|;
    var chunks := len / WORD;
    ghost var x := Xor(current, previous);
    for i := 0 to chunks
      invariant forall k | 0 <= k < i * WORD :: output[k] == x[k]
      invariant forall k | len <= k < output.Length :: output[k] == old(output[k])
    {
      var lo := i * WORD;
      var w := XorWord(little, current[lo..lo + WORD], previous[lo..lo + WORD]);
      XorSlice(current, previous, lo, lo + WORD);
      forall k | 0 <= k < WORD {
        output[lo + k] := w[k];
      }
      forall k | lo <= k < lo + WORD ensures output[k] == x[k] {
        assert output[lo + (k - lo)] == w[k - lo] == x[lo..lo + WORD][k - lo];
      }
    }
    for k := chunks * WORD to len
      invariant forall j | 0 <= j < k :: output[j] == x[j]
      invariant forall j | len <= j < output.Length :: output[j] == old(output[j])
    {
      output[k] := XorByte(current[k], previous[k]);
    }
  }
}
