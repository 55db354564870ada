/** The 24-byte header in front of every datagram (protocol.rs). */
module Wire {
  import opened Bytes

  const MAX_DATAGRAM_SIZE: nat := 9000
  const HEADER_SIZE: nat := 24
  const MAX_PAYLOAD_PER_DATAGRAM: nat := MAX_DATAGRAM_SIZE - HEADER_SIZE
  const MAX_FRAGMENTS: nat := 256
  const DELTA_BIT: nat := 0x8000_0000

  datatype Header = Header(
    sourceUs: u64,
    sequence: u32,
    payloadSize: u32,
    bufOffset: u32,
    fragment: u16,
    fragments: u16)

  function Encode(h: Header): (r: seq<byte>)
    ensures |r| == HEADER_SIZE
  {
    U64Bytes(h.sourceUs) + U32Bytes(h.sequence) + U32Bytes(h.payloadSize) + U32Bytes(h.bufOffset)
    + U16Bytes(h.fragment) + U16Bytes(h.fragments)
  }

  function Decode(d: seq<byte>): (h: Header)
    requires |d| >= HEADER_SIZE
  {
    Header(U64Of(d[..8]), U32Of(d[8..12]), U32Of(d[12..16]), U32Of(d[16..20]),
           U16Of(d[20..22]), U16Of(d[22..24]))
  }

  /** What a sender writes in front of a chunk, a receiver reads back, chunk included. */
  lemma DecodeEncode(h: Header, chunk: seq<byte>)
    ensures Decode(Encode(h) + chunk) == h
    ensures (Encode(h) + chunk)[HEADER_SIZE..] == chunk
  {
    var d := Encode(h) + chunk;
    assert d[..8] == U64Bytes(h.sourceUs);
    assert d[8..12] == U32Bytes(h.sequence);
    assert d[12..16] == U32Bytes(h.payloadSize);
    assert d[16..20] == U32Bytes(h.bufOffset);
    assert d[20..22] == U16Bytes(h.fragment);
    assert d[22..24] == U16Bytes(h.fragments);
  }

  /** The header is `repr(packed)` with no padding: every 24-byte prefix is the layout of one header. */
  lemma EncodeDecode(d: seq<byte>)
    requires |d| >= HEADER_SIZE
    ensures Encode(Decode(d)) == d[..HEADER_SIZE]
  {
    UnsignedInverse(d[..8]);
    UnsignedInverse(d[8..12]);
    UnsignedInverse(d[12..16]);
    UnsignedInverse(d[16..20]);
    UnsignedInverse(d[20..22]);
    UnsignedInverse(d[22..24]);
    assert d[..8] + d[8..12] == d[..12];
    assert d[..12] + d[12..16] == d[..16];
    assert d[..16] + d[16..20] == d[..20];
    assert d[..20] + d[20..22] == d[..22];
    assert d[..22] + d[22..24] == d[..24];
  }

  /** Where the fields are: source time, sequence, payload size, write offset, fragment index and count, each
      little-endian, in 24 bytes. */
  lemma HeaderLayout(h: Header)
    ensures |Encode(h)| == 24
    ensures U64Of(Encode(h)[0..8]) == h.sourceUs && U32Of(Encode(h)[8..12]) == h.sequence
    ensures U32Of(Encode(h)[12..16]) == h.payloadSize && U32Of(Encode(h)[16..20]) == h.bufOffset
    ensures U16Of(Encode(h)[20..22]) == h.fragment && U16Of(Encode(h)[22..24]) == h.fragments
  {
    var d := Encode(h);
    assert d[0..8] == U64Bytes(h.sourceUs);
    assert d[8..12] == U32Bytes(h.sequence);
    assert d[12..16] == U32Bytes(h.payloadSize);
    assert d[16..20] == U32Bytes(h.bufOffset);
    assert d[20..22] == U16Bytes(h.fragment);
    assert d[22..24] == U16Bytes(h.fragments);
  }

  /** A datagram as the receiver sees it: too short for a header, or a header and what follows it. */
  datatype Packet = Runt | Packet(header: Header, payload: seq<byte>)

  function Parse(d: seq<byte>): Packet {
    if |d| < HEADER_SIZE then Runt else Packet(Decode(d), d[HEADER_SIZE..])
  }

  lemma ParseEncoded(h: Header, chunk: seq<byte>)
    ensures Parse(Encode(h) + chunk) == Packet(h, chunk)
  {
    DecodeEncode(h, chunk);
  }

  // `buf_offset` carries the delta flag in its top bit.

  function WithDeltaBit(off: u32): u32 {
    if off < DELTA_BIT then off + DELTA_BIT else off
  }

  predicate HasDeltaBit(off: u32) {
    off >= DELTA_BIT
  }

  function WithoutDeltaBit(off: u32): u32 {
    off % DELTA_BIT
  }

  /** Below 2^31 - 1 the flag and the offset do not disturb each other, and neither makes a session-info frame. */
  lemma DeltaBitInverse(off: u32)
    requires off < DELTA_BIT - 1
    ensures HasDeltaBit(WithDeltaBit(off)) && WithoutDeltaBit(WithDeltaBit(off)) == off && WithDeltaBit(off) != U32_MAX
    ensures !HasDeltaBit(off) && WithoutDeltaBit(off) == off && off != U32_MAX
  {
  }

  /** The flag is the top bit of 32. */
  lemma DeltaBitIsTop(off: u32)
    ensures HasDeltaBit(off) <==> off >= 0x8000_0000
    ensures WithDeltaBit(off) == (if off >= 0x8000_0000 then off else off + 0x8000_0000)
    ensures WithoutDeltaBit(off) == (if off >= 0x8000_0000 then off - 0x8000_0000 else off)
  {
  }

  // ---------- counting in pieces of `p` bytes ----------

  /** `i * p`: where piece `i` starts. Written as repeated addition; `OffsetIsProduct` is the link. */
  function Offset(i: nat, p: nat): nat {
    if i == 0 then 0 else Offset(i - 1, p) + p
  }

  lemma {:induction false} OffsetIsProduct(i: nat, p: nat)
    ensures Offset(i, p) == i * p
  {
    if i != 0 {
      OffsetIsProduct(i - 1, p);
    }
  }

  lemma {:induction false} OffsetMonotone(i: nat, j: nat, p: nat)
    requires i <= j
    ensures Offset(i, p) <= Offset(j, p)
    ensures i < j ==> Offset(i, p) + p <= Offset(j, p)
  {
    if i < j {
      OffsetMonotone(i, j - 1, p);
    }
  }

  /** `total.div_ceil(p)`: how many pieces of at most `p` bytes `total` bytes make. */
  function PieceCount(total: nat, p: nat): nat
    requires p > 0
  {
    if total == 0 then 0 else 1 + PieceCount(if total <= p then 0 else total - p, p)
  }

  /** The last piece is never empty and the pieces cover everything. */
  lemma {:induction false} PieceBounds(total: nat, p: nat)
    requires p > 0 && total > 0
    ensures PieceCount(total, p) > 0
    ensures Offset(PieceCount(total, p) - 1, p) < total <= Offset(PieceCount(total, p), p)
    decreases total
  {
    if total > p {
      PieceBounds(total - p, p);
    }
  }

  lemma PieceCountIsDivCeil(total: nat, p: nat)
    requires p > 0
    ensures PieceCount(total, p) == (total + p - 1) / p
  {
    var n := PieceCount(total, p);
    if total == 0 {
      QuotientUnique(p - 1, p, 0);
    } else {
      PieceBounds(total, p);
      OffsetIsProduct(n, p);
      OffsetIsProduct(n - 1, p);
      QuotientUnique(total + p - 1, p, n);
    }
  }

  lemma QuotientUnique(x: nat, p: nat, q: nat)
    requires p > 0 && q * p <= x < q * p + p
    ensures x / p == q
  {
    MulStrict(x / p, q, p);
    MulStrict(q, x / p, p);
  }

  lemma MulStrict(a: nat, b: nat, p: nat)
    ensures a < b ==> a * p + p <= b * p
  {
    if a < b {
      OffsetIsProduct(a, p);
      OffsetIsProduct(b, p);
      OffsetMonotone(a, b, p);
    }
  }
}
