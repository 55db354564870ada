/** `Sender` (protocol.rs): a message is cut into chunks of `p` payload bytes, each carried by one datagram. */
module Fragmentation {
  import opened Options
  import opened Bytes
  import opened Wire

  /** One full message together with the payload size per datagram it is cut with. */
  datatype Message = Message(sequence: u32, sourceUs: u64, bufOffset: u32, data: seq<byte>, p: nat)

  function NumFrags(m: Message): nat
    requires m.p > 0
  {
    PieceCount(|m.data|, m.p)
  }

  /** The messages `send` accepts. */
  predicate Sendable(m: Message) {
    m.p > 0 && 0 < NumFrags(m) <= 0xFFFF
  }

  lemma ChunkRange(m: Message, i: nat)
    requires m.p > 0 && i < NumFrags(m)
    ensures Offset(i, m.p) < |m.data|
    ensures i < NumFrags(m) - 1 ==> Offset(i + 1, m.p) < |m.data|
    ensures i == NumFrags(m) - 1 ==> |m.data| <= Offset(i + 1, m.p)
  {
    PieceBounds(|m.data|, m.p);
    OffsetMonotone(i, NumFrags(m) - 1, m.p);
    if i < NumFrags(m) - 1 {
      OffsetMonotone(i + 1, NumFrags(m) - 1, m.p);
    }
  }

  /** `data[offset..(offset + p).min(total)]` for fragment `i`. */
  function Chunk(m: Message, i: nat): (c: seq<byte>)
    requires m.p > 0 && i < NumFrags(m)
    ensures 0 < |c| <= m.p
    ensures Offset(i, m.p) + |c| <= |m.data|
    ensures i < NumFrags(m) - 1 ==> |c| == m.p
    ensures i == NumFrags(m) - 1 ==> Offset(i, m.p) + |c| == |m.data|
  {
    ChunkRange(m, i);
    m.data[Offset(i, m.p)..Min(Offset(i, m.p) + m.p, |m.data|)]
  }

  function HeaderOf(m: Message, i: nat): Header
    requires m.p > 0
  {
    Header(m.sourceUs, m.sequence, |m.data| % 0x1_0000_0000, m.bufOffset, i % 0x1_0000, NumFrags(m) % 0x1_0000)
  }

  function Datagram(m: Message, i: nat): seq<byte>
    requires m.p > 0 && i < NumFrags(m)
  {
    Encode(HeaderOf(m, i)) + Chunk(m, i)
  }

  function Datagrams(m: Message): (ds: seq<seq<byte>>)
    requires m.p > 0
    ensures |ds| == NumFrags(m)
  {
    seq(NumFrags(m), i requires 0 <= i < NumFrags(m) => Datagram(m, i))
  }

  lemma DatagramsGrow(m: Message, i: nat)
    requires m.p > 0 && i < NumFrags(m)
    ensures Datagrams(m)[..i + 1] == Datagrams(m)[..i] + [Datagram(m, i)]
  {
  }

  const HEARTBEAT := Header(0, 0, 0, 0, 0, 0)

  lemma HeartbeatIsZero()
    ensures |Encode(HEARTBEAT)| == 24 && forall k | 0 <= k < 24 :: Encode(HEARTBEAT)[k] == 0
  {
    ZeroBytes(2);
    ZeroBytes(4);
    ZeroBytes(8);
  }

  // ---------- what a message becomes on the wire ----------

  function Concat(parts: seq<seq<byte>>): seq<byte> {
    if parts == [] then [] else Concat(parts[..|parts| - 1]) + parts[|parts| - 1]
  }

  function Chunks(m: Message): (cs: seq<seq<byte>>)
    requires m.p > 0
    ensures |cs| == NumFrags(m)
  {
    seq(NumFrags(m), i requires 0 <= i < NumFrags(m) => Chunk(m, i))
  }

  lemma {:induction false} ChunksPrefix(m: Message, k: nat)
    requires m.p > 0 && k < NumFrags(m)
    ensures Offset(k, m.p) <= |m.data|
    ensures Concat(Chunks(m)[..k]) == m.data[..Offset(k, m.p)]
  {
    ChunkRange(m, k);
    if k != 0 {
      ChunksPrefix(m, k - 1);
      assert Chunks(m)[..k][..k - 1] == Chunks(m)[..k - 1];
      assert Chunks(m)[..k][k - 1] == Chunk(m, k - 1);
    }
  }

  lemma SizeBound(m: Message)
    requires Sendable(m) && m.p <= 65483
    ensures |m.data| <= U32_MAX
  {
    PieceBounds(|m.data|, m.p);
    OffsetMonotone(NumFrags(m), 0xFFFF, m.p);
    OffsetIsProduct(0xFFFF, m.p);
  }

  /** For every datagram size the source allows (64..65507, so `p` in 40..65483) and everything `send`
      accepts: the chunks concatenate to the data, all but the last hold exactly `p` bytes, none is
      empty, and no header field is truncated by its cast. */
  lemma FragmentArithmetic(m: Message)
    requires Sendable(m) && m.p <= 65483
    ensures Concat(Chunks(m)) == m.data
    ensures forall i | 0 <= i < NumFrags(m) ::
              0 < |Chunk(m, i)| <= m.p && (i < NumFrags(m) - 1 ==> |Chunk(m, i)| == m.p)
    ensures forall i | 0 <= i < NumFrags(m) ::
              var h := HeaderOf(m, i); h.payloadSize == |m.data| && h.fragment == i && h.fragments == NumFrags(m)
  {
    var n := NumFrags(m);
    ChunksPrefix(m, n - 1);
    assert m.data[..Offset(n - 1, m.p)] + Chunk(m, n - 1) == m.data;
    assert Chunks(m)[..n - 1] + [Chunk(m, n - 1)] == Chunks(m);
    SizeBound(m);
  }

  // ---------- the code ----------

  class Sender {
    var sequence: u32
    const buf: array<byte>
    const payloadPerDatagram: nat

    ghost predicate Valid()
      reads this
    {
      payloadPerDatagram > 0 && buf.Length == HEADER_SIZE + payloadPerDatagram
    }

    /** The message the next `Send` puts on the wire. */
    function Next(data: seq<byte>, sourceUs: u64, bufOffset: u32): Message
      reads this
    {
      Message(sequence, sourceUs, bufOffset, data, payloadPerDatagram)
    }

    constructor (datagramSize: nat)
      ensures Valid() && fresh(buf) && sequence == 0
      ensures payloadPerDatagram == if datagramSize <= HEADER_SIZE then 1 else datagramSize - HEADER_SIZE
    {
      var size := if datagramSize < HEADER_SIZE + 1 then HEADER_SIZE + 1 else datagramSize;
      sequence := 0;
      buf := new byte[size](_ => 0);
      payloadPerDatagram := size - HEADER_SIZE;
    }

    /** Put a header at the front of the send buffer and leave the rest of it alone. */
    method WriteHeader(hdr: Header)
      requires Valid()
      modifies buf
      ensures buf[..HEADER_SIZE] == Encode(hdr)
      ensures buf[HEADER_SIZE..] == old(buf[HEADER_SIZE..])
    {
      var hdrBytes := Encode(hdr);
      forall k | 0 <= k < HEADER_SIZE {
        buf[k] := hdrBytes[k];
      }
    }

    /** Lay out one datagram in `buf` and hand out the filled part. */
    method FillDatagram(hdr: Header, chunk: seq<byte>) returns (out: seq<byte>)
      requires Valid() && |chunk| <= payloadPerDatagram
      modifies buf
      ensures out == Encode(hdr) + chunk
    {
      WriteHeader(hdr);
      forall k | 0 <= k < |chunk| {
        buf[HEADER_SIZE + k] := chunk[k];
      }
      out := buf[..HEADER_SIZE + |chunk|];
      assert out[..HEADER_SIZE] == buf[..HEADER_SIZE];
    }

    /** `failAt` is the index of the first `send_fn` call that returns an error, if any does; `sent` are the
        datagrams handed to the network before that. Only a send that reaches its end bumps `sequence`. */
    method Send(data: seq<byte>, sourceUs: u64, bufOffset: u32, failAt: Option<nat>)
      returns (sent: seq<seq<byte>>, result: Option<u16>)
      requires Valid()
      modifies this, buf
      ensures Valid()
      ensures var m := old(Next(data, sourceUs, bufOffset));
              if !Sendable(m) then sent == [] && result == None && sequence == old(sequence)
              else if failAt.Some? && failAt.value < NumFrags(m) then
                sent == Datagrams(m)[..failAt.value] && result == None && sequence == old(sequence)
              else
                sent == Datagrams(m) && result == Some(NumFrags(m)) && sequence == (old(sequence) + 1) % 0x1_0000_0000
    {
      var total := |data|;
      var n := (total + payloadPerDatagram - 1) / payloadPerDatagram;
      PieceCountIsDivCeil(total, payloadPerDatagram);
      sent := [];
      if n == 0 || n > 0xFFFF {
        return [], None;
      }
      ghost var m := Next(data, sourceUs, bufOffset);
      for i := 0 to n
        invariant Valid() && sequence == old(sequence)
        invariant sent == Datagrams(m)[..i]
        invariant failAt.Some? && failAt.value < n ==> i <= failAt.value
      {
        var offset := i * payloadPerDatagram;
        OffsetIsProduct(i, payloadPerDatagram);
        ChunkRange(m, i);
        var chunk := data[offset..Min(offset + payloadPerDatagram, total)];
        assert chunk == Chunk(m, i);
        var hdr := Header(sourceUs, sequence, total % 0x1_0000_0000, bufOffset, i % 0x1_0000, n % 0x1_0000);
        var out := FillDatagram(hdr, chunk);
        assert out == Datagram(m, i);
        if failAt == Some(i) {
          return sent, None;
        }
        sent := sent + [out];
        DatagramsGrow(m, i);
      }
      assert Datagrams(m)[..n] == Datagrams(m);
      sequence := (sequence + 1) % 0x1_0000_0000;
      result := Some(n);
    }

    /** A header-only datagram with `fragments == 0`. */
    method SendHeartbeat() returns (sent: seq<byte>)
      requires Valid()
      modifies buf
      ensures sent == Encode(HEARTBEAT) && |sent| == 24 && forall k | 0 <= k < |sent| :: sent[k] == 0
    {
      HeartbeatIsZero();
      WriteHeader(HEARTBEAT);
      sent := buf[..HEADER_SIZE];
    }
  }

  // ---------- sequence numbers over a run of sends ----------

  /** One call of `Send`: how many datagrams left the machine and whether it reached its end. */
  datatype Attempt = Attempt(emitted: nat, ok: bool)

  function SequenceAt(start: u32, attempts: seq<Attempt>): u32
  {
    if attempts == [] then start
    else
      var s := SequenceAt(start, attempts[..|attempts| - 1]);
      if attempts[|attempts| - 1].ok then (s + 1) % 0x1_0000_0000 else s
  }

  function Successes(attempts: seq<Attempt>): (r: nat)
    ensures r <= |attempts|
  {
    if attempts == [] then 0
    else Successes(attempts[..|attempts| - 1]) + if attempts[|attempts| - 1].ok then 1 else 0
  }

  lemma ModuloSuccessor(x: nat)
    ensures (x % 0x1_0000_0000 + 1) % 0x1_0000_0000 == (x + 1) % 0x1_0000_0000
  {
  }

  lemma {:induction false} SequenceCountsSuccesses(start: u32, attempts: seq<Attempt>)
    ensures SequenceAt(start, attempts) == (start + Successes(attempts)) % 0x1_0000_0000
  {
    if attempts != [] {
      SequenceCountsSuccesses(start, attempts[..|attempts| - 1]);
      ModuloSuccessor(start + Successes(attempts[..|attempts| - 1]));
    }
  }

  lemma {:induction false} SuccessesBetween(attempts: seq<Attempt>, i: nat, j: nat)
    requires i <= j <= |attempts|
    ensures Successes(attempts[..i]) <= Successes(attempts[..j]) <= Successes(attempts[..i]) + (j - i)
    ensures Successes(attempts[..i]) == Successes(attempts[..j]) <==> forall k | i <= k < j :: !attempts[k].ok
  {
    if i < j {
      SuccessesBetween(attempts, i, j - 1);
      assert attempts[..j][..j - 1] == attempts[..j - 1];
    }
  }

  /** Which sends of a run share a sequence number: two attempts do exactly when every attempt from the
      earlier one up to the later one failed (in runs of fewer than 2^32 attempts). */
  lemma SequenceReusedIff(start: u32, attempts: seq<Attempt>, i: nat, j: nat)
    requires i < j < |attempts| <= 0x1_0000_0000
    ensures SequenceAt(start, attempts[..i]) == SequenceAt(start, attempts[..j])
            <==> forall k | i <= k < j :: !attempts[k].ok
  {
    SequenceCountsSuccesses(start, attempts[..i]);
    SequenceCountsSuccesses(start, attempts[..j]);
    SuccessesBetween(attempts, i, j);
    var a, b := Successes(attempts[..i]), Successes(attempts[..j]);
    ModuloDistinct(start + a, start + b);
  }

  lemma ModuloDistinct(x: nat, y: nat)
    requires x <= y < x + 0x1_0000_0000
    ensures x % 0x1_0000_0000 == y % 0x1_0000_0000 <==> x == y
  {
  }
}
