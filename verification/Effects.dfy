/** What a datagram does to the target, byte by byte and counter by counter. */
module Effects {
  import opened Options
  import opened Bytes
  import opened Wire
  import opened Irsdk
  import opened Codec
  import opened Target
  import opened Mirror
  import R = Reassembly

  // ---------- one message ----------

  /** A message is written when it was decompressed and is a session-info frame of at least 8 bytes, or, after a
      session-info frame, a partial frame of at least a header whose varBuf ends inside the 2 MiB map. */
  predicate Written(t: Tgt, off: u32, dec: Option<seq<byte>>) {
    && dec.Some?
    && if off == 0xFFFF_FFFF then |dec.value| >= 8
       else
         t.hasFull && |dec.value| >= 112
         && (if off >= 0x8000_0000 then off - 0x8000_0000 else off) + |dec.value| - 112 <= 2097152
  }

  lemma WrittenIff(t: Tgt, off: u32, dec: Option<seq<byte>>)
    requires ValidTgt(t) && (dec.Some? ==> |dec.value| <= MAX_TELEMETRY_SIZE)
    ensures WriteFor(t, off, dec).Some? <==> Written(t, off, dec)
  {
    DeltaBitIsTop(off);
  }

  /** The map the message finds: a new one is all zero. */
  predicate MapIs(m: seq<byte>, t: Tgt) {
    && |m| == 2097152
    && forall b | 0 <= b < |m| ::
         m[b] == if t.shared.Some? && b < |t.shared.value| then t.shared.value[b] else 0
  }

  lemma MapBeforeIs(t: Tgt)
    requires ValidTgt(t)
    ensures MapIs(MapBefore(t), t)
  {
  }

  /** A message that is not written creates the map and changes nothing else. */
  lemma IgnoredMessage(t: Tgt, off: u32, dec: Option<seq<byte>>)
    requires ValidTgt(t) && (dec.Some? ==> |dec.value| <= MAX_TELEMETRY_SIZE) && !Written(t, off, dec)
    ensures var r := Message(t, off, dec);
            r.prev == t.prev && r.hasFull == t.hasFull && r.shared.Some? && MapIs(r.shared.value, t)
  {
    WrittenIff(t, off, dec);
    MapBeforeIs(t);
  }

  lemma SessionSpliced(m0: seq<byte>, d: seq<byte>)
    requires 8 <= |d| <= |m0|
    ensures forall i | 0 <= i < |SessionCopies(d)| :: Fits(SessionCopies(d)[i], |m0|)
    ensures forall b | 0 <= b < |m0| ::
              ApplyAll(m0, SessionCopies(d))[b] == if b < 4 || 8 <= b < |d| then d[b] else m0[b]
  {
    if |d| > 8 {
      SessionApplied(m0, d);
      TwoPieces(m0, d);
    } else {
      assert SessionCopies(d) == [Copy(0, d[..4])];
      var cs := SessionCopies(d);
      assert cs[1..] == [];
      assert ApplyAll(m0, cs) == ApplyAll(Splice(m0, 0, d[..4]), cs[1..]) == Splice(m0, 0, d[..4]);
    }
  }

  lemma TwoPieces(m0: seq<byte>, d: seq<byte>)
    requires 8 < |d| <= |m0|
    ensures forall b | 0 <= b < |m0| ::
              Splice(Splice(m0, 0, d[..4]), 8, d[8..|d|])[b] == if b < 4 || 8 <= b < |d| then d[b] else m0[b]
  {
    var m1 := Splice(m0, 0, d[..4]);
    var m2 := Splice(m1, 8, d[8..|d|]);
    forall b | 0 <= b < |m0| ensures m2[b] == if b < 4 || 8 <= b < |d| then d[b] else m0[b] {
      assert m2[b] == if 8 <= b < 8 + |d[8..|d|]| then d[8..|d|][b - 8] else m1[b];
    }
  }

  /** A session-info frame brings all its bytes but 4..8, zeroes the previous frame and lets partial frames in. */
  lemma SessionMessage(t: Tgt, d: seq<byte>)
    requires ValidTgt(t) && 8 <= |d| <= MAX_TELEMETRY_SIZE
    ensures var r := Message(t, 0xFFFF_FFFF, Some(d));
            && r.hasFull && |r.prev| == 2097152 && (forall b | 0 <= b < |r.prev| :: r.prev[b] == 0)
            && r.shared.Some? && |r.shared.value| == 2097152
            && forall b | 0 <= b < |r.shared.value| ::
                 r.shared.value[b] == if b < 4 || 8 <= b < |d| then d[b] else MapBefore(t)[b]
  {
    SessionSpliced(MapBefore(t), d);
  }

  /** The frame a partial message stands for: itself, or its XOR with the previous frame when the top bit is set. */
  function FrameByte(t: Tgt, off: u32, d: seq<byte>, b: nat): byte
    requires b < |d| <= |t.prev|
  {
    if off >= 0x8000_0000 then XorByte(d[b], t.prev[b]) else d[b]
  }

  lemma ReconstructIs(t: Tgt, off: u32, d: seq<byte>)
    requires |d| <= |t.prev|
    ensures forall b | 0 <= b < |d| :: Reconstruct(t.prev, off, d)[b] == FrameByte(t, off, d, b)
  {
    DeltaBitIsTop(off);
  }

  lemma PartialSpliced(m0: seq<byte>, o: nat, frame: seq<byte>, b: nat)
    requires |frame| >= 112 && o + |frame| - 112 <= |m0| && |m0| >= 112 && b < |m0|
    ensures forall i | 0 <= i < |PartialCopies(o, frame)| :: Fits(PartialCopies(o, frame)[i], |m0|)
    ensures ApplyAll(m0, PartialCopies(o, frame))[b]
            == if b < 112 then frame[b] else if o <= b < o + |frame| - 112 then frame[b - o + 112] else m0[b]
  {
    var cs := PartialCopies(o, frame);
    assert cs == [Copy(o, frame[112..]), Copy(0, frame[..112])];
    ApplyTwo(m0, cs[0], cs[1]);
    var m1 := Splice(m0, o, frame[112..]);
    assert Splice(m1, 0, frame[..112])[b] == if b < 112 then frame[b] else m1[b];
  }

  /** Byte `b` of the map after a partial message: the frame's header, then its varBuf at the offset, else as before. */
  function MapByte(t: Tgt, off: u32, d: seq<byte>, b: nat): byte
    requires ValidTgt(t) && 112 <= |d| <= |t.prev| && b < |MapBefore(t)|
  {
    var o := if off >= 0x8000_0000 then off - 0x8000_0000 else off;
    if b < 112 then FrameByte(t, off, d, b)
    else if o <= b < o + |d| - 112 then FrameByte(t, off, d, b - o + 112)
    else MapBefore(t)[b]
  }

  lemma PartialByte(t: Tgt, off: u32, d: seq<byte>, b: nat)
    requires ValidTgt(t) && |d| <= MAX_TELEMETRY_SIZE && off != 0xFFFF_FFFF && Written(t, off, Some(d))
    requires b < MAX_TELEMETRY_SIZE
    ensures Message(t, off, Some(d)).shared.Some?
    ensures Message(t, off, Some(d)).shared.value[b] == MapByte(t, off, d, b)
  {
    WrittenIff(t, off, Some(d));
    DeltaBitIsTop(off);
    ReconstructIs(t, off, d);
    PartialSpliced(MapBefore(t), WithoutDeltaBit(off), Reconstruct(t.prev, off, d), b);
  }

  /** A partial frame: header and slot are the frame's, the rest of the map stays, and the frame becomes the front of
      the previous frame. */
  lemma PartialMessage(t: Tgt, off: u32, d: seq<byte>)
    requires ValidTgt(t) && |d| <= MAX_TELEMETRY_SIZE && off != 0xFFFF_FFFF && Written(t, off, Some(d))
    ensures var r := Message(t, off, Some(d));
            && r.hasFull && |r.prev| == |t.prev| && r.shared.Some? && |r.shared.value| == 2097152
            && (forall b | 0 <= b < |t.prev| :: r.prev[b] == if b < |d| then FrameByte(t, off, d, b) else t.prev[b])
            && (forall b | 0 <= b < |r.shared.value| :: r.shared.value[b] == MapByte(t, off, d, b))
  {
    WrittenIff(t, off, Some(d));
    ReconstructIs(t, off, d);
    var m := Message(t, off, Some(d)).shared.value;
    forall b | 0 <= b < |m| ensures m[b] == MapByte(t, off, d, b) {
      PartialByte(t, off, d, b);
    }
  }

  /** A stale reset drops the map, zeroes the previous frame and waits for a session-info frame; without a map it does
      nothing. */
  lemma StaleIs(t: Tgt)
    requires ValidTgt(t)
    ensures t.shared.None? ==> Stale(t) == t
    ensures t.shared.Some? ==>
              && Stale(t).shared.None? && !Stale(t).hasFull
              && |Stale(t).prev| == 2097152 && forall b | 0 <= b < |Stale(t).prev| :: Stale(t).prev[b] == 0
  {
  }

  // ---------- one datagram ----------

  /** What the receiver reports: fragment 0 of any message, heartbeats, and for a completed message how many fragments
      it had. */
  lemma IngestReports(rx: R.Rx, packet: Packet)
    requires R.Sane(rx)
    ensures var (rx1, r) := R.Ingest(rx, packet);
            && (r.heartbeat <==> packet.Packet? && packet.header.fragments == 0)
            && (r.newSeq <==> packet.Packet? && packet.header.fragments != 0 && packet.header.fragment == 0)
            && (r.assembled.Some? ==> rx1.lastFragmentCount == rx1.totalFrags == rx1.gotFrags
                                      && |r.assembled.value| == rx1.payloadSize)
            && (r.assembled.None? ==> rx1.lastFragmentCount == rx.lastFragmentCount)
  {
  }

  /** The header is refused beyond 256 fragments or the buffer's size, and an unplaced fragment `i` goes to 8976 i. */
  lemma ReceiverLimits(h: Header, maxPayload: nat, detected: nat, i: nat)
    ensures R.Refused(h, maxPayload) <==> h.fragments > 256 || h.payloadSize > maxPayload
    ensures R.Destination(detected, i) == i * (if detected > 0 then detected else 8976)
  {
    OffsetIsProduct(i, if detected > 0 then detected else MAX_PAYLOAD_PER_DATAGRAM);
  }

  /** The transit timer runs from a fragment 0 to the next written message, which moves the drop counter into the
      statistics; the iteration is cut short by a message that cannot be used. */
  lemma DatagramBooks(codec: Codec, s: TargetState, packet: Packet)
    requires ValidState(s) && Bounded(codec)
    ensures var (s1, wrote, cut) := OnPacket(codec, s, packet);
            var (rx1, r) := R.Ingest(s.rx, packet);
            var timed := s.timing || (packet.Packet? && packet.header.fragments != 0 && packet.header.fragment == 0);
            && (wrote <==> r.assembled.Some?
                           && Written(s.t, r.bufOffset, codec.decompress(r.assembled.value)))
            && (cut <==> r.assembled.Some? && !wrote && (r.bufOffset == 0xFFFF_FFFF || s.t.hasFull))
            && s1.timing == (timed && !wrote)
            && s1.statsDropped == s.statsDropped + (if wrote && timed then rx1.dropped else 0)
            && s1.rx == (if wrote && timed then rx1.(dropped := 0) else rx1)
  {
    IngestReports(s.rx, packet);
    var r := R.Ingest(s.rx, packet).1;
    if r.assembled.Some? {
      WrittenIff(s.t, r.bufOffset, codec.decompress(r.assembled.value));
    }
  }

  /** The target asks exactly when the iteration was not cut short, no session-info frame is held and the interval is
      over; it sends the bytes 1 and 1. */
  lemma RequestIs(s: TargetState, cut: bool, due: bool)
    ensures Request(s, cut, due) == if !cut && !s.t.hasFull && due then Some([1, 1]) else None
  {
  }
}
