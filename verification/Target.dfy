/** The target's receive loop (target.rs): what an assembled message does to the shared map and to the
    delta state, in which order the map is written, and the stale reset. `Tgt` and `TargetState` are the
    state as values; the class `Target` is the code over its buffers. */
module Target {
  import opened Options
  import opened Bytes
  import opened Wire
  import opened Irsdk
  import opened XorDelta
  import opened Codec
  import R = Reassembly

  /** The map, the previous frame, and whether a session-info frame has arrived. */
  datatype Tgt = Tgt(shared: Option<seq<byte>>, prev: seq<byte>, hasFull: bool)

  predicate ValidTgt(t: Tgt) {
    |t.prev| == MAX_TELEMETRY_SIZE && (t.shared.Some? ==> |t.shared.value| == MAX_TELEMETRY_SIZE)
  }

  function InitialTgt(): (t: Tgt)
    ensures ValidTgt(t)
  {
    Tgt(None, Zeros(MAX_TELEMETRY_SIZE), false)
  }

  // ---------- writes to the map ----------

  /** One contiguous write into the map. */
  datatype Copy = Copy(off: nat, data: seq<byte>)

  predicate Fits(c: Copy, size: nat) {
    c.off + |c.data| <= size
  }

  function ApplyAll(m: seq<byte>, cs: seq<Copy>): (r: seq<byte>)
    requires forall i | 0 <= i < |cs| :: Fits(cs[i], |m|)
    ensures |r| == |m|
    decreases |cs|
  {
    if cs == [] then m
    else
      assert Fits(cs[0], |m|);
      ApplyAll(Splice(m, cs[0].off, cs[0].data), cs[1..])
  }

  /** What a message writes: the copies in program order, and the previous frame afterwards. */
  datatype Write = Write(copies: seq<Copy>, prev: seq<byte>)

  /** A session-info frame: everything but the status field [4..8]. */
  function SessionCopies(d: seq<byte>): seq<Copy>
    requires |d| >= 8
  {
    [Copy(0, d[..4])] + if |d| > 8 then [Copy(8, d[8..])] else []
  }

  /** A partial frame: the varBuf first, the header last. */
  function PartialCopies(off: nat, frame: seq<byte>): seq<Copy>
    requires |frame| >= IRSDK_HEADER_SIZE
  {
    [Copy(off, frame[IRSDK_HEADER_SIZE..]), Copy(0, frame[..IRSDK_HEADER_SIZE])]
  }

  /** The frame a partial message stands for. */
  function Reconstruct(prev: seq<byte>, off: u32, d: seq<byte>): (frame: seq<byte>)
    requires |d| <= |prev|
    ensures |frame| == |d|
  {
    if HasDeltaBit(off) then Xor(d, prev[..|d|]) else d
  }

  /** Nothing is written when decompression failed, the message is too short or out of range, or a partial
      frame comes before any session-info frame. */
  function WriteFor(t: Tgt, off: u32, dec: Option<seq<byte>>): (w: Option<Write>)
    requires ValidTgt(t) && (dec.Some? ==> |dec.value| <= MAX_TELEMETRY_SIZE)
    ensures w.Some? ==> |w.value.prev| == MAX_TELEMETRY_SIZE
                        && forall i | 0 <= i < |w.value.copies| :: Fits(w.value.copies[i], MAX_TELEMETRY_SIZE)
  {
    if dec.None? then None
    else
      var d := dec.value;
      if off == U32_MAX then
        if |d| < 8 then None else Some(Write(SessionCopies(d), Zeros(MAX_TELEMETRY_SIZE)))
      else if !t.hasFull || |d| < IRSDK_HEADER_SIZE
              || WithoutDeltaBit(off) + (|d| - IRSDK_HEADER_SIZE) > MAX_TELEMETRY_SIZE then None
      else
        var frame := Reconstruct(t.prev, off, d);
        Some(Write(PartialCopies(WithoutDeltaBit(off), frame), Splice(t.prev, 0, frame)))
  }

  lemma MapIsIrrelevant(t: Tgt, u: Tgt, off: u32, dec: Option<seq<byte>>)
    requires ValidTgt(t) && ValidTgt(u) && (dec.Some? ==> |dec.value| <= MAX_TELEMETRY_SIZE)
    requires t.prev == u.prev && t.hasFull == u.hasFull
    ensures WriteFor(t, off, dec) == WriteFor(u, off, dec)
  {
  }

  /** The map a message is written to: created and zeroed when there is none. */
  function MapBefore(t: Tgt): (m: seq<byte>)
    requires ValidTgt(t)
    ensures |m| == MAX_TELEMETRY_SIZE
  {
    if t.shared.Some? then t.shared.value else Zeros(MAX_TELEMETRY_SIZE)
  }

  /** One assembled message. */
  function Message(t: Tgt, off: u32, dec: Option<seq<byte>>): (r: Tgt)
    requires ValidTgt(t) && (dec.Some? ==> |dec.value| <= MAX_TELEMETRY_SIZE)
    ensures ValidTgt(r)
  {
    match WriteFor(t, off, dec)
    case None => t.(shared := Some(MapBefore(t)))
    case Some(w) => Tgt(Some(ApplyAll(MapBefore(t), w.copies)), w.prev, t.hasFull || off == U32_MAX)
  }

  lemma IsMessage(t: Tgt, off: u32, dec: Option<seq<byte>>, t1: Tgt, trace: seq<Copy>)
    requires ValidTgt(t) && (dec.Some? ==> |dec.value| <= MAX_TELEMETRY_SIZE)
    requires WriteFor(t, off, dec) == Some(Write(trace, t1.prev))
    requires t1.shared == Some(ApplyAll(MapBefore(t), trace)) && t1.hasFull == (t.hasFull || off == U32_MAX)
    ensures t1 == Message(t, off, dec)
  {
  }

  /** The stale timeout: the map is dropped and the delta state zeroed. */
  function Stale(t: Tgt): (r: Tgt)
    requires ValidTgt(t)
    ensures ValidTgt(r)
  {
    if t.shared.None? then t else Tgt(None, Zeros(MAX_TELEMETRY_SIZE), false)
  }

  // ---------- the loop ----------

  /** `timing` is `seq_start.is_some()`; `statsDropped` is what the statistics have taken over so far. */
  datatype TargetState = TargetState(t: Tgt, rx: R.Rx, timing: bool, statsDropped: nat)

  predicate ValidState(s: TargetState) {
    ValidTgt(s.t) && R.Sane(s.rx)
  }

  /** An assembled message. The second component tells whether the map was written, the third whether the
      iteration was cut short by a frame that could not be used. */
  function Settle(s: TargetState, off: u32, dec: Option<seq<byte>>): (r: (TargetState, bool, bool))
    requires ValidState(s) && (dec.Some? ==> |dec.value| <= MAX_TELEMETRY_SIZE)
    ensures ValidState(r.0)
  {
    var s1 := s.(t := Message(s.t, off, dec));
    if WriteFor(s.t, off, dec).None? then (s1, false, off == U32_MAX || s.t.hasFull)
    else if s.timing then
      (s1.(rx := s.rx.(dropped := 0), timing := false, statsDropped := s.statsDropped + s.rx.dropped), true, false)
    else (s1, true, false)
  }

  lemma SettleIs(s: TargetState, off: u32, dec: Option<seq<byte>>, s1: TargetState, wrote: bool)
    requires ValidState(s) && (dec.Some? ==> |dec.value| <= MAX_TELEMETRY_SIZE)
    requires s1.t == Message(s.t, off, dec) && wrote == WriteFor(s.t, off, dec).Some?
    requires s1.rx == (if wrote && s.timing then s.rx.(dropped := 0) else s.rx)
    requires s1.timing == (s.timing && !wrote)
    requires s1.statsDropped == s.statsDropped + if wrote && s.timing then s.rx.dropped else 0
    ensures (s1, wrote, !wrote && (off == U32_MAX || s.t.hasFull)) == Settle(s, off, dec)
  {
  }

  /** What the receiver makes of a datagram. */
  function Received(s: TargetState, packet: Packet): (r: (TargetState, R.Ingested))
    requires ValidState(s)
    ensures ValidState(r.0)
  {
    var (rx1, res) := R.Ingest(s.rx, packet);
    (s.(rx := rx1, timing := s.timing || (!res.heartbeat && res.newSeq)), res)
  }

  /** One datagram. */
  function OnPacket(codec: Codec, s: TargetState, packet: Packet): (r: (TargetState, bool, bool))
    requires ValidState(s) && Bounded(codec)
    ensures ValidState(r.0)
  {
    var (s1, res) := Received(s, packet);
    if res.assembled.None? then (s1, false, false)
    else Settle(s1, res.bufOffset, codec.decompress(res.assembled.value))
  }

  /** The target's transfer of the drop counter to its statistics loses nothing. */
  lemma DropsConserved(codec: Codec, s: TargetState, packet: Packet)
    requires ValidState(s) && Bounded(codec)
    ensures var s1 := OnPacket(codec, s, packet).0;
            s1.statsDropped + s1.rx.dropped == s.statsDropped + R.Ingest(s.rx, packet).0.dropped
  {
  }

  /** Byte 0: resync request; byte 1, bit 0: the target understands deltas. */
  const RESYNC: seq<byte> := [1, 1]

  /** What the target asks for after a datagram; `due` tells whether the resync interval is over. */
  function Request(s: TargetState, cut: bool, due: bool): Option<seq<byte>> {
    if !cut && !s.t.hasFull && due then Some(RESYNC) else None
  }

  // ---------- the code ----------

  class Target {
    const little: bool
    const codec: Codec
    const proto: R.Receiver
    const partialStaging: array<byte>
    const prevVarbuf: array<byte>
    const reconstructBuf: array<byte>
    var shared: array?<byte>
    var hasFullFrame: bool
    var timing: bool
    var statsDropped: nat

    ghost function View(): Tgt
      reads this, prevVarbuf, shared
    {
      Tgt(if shared == null then None else Some(shared[..]), prevVarbuf[..], hasFullFrame)
    }

    ghost function State(): TargetState
      reads this, prevVarbuf, shared, proto, proto.buf, proto.received
    {
      TargetState(View(), proto.View(), timing, statsDropped)
    }

    ghost predicate Buffers()
      reads this
    {
      && partialStaging.Length == prevVarbuf.Length == reconstructBuf.Length == MAX_TELEMETRY_SIZE
      && partialStaging != prevVarbuf && partialStaging != reconstructBuf && prevVarbuf != reconstructBuf
      && proto.buf != partialStaging && proto.buf != prevVarbuf && proto.buf != reconstructBuf
      && (shared != null ==>
            && shared.Length == MAX_TELEMETRY_SIZE
            && shared != partialStaging && shared != prevVarbuf && shared != reconstructBuf && shared != proto.buf)
    }

    ghost predicate Valid()
      reads this, prevVarbuf, shared, proto, proto.buf, proto.received
    {
      Buffers() && proto.Valid()
    }

    constructor (little: bool, codec: Codec, maxPayload: nat)
      ensures Valid() && State() == TargetState(InitialTgt(), R.Initial(maxPayload), false, 0)
      ensures this.codec == codec
    {
      this.little := little;
      this.codec := codec;
      proto := new R.Receiver(maxPayload);
      partialStaging := new byte[MAX_TELEMETRY_SIZE](_ => 0);
      prevVarbuf := new byte[MAX_TELEMETRY_SIZE](_ => 0);
      reconstructBuf := new byte[MAX_TELEMETRY_SIZE](_ => 0);
      shared := null;
      hasFullFrame, timing, statsDropped := false, false, 0;
      new;
      assert prevVarbuf[..] == Zeros(MAX_TELEMETRY_SIZE);
    }

    method EnsureMap()
      requires Buffers()
      modifies this`shared
      ensures Buffers() && shared != null && (old(shared) == null ==> fresh(shared))
      ensures old(shared) != null ==> shared == old(shared)
      ensures shared[..] == MapBefore(old(View()))
    {
      if shared == null {
        shared := new byte[MAX_TELEMETRY_SIZE](_ => 0);
        assert shared[..] == Zeros(MAX_TELEMETRY_SIZE);
      }
    }

    /** Write `d` into the map from `off` on. */
    method Put(off: nat, d: seq<byte>)
      requires Buffers() && shared != null && off + |d| <= MAX_TELEMETRY_SIZE
      modifies shared
      ensures shared[..] == Splice(old(shared[..]), off, d)
    {
      var m: array<byte> := shared;
      forall k | 0 <= k < |d| {
        m[off + k] := d[k];
      }
    }

    /** `trace` records the copies into the map in the order they are made. */
    method Session(prefixLen: nat) returns (trace: seq<Copy>)
      requires Buffers() && shared != null && 8 <= prefixLen <= MAX_TELEMETRY_SIZE
      modifies this`hasFullFrame, shared, prevVarbuf
      ensures trace == SessionCopies(partialStaging[..prefixLen])
      ensures shared[..] == ApplyAll(old(shared[..]), trace)
      ensures hasFullFrame && prevVarbuf[..] == Zeros(MAX_TELEMETRY_SIZE)
    {
      ghost var m0 := shared[..];
      var d := partialStaging[..prefixLen];
      Put(0, d[..4]);
      trace := [Copy(0, d[..4])];
      if prefixLen > 8 {
        Put(8, d[8..]);
        trace := trace + [Copy(8, d[8..])];
        ApplyTwo(m0, Copy(0, d[..4]), Copy(8, d[8..]));
      }
      assert trace == SessionCopies(d);
      hasFullFrame := true;
      forall k | 0 <= k < prevVarbuf.Length {
        prevVarbuf[k] := 0;
      }
      assert prevVarbuf[..] == Zeros(MAX_TELEMETRY_SIZE);
      assert partialStaging[..prefixLen] == d;
    }

    /** The frame: the staging buffer itself, or its XOR with the previous frame. */
    method Frame(off: u32, decLen: nat) returns (frame: seq<byte>)
      requires Buffers() && decLen <= MAX_TELEMETRY_SIZE
      modifies reconstructBuf
      ensures frame == Reconstruct(prevVarbuf[..], off, partialStaging[..decLen])
    {
      if HasDeltaBit(off) {
        XorInto(little, partialStaging[..decLen], prevVarbuf[..decLen], reconstructBuf);
        assert prevVarbuf[..decLen] == prevVarbuf[..][..decLen];
        frame := reconstructBuf[..decLen];
      } else {
        frame := partialStaging[..decLen];
      }
    }

    method Partial(off: u32, decLen: nat) returns (wrote: bool, trace: seq<Copy>)
      requires Buffers() && shared != null && decLen <= MAX_TELEMETRY_SIZE
      requires off != U32_MAX && hasFullFrame
      modifies shared, prevVarbuf, reconstructBuf
      ensures var w := WriteFor(old(View()), off, Some(partialStaging[..decLen]));
              && wrote == w.Some?
              && trace == (if w.Some? then w.value.copies else [])
              && shared[..] == ApplyAll(old(shared[..]), trace)
              && prevVarbuf[..] == (if w.Some? then w.value.prev else old(prevVarbuf[..]))
    {
      var realOff := WithoutDeltaBit(off);
      if decLen < IRSDK_HEADER_SIZE {
        return false, [];
      }
      var frame := Frame(off, decLen);
      var varLen := decLen - IRSDK_HEADER_SIZE;
      if realOff + varLen > MAX_TELEMETRY_SIZE {
        return false, [];
      }
      Remember(frame);
      trace := PutPartial(realOff, frame);
      wrote := true;
    }

    /** Make the frame the front of the previous frame; what lies behind it stays. */
    method Remember(frame: seq<byte>)
      requires Buffers() && |frame| <= MAX_TELEMETRY_SIZE
      modifies prevVarbuf
      ensures prevVarbuf[..] == Splice(old(prevVarbuf[..]), 0, frame)
    {
      forall k | 0 <= k < |frame| {
        prevVarbuf[k] := frame[k];
      }
    }

    /** The varBuf first, the header last. */
    method PutPartial(realOff: nat, frame: seq<byte>) returns (trace: seq<Copy>)
      requires Buffers() && shared != null && |frame| >= IRSDK_HEADER_SIZE
      requires realOff + (|frame| - IRSDK_HEADER_SIZE) <= MAX_TELEMETRY_SIZE
      modifies shared
      ensures trace == PartialCopies(realOff, frame)
      ensures shared[..] == ApplyAll(old(shared[..]), trace)
    {
      ghost var m0 := shared[..];
      Put(realOff, frame[IRSDK_HEADER_SIZE..]);
      trace := [Copy(realOff, frame[IRSDK_HEADER_SIZE..])];
      Put(0, frame[..IRSDK_HEADER_SIZE]);
      trace := trace + [Copy(0, frame[..IRSDK_HEADER_SIZE])];
      assert trace == PartialCopies(realOff, frame);
      ApplyTwo(m0, trace[0], trace[1]);
    }

    method OnMessage(off: u32, dec: Option<seq<byte>>) returns (wrote: bool, trace: seq<Copy>)
      requires Buffers() && (dec.Some? ==> |dec.value| <= MAX_TELEMETRY_SIZE)
      modifies this`shared, this`hasFullFrame, shared, prevVarbuf, reconstructBuf, partialStaging
      ensures Buffers() && shared != null && (old(shared) == null ==> fresh(shared)) && (old(shared) != null
        ==> shared == old(shared))
      ensures View() == Message(old(View()), off, dec)
      ensures var w := WriteFor(old(View()), off, dec);
              wrote == w.Some? && trace == if w.Some? then w.value.copies else []
      ensures shared[..] == ApplyAll(MapBefore(old(View())), trace)
    {
      EnsureMap();
      if dec.None? {
        return false, [];
      }
      var n := |dec.value|;
      forall k | 0 <= k < n {
        partialStaging[k] := dec.value[k];
      }
      assert partialStaging[..n] == dec.value;
      ghost var m0 := shared[..];
      assert m0 == MapBefore(old(View()));
      if off == U32_MAX {
        if n < 8 {
          return false, [];
        }
        trace := Session(n);
        wrote := true;
        assert shared[..] == ApplyAll(m0, trace);
        IsMessage(old(View()), off, dec, View(), trace);
      } else if hasFullFrame {
        MapIsIrrelevant(old(View()), View(), off, dec);
        wrote, trace := Partial(off, n);
        if wrote {
          IsMessage(old(View()), off, dec, View(), trace);
        }
      } else {
        wrote, trace := false, [];
      }
    }

    /** The statistics take over the receiver's drop counter. */
    method Account()
      requires proto.Valid()
      modifies this`timing, this`statsDropped, proto`droppedSequences
      ensures proto.Valid()
      ensures timing == false
      ensures statsDropped == if old(timing) then old(statsDropped) + old(proto.View()).dropped else old(statsDropped)
      ensures proto.View() == if old(timing) then old(proto.View()).(dropped := 0) else old(proto.View())
    {
      if timing {
        timing := false;
        statsDropped := statsDropped + proto.droppedSequences;
        proto.droppedSequences := 0;
      }
    }

    /** One assembled message, decompressed if that worked. */
    method OnAssembled(off: u32, dec: Option<seq<byte>>) returns (wrote: bool, cut: bool)
      requires Valid() && (dec.Some? ==> |dec.value| <= MAX_TELEMETRY_SIZE)
      modifies this, shared, prevVarbuf, reconstructBuf, partialStaging, proto`droppedSequences
      ensures Valid() && (State(), wrote, cut) == Settle(old(State()), off, dec)
    {
      var hadFull := hasFullFrame;
      ghost var s0 := State();
      ghost var rx := proto.View();
      var trace;
      wrote, trace := OnMessage(off, dec);
      assert proto.View() == rx;
      ghost var t1 := View();
      if wrote {
        Account();
        assert View() == t1;
      }
      cut := !wrote && (off == U32_MAX || hadFull);
      SettleIs(s0, off, dec, State(), wrote);
    }

    /** One received datagram. `due` tells whether the resync interval is over; the request carries the
        resync flag and the delta capability. */
    method OnDatagram(datagram: seq<byte>, due: bool) returns (wrote: bool, request: Option<seq<byte>>)
      requires Valid() && Bounded(codec)
      modifies this, shared, prevVarbuf, reconstructBuf, partialStaging, proto, proto.buf, proto.received
      ensures Valid()
      ensures var (s1, w, cut) := OnPacket(codec, old(State()), Parse(datagram));
              && State() == s1 && wrote == w
              && request == Request(s1, cut, due)
    {
      ghost var s0 := State();
      var res := Receive(datagram);
      assert State() == Received(s0, Parse(datagram)).0;
      var cut := false;
      wrote := false;
      if res.assembled.Some? {
        wrote, cut := OnAssembled(res.bufOffset, codec.decompress(res.assembled.value));
      }
      request := if !cut && !hasFullFrame && due then Some(RESYNC) else None;
    }

    /** The datagram goes through the receiver; a first fragment starts the transit timer. */
    method Receive(datagram: seq<byte>) returns (res: R.Ingested)
      requires Valid()
      modifies this`timing, proto, proto.buf, proto.received
      ensures Valid()
      ensures (State(), res) == Received(old(State()), Parse(datagram))
    {
      ghost var t := View();
      res := proto.IngestDatagram(datagram);
      if !res.heartbeat && res.newSeq {
        timing := true;
      }
      assert View() == t;
    }

    method OnStale()
      requires Buffers()
      modifies this`shared, this`hasFullFrame, shared, prevVarbuf
      ensures Buffers() && View() == Stale(old(View()))
    {
      if shared != null {
        var m: array<byte> := shared;
        forall k | 0 <= k < m.Length {
          m[k] := 0;
        }
        shared := null;
        hasFullFrame := false;
        forall k | 0 <= k < prevVarbuf.Length {
          prevVarbuf[k] := 0;
        }
        assert prevVarbuf[..] == Zeros(MAX_TELEMETRY_SIZE);
      }
    }
  }

  lemma ApplyTwo(m: seq<byte>, a: Copy, b: Copy)
    requires Fits(a, |m|) && Fits(b, |m|)
    ensures ApplyAll(m, [a, b]) == Splice(Splice(m, a.off, a.data), b.off, b.data)
  {
    var m1 := Splice(m, a.off, a.data);
    assert [a, b][1..] == [b];
    assert ApplyAll(m1, [b]) == ApplyAll(Splice(m1, b.off, b.data), []);
  }
}
