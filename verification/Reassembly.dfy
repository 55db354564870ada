/** `Receiver` (protocol.rs): reassembly of one sequence at a time into a buffer that is allocated once
    and never cleared. `Rx` is the receiver's state as a value and `Ingest` its transition; the class
    `Receiver` is the in-place code, proved to perform exactly that transition. */
module Reassembly {
  import opened Options
  import opened Bytes
  import opened Wire

  datatype Rx = Rx(
    buf: seq<byte>,                 // preallocated, |buf| == max_payload
    received: seq<bool>,            // one flag per fragment index, 256 of them
    currentSeq: Option<u32>,
    totalFrags: nat,
    gotFrags: nat,
    payloadSize: nat,
    detected: nat,                  // detected_frag_size; 0 = not known yet
    lastSourceUs: u64,
    lastFragmentCount: nat,
    dropped: nat,                   // dropped_sequences
    lastBufOffset: u32)

  datatype Ingested = Ingested(assembled: Option<seq<byte>>, newSeq: bool, heartbeat: bool, bufOffset: u32)

  const NOTHING := Ingested(None, false, false, 0)

  function CountTrue(s: seq<bool>): (r: nat)
    ensures r <= |s|
  {
    if s == [] then 0 else (if s[0] then 1 else 0) + CountTrue(s[1..])
  }

  /** What keeps every index and slice of the code in range. */
  predicate Sane(rx: Rx) {
    && |rx.received| == MAX_FRAGMENTS
    && rx.totalFrags <= MAX_FRAGMENTS
    && rx.payloadSize <= |rx.buf|
    && rx.detected <= MAX_PAYLOAD_PER_DATAGRAM
  }

  /** The fragment counter counts the flags, and an open sequence is not complete. */
  predicate Counts(rx: Rx)
    requires Sane(rx)
  {
    && rx.gotFrags == CountTrue(rx.received[..rx.totalFrags])
    && (rx.currentSeq.Some? && rx.totalFrags > 0 ==> rx.gotFrags < rx.totalFrags)
    && (rx.currentSeq.None? ==> rx.gotFrags == rx.totalFrags)
  }

  function Initial(maxPayload: nat): (rx: Rx)
    ensures Sane(rx) && Counts(rx)
  {
    Rx(Zeros(maxPayload), seq(MAX_FRAGMENTS, _ => false), None, 0, 0, 0, 0, 0, 0, 0, U32_MAX)
  }

  /** Whether a header is refused: too many fragments, or a payload that cannot fit. */
  predicate Refused(h: Header, maxPayload: nat) {
    h.fragments > MAX_FRAGMENTS || h.payloadSize > maxPayload
  }

  function Reset(rx: Rx, h: Header): Rx
    requires |rx.received| == MAX_FRAGMENTS
  {
    var dropped := if 0 < rx.gotFrags < rx.totalFrags then rx.dropped + 1 else rx.dropped;
    if Refused(h, |rx.buf|) then
      rx.(dropped := dropped, currentSeq := Some(h.sequence), totalFrags := 0, gotFrags := 0)
    else
      rx.(dropped := dropped, currentSeq := Some(h.sequence), totalFrags := h.fragments, gotFrags := 0,
          payloadSize := h.payloadSize, lastBufOffset := h.bufOffset, detected := 0,
          received := seq(h.fragments, _ => false) + rx.received[h.fragments..])
  }

  /** The state in which a fragment of sequence `h.sequence` is examined. */
  function Opened(rx: Rx, h: Header): Rx
    requires |rx.received| == MAX_FRAGMENTS
  {
    var rx1 := if h.fragment == 0 then rx.(lastSourceUs := h.sourceUs) else rx;
    if rx1.currentSeq == Some(h.sequence) then rx1 else Reset(rx1, h)
  }

  /** `detected_frag_size` once fragment `idx` with `len` bytes has been looked at. */
  function Detect(rx: Rx, idx: nat, len: nat): nat {
    if idx + 1 < rx.totalFrags && rx.detected == 0 then len else rx.detected
  }

  /** Where fragment `idx` is written, given the detected fragment size. */
  function Destination(detected: nat, idx: nat): nat
  {
    Offset(idx, if detected > 0 then detected else MAX_PAYLOAD_PER_DATAGRAM)
  }

  /** Store one fragment, or ignore it. The second component tells whether it was stored. */
  function Store(rx: Rx, idx: nat, data: seq<byte>): (Rx, bool)
    requires |rx.received| == MAX_FRAGMENTS && rx.totalFrags <= MAX_FRAGMENTS
  {
    if idx >= rx.totalFrags || rx.received[idx] || |data| > MAX_PAYLOAD_PER_DATAGRAM then (rx, false)
    else
      var rx1 := rx.(detected := Detect(rx, idx, |data|));
      var dest := Destination(rx1.detected, idx);
      if dest + |data| > |rx1.buf| then (rx1, false)
      else (rx1.(buf := Splice(rx1.buf, dest, data), received := rx1.received[idx := true],
        gotFrags := rx1.gotFrags + 1), true)
  }

  /** Close the sequence when its last missing fragment has just been stored. */
  function Deliver(rx: Rx, stored: bool, firstFrag: bool): (Rx, Ingested)
    requires rx.payloadSize <= |rx.buf|
  {
    if stored && rx.gotFrags == rx.totalFrags then
      (rx.(lastFragmentCount := rx.totalFrags, currentSeq := None),
       Ingested(Some(rx.buf[..rx.payloadSize]), firstFrag, false, rx.lastBufOffset))
    else
      (rx, NOTHING.(newSeq := firstFrag))
  }

  function IngestFragment(rx: Rx, h: Header, data: seq<byte>): (r: (Rx, Ingested))
    requires Sane(rx) && h.fragments != 0
    ensures Sane(r.0) && |r.0.buf| == |rx.buf|
  {
    var (rx1, stored) := Store(Opened(rx, h), h.fragment, data);
    Deliver(rx1, stored, h.fragment == 0)
  }

  /** `Receiver::ingest` on any datagram at all. */
  function Ingest(rx: Rx, packet: Packet): (r: (Rx, Ingested))
    requires Sane(rx)
    ensures Sane(r.0) && |r.0.buf| == |rx.buf|
  {
    if packet.Runt? then (rx, NOTHING)
    else if packet.header.fragments == 0 then (rx, NOTHING.(heartbeat := true))
    else IngestFragment(rx, packet.header, packet.payload)
  }

  // ---------- runs ----------

  /** Datagram `k` takes the receiver from `rs[k]` to `rs[k + 1]`. */
  predicate Takes(rs: seq<Rx>, ds: seq<Packet>, k: nat)
    requires k < |ds| && |rs| == |ds| + 1
  {
    Sane(rs[k]) && rs[k + 1] == Ingest(rs[k], ds[k]).0
  }

  /** `rs` are the states of the receiver over a run of datagrams. */
  ghost predicate Run(rs: seq<Rx>, ds: seq<Packet>) {
    |rs| == |ds| + 1 && Sane(rs[0]) && forall k | 0 <= k < |ds| :: Takes(rs, ds, k)
  }

  /** What the receiver reports for datagram `k`. */
  function Result(rs: seq<Rx>, ds: seq<Packet>, k: nat): Ingested
    requires k < |ds| && |rs| == |ds| + 1 && Takes(rs, ds, k)
  {
    Ingest(rs[k], ds[k]).1
  }

  /** Every state and every sequence of datagrams has its run. */
  function RunFrom(rx: Rx, ds: seq<Packet>): (rs: seq<Rx>)
    requires Sane(rx)
    ensures Run(rs, ds) && rs[0] == rx
  {
    if ds == [] then [rx]
    else
      var rs := RunFrom(rx, ds[..|ds| - 1]);
      var last := |ds| - 1;
      LastIsSane(rs, ds[..last]);
      var rs1 := rs + [Ingest(rs[last], ds[last]).0];
      assert forall k | 0 <= k < |ds| :: Takes(rs1, ds, k) by {
        forall k | 0 <= k < |ds| ensures Takes(rs1, ds, k) {
          if k < last {
            assert Takes(rs, ds[..last], k);
          }
        }
      }
      rs1
  }

  lemma LastIsSane(rs: seq<Rx>, ds: seq<Packet>)
    requires Run(rs, ds)
    ensures Sane(rs[|ds|])
  {
    if ds != [] {
      assert Takes(rs, ds, |ds| - 1);
    }
  }

  // ---------- accounting of abandoned sequences ----------

  function InProgress(rx: Rx): nat {
    if 0 < rx.gotFrags < rx.totalFrags then 1 else 0
  }

  /** The datagram is the first one stored for its sequence. */
  predicate Begins(rx: Rx, packet: Packet)
    requires Sane(rx)
  {
    packet.Packet? && packet.header.fragments != 0
    && var (rx1, stored) := Store(Opened(rx, packet.header), packet.header.fragment, packet.payload);
       stored && rx1.gotFrags == 1
  }

  /** How many of the first `k` datagrams began a sequence. */
  ghost function Begun(rs: seq<Rx>, ds: seq<Packet>, k: nat): nat
    requires Run(rs, ds) && k <= |ds|
  {
    if k == 0 then
      0
    else
      assert Takes(rs, ds, k - 1);
      Begun(rs, ds, k - 1) + if Begins(rs[k - 1], ds[k - 1]) then 1 else 0
  }

  /** How many of the first `k` datagrams completed one. */
  ghost function Completed(rs: seq<Rx>, ds: seq<Packet>, k: nat): nat
    requires Run(rs, ds) && k <= |ds|
  {
    if k == 0 then
      0
    else
      assert Takes(rs, ds, k - 1);
      Completed(rs, ds, k - 1) + if Result(rs, ds, k - 1).assembled.Some? then 1 else 0
  }

  lemma StepAccounting(rx: Rx, packet: Packet)
    requires Sane(rx) && Counts(rx)
    ensures var (rx1, r) := Ingest(rx, packet);
            (if Begins(rx, packet) then 1 else 0) + InProgress(rx) + rx.dropped
            == (if r.assembled.Some? then 1 else 0) + InProgress(rx1) + rx1.dropped
  {
    if packet.Packet? && packet.header.fragments != 0 {
      OpenedReceives(rx, packet.header);
      StoreCounts(Opened(rx, packet.header), packet.header.fragment, packet.payload);
    }
  }

  /** Every sequence that had a fragment stored is delivered, counted as dropped, or still open: nothing
      else happens to it, whatever the datagrams are. */
  lemma {:induction false} DropAccounting(rs: seq<Rx>, ds: seq<Packet>, k: nat)
    requires Run(rs, ds) && Counts(rs[0]) && k <= |ds|
    ensures Begun(rs, ds, k) + InProgress(rs[0]) + rs[0].dropped
            == Completed(rs, ds, k) + InProgress(rs[k]) + rs[k].dropped
  {
    if k != 0 {
      DropAccounting(rs, ds, k - 1);
      RunKeepsCounts(rs, ds, k - 1);
      assert Takes(rs, ds, k - 1);
      StepAccounting(rs[k - 1], ds[k - 1]);
    }
  }

  // ---------- the invariant is kept ----------

  lemma {:induction false} CountFalse(n: nat, s: seq<bool>)
    requires |s| == n && forall k | 0 <= k < n :: !s[k]
    ensures CountTrue(s) == 0
  {
    if n != 0 {
      CountFalse(n - 1, s[1..]);
    }
  }

  lemma {:induction false} CountSet(s: seq<bool>, i: nat)
    requires i < |s| && !s[i]
    ensures CountTrue(s[i := true]) == CountTrue(s) + 1
  {
    if i != 0 {
      CountSet(s[1..], i - 1);
      assert s[i := true][1..] == s[1..][i - 1 := true];
    } else {
      assert s[0 := true][1..] == s[1..];
    }
  }

  /** After opening a sequence there is room for the fragment. */
  predicate Receiving(rx: Rx) {
    && Sane(rx)
    && rx.gotFrags == CountTrue(rx.received[..rx.totalFrags])
    && rx.currentSeq.Some?
    && (rx.totalFrags > 0 ==> rx.gotFrags < rx.totalFrags)
  }

  lemma OpenedReceives(rx: Rx, h: Header)
    requires Sane(rx) && Counts(rx) && h.fragments != 0
    ensures Receiving(Opened(rx, h))
  {
    var o := Opened(rx, h);
    if rx.currentSeq != Some(h.sequence) && !Refused(h, |rx.buf|) {
      CountFalse(h.fragments, o.received[..h.fragments]);
    }
  }

  lemma StoreCounts(rx: Rx, idx: nat, data: seq<byte>)
    requires Receiving(rx)
    ensures var (rx1, stored) := Store(rx, idx, data);
            && rx1.totalFrags == rx.totalFrags && rx1.currentSeq == rx.currentSeq
            && rx1.gotFrags == CountTrue(rx1.received[..rx1.totalFrags])
            && rx1.gotFrags == rx.gotFrags + (if stored then 1 else 0)
            && (stored ==> rx.totalFrags > 0)
  {
    var (rx1, stored) := Store(rx, idx, data);
    if stored {
      CountSet(rx.received[..rx.totalFrags], idx);
      assert rx1.received[..rx1.totalFrags] == rx.received[..rx.totalFrags][idx := true];
    }
  }

  /** Every datagram, honest or not, keeps the counter right: it is the number of flags below `totalFrags`
      and stays below it while a sequence is open. */
  lemma IngestKeepsCounts(rx: Rx, packet: Packet)
    requires Sane(rx) && Counts(rx)
    ensures Counts(Ingest(rx, packet).0)
  {
    if packet.Packet? && packet.header.fragments != 0 {
      OpenedReceives(rx, packet.header);
      StoreCounts(Opened(rx, packet.header), packet.header.fragment, packet.payload);
    }
  }

  /** The receiver invariant over every run of arbitrary datagrams. */
  lemma {:induction false} RunKeepsCounts(rs: seq<Rx>, ds: seq<Packet>, k: nat)
    requires Run(rs, ds) && Counts(rs[0]) && k <= |ds|
    ensures Sane(rs[k]) && Counts(rs[k])
  {
    if k != 0 {
      RunKeepsCounts(rs, ds, k - 1);
      assert Takes(rs, ds, k - 1);
      IngestKeepsCounts(rs[k - 1], ds[k - 1]);
    }
  }

  // ---------- the code, in place ----------

  class Receiver {
    const maxPayload: nat
    const buf: array<byte>
    const received: array<bool>
    var currentSeq: Option<u32>
    var totalFrags: u16
    var gotFrags: u16
    var payloadSize: nat
    var detectedFragSize: nat
    var lastSourceUs: u64
    var lastFragmentCount: u16
    var droppedSequences: nat
    var lastBufOffset: u32

    ghost function View(): Rx
      reads this, buf, received
    {
      Rx(buf[..], received[..], currentSeq, totalFrags, gotFrags, payloadSize, detectedFragSize,
         lastSourceUs, lastFragmentCount, droppedSequences, lastBufOffset)
    }

    ghost predicate Valid()
      reads this, buf, received
    {
      Sane(View()) && Counts(View()) && buf.Length == maxPayload
    }

    constructor (maxPayload: nat)
      ensures Valid() && fresh(buf) && fresh(received)
      ensures View() == Initial(maxPayload)
    {
      this.maxPayload := maxPayload;
      buf := new byte[maxPayload](_ => 0);
      received := new bool[MAX_FRAGMENTS](_ => false);
      currentSeq := None;
      totalFrags, gotFrags, payloadSize, detectedFragSize := 0, 0, 0, 0;
      lastSourceUs, lastFragmentCount, droppedSequences := 0, 0, 0;
      lastBufOffset := U32_MAX;
      new;
      assert buf[..] == Zeros(maxPayload);
      assert received[..] == seq(MAX_FRAGMENTS, _ => false);
    }

    method ResetFor(h: Header)
      requires received.Length == MAX_FRAGMENTS && buf.Length == maxPayload
      modifies this, received
      ensures View() == Reset(old(View()), h)
    {
      if 0 < gotFrags < totalFrags {
        droppedSequences := droppedSequences + 1;
      }
      if h.fragments > MAX_FRAGMENTS || h.payloadSize > maxPayload {
        currentSeq := Some(h.sequence);
        totalFrags := 0;
        gotFrags := 0;
        return;
      }
      currentSeq := Some(h.sequence);
      totalFrags := h.fragments;
      gotFrags := 0;
      payloadSize := h.payloadSize;
      lastBufOffset := h.bufOffset;
      detectedFragSize := 0;
      forall k | 0 <= k < h.fragments {
        received[k] := false;
      }
      assert received[..] == seq(h.fragments, _ => false) + old(received[..])[h.fragments..];
    }

    method OpenFor(h: Header)
      requires received.Length == MAX_FRAGMENTS && buf.Length == maxPayload
      modifies this, received
      ensures View() == Opened(old(View()), h)
    {
      if h.fragment == 0 {
        lastSourceUs := h.sourceUs;
      }
      var newSeq := match currentSeq case Some(s) => s != h.sequence case None => true;
      if newSeq {
        ResetFor(h);
      }
    }

    method StoreFragment(idx: u16, data: seq<byte>) returns (stored: bool)
      requires received.Length == MAX_FRAGMENTS && totalFrags <= MAX_FRAGMENTS
      requires gotFrags <= totalFrags
      modifies this, buf, received
      ensures (View(), stored) == Store(old(View()), idx, data)
    {
      if idx >= totalFrags || received[idx] {
        return false;
      }
      if |data| > MAX_PAYLOAD_PER_DATAGRAM {
        return false;
      }
      if idx < totalFrags - 1 && detectedFragSize == 0 {
        detectedFragSize := |data|;
      }
      var fragSize := if detectedFragSize > 0 then detectedFragSize else MAX_PAYLOAD_PER_DATAGRAM;
      var destOffset := idx * fragSize;
      OffsetIsProduct(idx, fragSize);
      if destOffset + |data| > buf.Length {
        return false;
      }
      ghost var before := buf[..];
      forall k | 0 <= k < |data| {
        buf[destOffset + k] := data[k];
      }
      received[idx] := true;
      gotFrags := gotFrags + 1;
      assert buf[..] == Splice(before, destOffset, data);
      assert received[..] == old(received[..])[idx := true];
      stored := true;
    }

    method IngestDatagram(datagram: seq<byte>) returns (r: Ingested)
      requires Valid()
      modifies this, buf, received
      ensures Valid()
      ensures (View(), r) == Ingest(old(View()), Parse(datagram))
    {
      if |datagram| < HEADER_SIZE {
        return NOTHING;
      }
      var h := Decode(datagram);
      if h.fragments == 0 {
        return NOTHING.(heartbeat := true);
      }
      OpenedReceives(View(), h);
      IngestKeepsCounts(View(), Parse(datagram));
      OpenFor(h);
      var firstFrag := h.fragment == 0;
      StoreCounts(View(), h.fragment, datagram[HEADER_SIZE..]);
      var stored := StoreFragment(h.fragment, datagram[HEADER_SIZE..]);
      if stored && gotFrags == totalFrags {
        lastFragmentCount := totalFrags;
        currentSeq := None;
        r := Ingested(Some(buf[..payloadSize]), firstFrag, false, lastBufOffset);
      } else {
        r := NOTHING.(newSeq := firstFrag);
      }
    }
  }
}
