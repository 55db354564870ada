/** The whole pipeline over a channel that loses, reorders and repeats datagrams, with a target that may go stale at any
    time: it applies the frames of some delivery order of emitted frames, so the exact error of `Deltas` holds of it. */
module Shuffled {
  import opened Options
  import opened Bytes
  import opened Wire
  import opened Irsdk
  import opened Codec
  import opened Source
  import opened SourceRuns
  import opened Target
  import D = Deltas
  import E = EndToEnd
  import F = Fragmentation
  import R = Reassembly
  import C = Channel
  import A = Assembler
  import B = Assemblies

  // ---------- the receiver inside the target ----------

  /** The two states differ at most in the drop counter, which the target moves to its statistics. */
  predicate Alike(r: R.Rx, q: R.Rx) {
    r.(dropped := q.dropped) == q
  }

  lemma OpenedAlike(r: R.Rx, q: R.Rx, h: Header)
    requires R.Sane(r) && R.Sane(q) && Alike(r, q)
    ensures Alike(R.Opened(r, h), R.Opened(q, h))
  {
  }

  lemma StoreAlike(r: R.Rx, q: R.Rx, idx: nat, data: seq<byte>)
    requires |r.received| == MAX_FRAGMENTS && r.totalFrags <= MAX_FRAGMENTS && Alike(r, q)
    ensures Alike(R.Store(r, idx, data).0, R.Store(q, idx, data).0)
    ensures R.Store(r, idx, data).1 == R.Store(q, idx, data).1
  {
  }

  lemma DeliverAlike(r: R.Rx, q: R.Rx, stored: bool, firstFrag: bool)
    requires r.payloadSize <= |r.buf| && Alike(r, q)
    ensures Alike(R.Deliver(r, stored, firstFrag).0, R.Deliver(q, stored, firstFrag).0)
    ensures R.Deliver(r, stored, firstFrag).1 == R.Deliver(q, stored, firstFrag).1
  {
  }

  /** The receiver never looks at the drop counter. */
  lemma IngestIgnoresDropped(r: R.Rx, q: R.Rx, packet: Packet)
    requires R.Sane(r) && R.Sane(q) && Alike(r, q)
    ensures R.Ingest(r, packet).1 == R.Ingest(q, packet).1
    ensures Alike(R.Ingest(r, packet).0, R.Ingest(q, packet).0)
  {
    if packet.Packet? && packet.header.fragments != 0 {
      var h, d := packet.header, packet.payload;
      OpenedAlike(r, q, h);
      StoreAlike(R.Opened(r, h), R.Opened(q, h), h.fragment, d);
      var (r1, stored) := R.Store(R.Opened(r, h), h.fragment, d);
      DeliverAlike(r1, R.Store(R.Opened(q, h), h.fragment, d).0, stored, h.fragment == 0);
    }
  }

  /** What a stale timeout before the datagram leaves of the target. */
  function Aged(s: TargetState, stale: bool): (r: TargetState)
    requires ValidState(s)
    ensures ValidState(r) && r.rx == s.rx
  {
    if stale then s.(t := Stale(s.t)) else s
  }

  /** Arrival `k` takes the target from `qs[k]` to `qs[k + 1]`; `stale[k]` tells whether it goes stale before. */
  ghost predicate Hears(link: E.Link, qs: seq<TargetState>, run: seq<A.Arrival>, stale: seq<bool>, k: nat)
    requires k < |run| == |stale| && |qs| == |run| + 1 && Bounded(link.codec)
  {
    && A.Arrives(run[k]) && ValidState(qs[k])
    && qs[k + 1] == OnPacket(link.codec, Aged(qs[k], stale[k]), A.Seen(run[k])).0
  }

  /** The messages sent are those of the frames; `events[q]` is the event whose frame has sequence number `q`. */
  ghost predicate CarriesFrames(link: E.Link, sent: map<u32, F.Message>, events: map<u32, nat>, fs: seq<Option<Frame>>)
    requires link.p > 0
  {
    forall q | q in sent :: CarriesFrame(link, sent, events, fs, q)
  }

  ghost predicate CarriesFrame(link: E.Link, sent: map<u32, F.Message>, events: map<u32, nat>, fs: seq<Option<Frame>>,
                               q: u32)
    requires link.p > 0 && q in sent
  {
    && q in events && events[q] < |fs| && fs[events[q]].Some?
    && sent[q] == E.Envelope(link, q, fs[events[q]].value, sent[q].sourceUs)
  }

  /** Source, channel and target over an honest run of datagrams. */
  datatype Pipe = Pipe(
    link: E.Link, ss: seq<Src>, es: seq<Event>, fs: seq<Option<Frame>>,
    sent: map<u32, F.Message>, events: map<u32, nat>,
    run: seq<A.Arrival>, stale: seq<bool>, rs: seq<R.Rx>, qs: seq<TargetState>, maxPayload: nat)

  predicate Sizes(w: Pipe) {
    |w.stale| == |w.run| && |w.rs| == |w.qs| == |w.run| + 1 && forall k | 0 <= k < |w.run| :: A.Arrives(w.run[k])
  }

  ghost predicate Shuffle(w: Pipe) {
    && Sizes(w) && w.link.p > 0 && Bounded(w.link.codec) && Faithful(w.link.codec, w.maxPayload)
    && Run(w.link.cfg, w.ss, w.es, w.fs) && CarriesFrames(w.link, w.sent, w.events, w.fs)
    && B.Receives(w.sent, w.run, w.rs, w.maxPayload)
    && ValidState(w.qs[0]) && Alike(w.rs[0], w.qs[0].rx)
    && forall k | 0 <= k < |w.run| :: Hears(w.link, w.qs, w.run, w.stale, k)
  }

  lemma RunAt(w: Pipe, j: nat, k: nat)
    requires Shuffle(w) && j < |w.run| && k == j + 1
    ensures R.Takes(w.rs, A.WireRun(w.run), j) && R.Sane(w.rs[j]) && w.rs[k] == R.Ingest(w.rs[j], A.Seen(w.run[j])).0
    ensures R.Result(w.rs, A.WireRun(w.run), j) == R.Ingest(w.rs[j], A.Seen(w.run[j])).1
  {
    assert R.Takes(w.rs, A.WireRun(w.run), j);
  }

  lemma {:induction false} StaysAlike(w: Pipe, k: nat)
    requires Shuffle(w) && k <= |w.run|
    ensures R.Sane(w.rs[k]) && ValidState(w.qs[k]) && Alike(w.rs[k], w.qs[k].rx)
  {
    if k > 0 {
      StaysAlike(w, k - 1);
      assert Hears(w.link, w.qs, w.run, w.stale, k - 1);
      RunAt(w, k - 1, k);
      IngestIgnoresDropped(w.rs[k - 1], w.qs[k - 1].rx, A.Seen(w.run[k - 1]));
    }
  }

  // ---------- one arrival ----------

  /** The target applies the frame, exactly as it was emitted. */
  predicate TakesFrame(t: Tgt, t1: Tgt, f: Frame)
    requires ValidTgt(t)
  {
    |f.payload| <= MAX_TELEMETRY_SIZE && t1 == Message(t, f.bufOffset, Some(f.payload))
  }

  /** The target applies something at the frame's offset. */
  ghost predicate TakesOther(t: Tgt, t1: Tgt, f: Frame)
    requires ValidTgt(t)
  {
    exists dec: Option<seq<byte>> | dec.Some? ==> |dec.value| <= MAX_TELEMETRY_SIZE ::
      t1 == Message(t, f.bufOffset, dec)
  }

  lemma DeliveryTakesFrame(link: E.Link, s: TargetState, packet: Packet, r: R.Rx, m: F.Message, f: Frame,
                           maxPayload: nat)
    requires ValidState(s) && Bounded(link.codec) && Faithful(link.codec, maxPayload) && link.p > 0
    requires R.Sane(r) && Alike(r, s.rx) && R.Ingest(r, packet).1.assembled.Some?
    requires R.Ingest(r, packet).1.bufOffset == m.bufOffset && |f.payload| <= MAX_TELEMETRY_SIZE
    requires m == E.Envelope(link, m.sequence, f, m.sourceUs)
    ensures var t1 := OnPacket(link.codec, s, packet).0.t;
            && TakesOther(s.t, t1, f)
            && (R.Ingest(r, packet).1.assembled == Some(m.data) ==> TakesFrame(s.t, t1, f))
  {
    IngestIgnoresDropped(r, s.rx, packet);
    var dec := link.codec.decompress(R.Ingest(r, packet).1.assembled.value);
    assert OnPacket(link.codec, s, packet).0.t == Message(s.t, f.bufOffset, dec);
  }

  lemma SilenceKeeps(link: E.Link, s: TargetState, packet: Packet, r: R.Rx)
    requires ValidState(s) && Bounded(link.codec)
    requires R.Sane(r) && Alike(r, s.rx) && R.Ingest(r, packet).1.assembled == None
    ensures OnPacket(link.codec, s, packet).0.t == s.t
  {
    IngestIgnoresDropped(r, s.rx, packet);
  }

  lemma EmittedIsSmall(cfg: Config, ss: seq<Src>, es: seq<Event>, fs: seq<Option<Frame>>, j: nat)
    requires Run(cfg, ss, es, fs) && j < |fs| && fs[j].Some?
    ensures |fs[j].value.payload| <= MAX_TELEMETRY_SIZE
  {
    assert Steps(cfg, ss, es, fs, j);
    D.FrameFacts(cfg, ss[j], es[j]);
  }

  /** A payload is handed over at arrival `j`. */
  predicate Hands(w: Pipe, j: nat)
    requires Sizes(w) && j < |w.run|
  {
    w.run[j].Frag? && B.HandsOver(w.rs, w.run, w.run[j].m, j)
  }

  /** And the assembly that ends there did not begin with a blind final fragment. */
  ghost predicate Clean(w: Pipe, j: nat)
    requires Sizes(w) && j < |w.run| && w.run[j].Frag?
  {
    forall x | 0 <= x <= j && B.LatestBegin(w.rs, w.run, w.run[j].m, x, j + 1) :: !C.Blind(w.run[j].m, w.run[x].i, {})
  }

  /** The event whose frame the arriving fragment belongs to. */
  predicate FrameOf(w: Pipe, j: nat, q: nat)
    requires Sizes(w) && j < |w.run|
  {
    w.run[j].Frag? && w.run[j].m.sequence in w.events && q == w.events[w.run[j].m.sequence] < |w.fs| && w.fs[q].Some?
  }

  lemma FrameArriving(w: Pipe, j: nat) returns (q: nat)
    requires Shuffle(w) && j < |w.run| && w.run[j].Frag?
    ensures FrameOf(w, j, q) && |w.fs[q].value.payload| <= MAX_TELEMETRY_SIZE
    ensures w.run[j].m == E.Envelope(w.link, w.run[j].m.sequence, w.fs[q].value, w.run[j].m.sourceUs)
  {
    assert A.SentAs(w.sent, w.run[j].m);
    assert CarriesFrame(w.link, w.sent, w.events, w.fs, w.run[j].m.sequence);
    q := w.events[w.run[j].m.sequence];
    EmittedIsSmall(w.link.cfg, w.ss, w.es, w.fs, q);
  }

  /** What one arrival does to the target behind a possible stale reset: nothing, or the frame of one event exactly as
      it was emitted, or, when the assembly began with a blind final fragment, something at that frame's offset. */
  lemma ArrivalTakesFrame(w: Pipe, j: nat, k: nat)
    requires Shuffle(w) && j < |w.run| && k == j + 1
    ensures ValidState(w.qs[j])
    ensures var t := Aged(w.qs[j], w.stale[j]).t;
            if !Hands(w, j) then w.qs[k].t == t
            else
              exists q: nat ::
                && FrameOf(w, j, q) && TakesOther(t, w.qs[k].t, w.fs[q].value)
                && (Clean(w, j) ==> TakesFrame(t, w.qs[k].t, w.fs[q].value))
  {
    StaysAlike(w, j);
    RunAt(w, j, k);
    B.NoMixing(w.sent, w.run, w.rs, w.maxPayload, j);
    assert Hears(w.link, w.qs, w.run, w.stale, j);
    var s := Aged(w.qs[j], w.stale[j]);
    if Hands(w, j) {
      var q := FrameArriving(w, j);
      var x :| 0 <= x <= j && B.HandsOverSound(w.rs, w.run, x, j);
      DeliveryTakesFrame(w.link, s, A.Seen(w.run[j]), w.rs[j], w.run[j].m, w.fs[q].value, w.maxPayload);
    } else {
      SilenceKeeps(w.link, s, A.Seen(w.run[j]), w.rs[j]);
    }
  }

  // ---------- the order of a stretch ----------

  /** The events whose frames are applied by the arrivals from `a` up to `b`. */
  ghost function Order(w: Pipe, a: nat, b: nat): seq<nat>
    requires Sizes(w) && a <= b <= |w.run|
    decreases b
  {
    if a == b then []
    else
      var before := Order(w, a, b - 1);
      if Hands(w, b - 1) && w.run[b - 1].m.sequence in w.events then before + [w.events[w.run[b - 1].m.sequence]]
      else before
  }

  /** No stale reset comes before arrival `k`, and it hands over nothing, or whole a delta of length `L` emitted before
      event `n`. */
  ghost predicate DeltaOnly(w: Pipe, L: nat, n: nat, k: nat)
    requires Sizes(w) && k < |w.run|
  {
    && !w.stale[k]
    && (Hands(w, k) ==>
          && Clean(w, k)
          && (w.run[k].m.sequence in w.events ==>
                D.DeltaOf(w.fs, w.events[w.run[k].m.sequence], L) && w.events[w.run[k].m.sequence] < n))
  }

  /** The target's states along the order. */
  lemma {:induction false} StretchIsDelivery(w: Pipe, L: nat, n: nat, a: nat, b: nat)
    returns (ts: seq<Tgt>)
    requires Shuffle(w) && a <= b <= |w.run| && forall k | a <= k < b :: DeltaOnly(w, L, n, k)
    ensures var order := Order(w, a, b);
            && |ts| == |order| + 1 && ts[0] == w.qs[a].t && ts[|order|] == w.qs[b].t
            && D.Delivery(ts, w.fs, order, L) && forall y | 0 <= y < |order| :: order[y] < n
    decreases b
  {
    if a == b {
      ts := [w.qs[a].t];
    } else {
      ts := StretchIsDelivery(w, L, n, a, b - 1);
      ArrivalTakesFrame(w, b - 1, b);
      assert DeltaOnly(w, L, n, b - 1);
      if Hands(w, b - 1) {
        ts := DeliveryGrows(ts, w.fs, Order(w, a, b - 1), w.events[w.run[b - 1].m.sequence], L, w.qs[b].t);
      }
    }
  }

  lemma DeliveryGrows(ts: seq<Tgt>, fs: seq<Option<Frame>>, order: seq<nat>, j: nat, L: nat, t1: Tgt)
    returns (us: seq<Tgt>)
    requires D.Delivery(ts, fs, order, L) && D.DeltaOf(fs, j, L) && ValidTgt(ts[|order|])
    requires TakesFrame(ts[|order|], t1, fs[j].value)
    ensures us == ts + [t1] && D.Delivery(us, fs, order + [j], L)
  {
    us := ts + [t1];
    var order1 := order + [j];
    forall x | 0 <= x < |order1| ensures D.Takes(us, fs, order1, L, x) {
      if x < |order| {
        assert D.Takes(ts, fs, order, L, x);
      }
    }
  }

  /** The exact error of the whole pipeline: on every honest run of datagrams with loss, reordering, repeats and stale
      resets, from any moment at which the target has just applied the keyframe of event `i`, and as long as only deltas
      of its length are handed over, whole, and the target does not go stale: the XOR of the two previous frames is the
      XOR of the changes that are out of step with what was handed over. */
  lemma ExactErrorOfPipeline(w: Pipe, i: nat, n: nat, a: nat, b: nat, L: nat)
    requires Shuffle(w) && a <= b <= |w.run|
    requires i < n <= |w.es| && D.Keyed(w.qs[a].t, w.ss, w.fs, i) && L == |w.fs[i].value.payload|
    requires forall k | a <= k < b :: DeltaOnly(w, L, n, k)
    ensures ValidTgt(w.qs[b].t)
    ensures var order := Order(w, a, b);
            && Xor(D.Front(w.ss, n, L), w.qs[b].t.prev[..L]) == D.Gap(w.ss, order, i, n, L)
            && (w.qs[b].t.prev[..L] == D.Front(w.ss, n, L) <==> D.Gap(w.ss, order, i, n, L) == Zeros(L))
  {
    var ts := StretchIsDelivery(w, L, n, a, b);
    D.ExactError(w.link.cfg, w.ss, w.es, w.fs, i, n, ts, Order(w, a, b), L);
  }
}
