/** The abstract assembler: what a run of datagrams makes the receiver hand over, in terms of messages and fragment
    indices only, and the proof that the byte-level receiver does the same on every run. */
module Assembler {
  import opened Options
  import opened Bytes
  import opened Wire
  import opened Fragmentation
  import opened Reassembly
  import opened Channel
  import opened Misplaced

  /** One datagram coming out of the channel: a heartbeat, or fragment `i` of `m` (any number of times, in
      any order, or never). */
  datatype Arrival = Beat | Frag(m: Message, i: nat)

  predicate Arrives(x: Arrival) {
    x.Frag? ==> Honest(x.m) && x.i < NumFrags(x.m)
  }

  /** The bytes of one arrival. */
  function WireBytes(x: Arrival): seq<byte>
    requires Arrives(x)
  {
    match x
    case Beat => Encode(HEARTBEAT)
    case Frag(m, i) => Datagram(m, i)
  }

  /** What the receiver sees of it. */
  function Seen(x: Arrival): Packet
    requires Arrives(x)
  {
    match x
    case Beat => Packet(HEARTBEAT, [])
    case Frag(m, i) => PacketOf(m, i)
  }

  lemma SeenIsParsed(x: Arrival)
    requires Arrives(x)
    ensures Parse(WireBytes(x)) == Seen(x)
  {
    match x
    case Beat =>
      ParseEncoded(HEARTBEAT, []);
      assert Encode(HEARTBEAT) + [] == Encode(HEARTBEAT);
    case Frag(m, i) =>
      DatagramParses(m, i);
  }

  /** `spoilt`: the final fragment came first and was stored away from its place. */
  datatype Phase = Idle | Ignoring(m: Message) | Collecting(m: Message, got: set<nat>, spoilt: bool)

  datatype State = State(phase: Phase, dropped: nat)

  /** A payload that is handed over: the message, or the message with a spoilt final chunk. */
  datatype Handed = Handed(m: Message, spoilt: bool)

  /** Turn to message `m`, giving up an unfinished other one. */
  function Open(a: State, m: Message, maxPayload: nat): State
    requires m.p > 0
  {
    if !a.phase.Idle? && a.phase.m.sequence == m.sequence then a
    else State(if Acceptable(m, maxPayload) then Collecting(m, {}, false) else Ignoring(m),
               a.dropped + if a.phase.Collecting? && a.phase.got != {} then 1 else 0)
  }

  function Step(a: State, x: Arrival, maxPayload: nat): (State, Option<Handed>)
    requires Arrives(x)
  {
    match x
    case Beat => (a, None)
    case Frag(m, i) =>
      var o := Open(a, m, maxPayload);
      if !o.phase.Collecting? then (o, None)
      else
        var got := Kept(m, o.phase.got, i, maxPayload);
        var spoilt := o.phase.spoilt || Misplaces(m, i, o.phase.got, maxPayload);
        if Complete(m, got) then (o.(phase := Idle), Some(Handed(m, spoilt)))
        else (o.(phase := Collecting(m, got, spoilt)), None)
  }

  ghost predicate Related(a: State, rx: Rx) {
    && Sane(rx) && a.dropped == rx.dropped
    && match a.phase
       case Idle => rx.currentSeq == None && rx.gotFrags == rx.totalFrags
       case Ignoring(m) => rx.currentSeq == Some(m.sequence) && rx.totalFrags == 0
       case Collecting(m, got, spoilt) =>
         && Honest(m) && Acceptable(m, |rx.buf|) && (0 in got ==> rx.lastSourceUs == m.sourceUs)
         && if spoilt then Spoilt(m, got, rx) else Holds(m, got, rx)
  }

  /** The payload `d` is what the assembler hands over. */
  predicate Matches(h: Handed, d: seq<byte>) {
    Honest(h.m) && AllButFinal(h.m, d) && (!h.spoilt ==> d == h.m.data)
  }

  /** The receiver's answer is the assembler's, and the offset and source time are those of the message. */
  predicate SameDelivery(out: Option<Handed>, r: Ingested, sourceUs: u64) {
    && (out.Some? <==> r.assembled.Some?)
    && (out.Some? ==>
          Matches(out.value, r.assembled.value) && r.bufOffset == out.value.m.bufOffset
          && sourceUs == out.value.m.sourceUs)
  }

  // ---------- one datagram ----------

  lemma OpenDropsAgree(a: State, rx: Rx, m: Message, h: Header)
    requires Related(a, rx) && m.p > 0 && h.sequence == m.sequence
    ensures Open(a, m, |rx.buf|).dropped == Opened(rx, h).dropped
  {
    if a.phase.Collecting? {
      FullSet(a.phase.got, NumFrags(a.phase.m));
    }
  }

  lemma IngestKeepsDropped(rx: Rx, h: Header, data: seq<byte>)
    requires Sane(rx) && h.fragments != 0
    ensures IngestFragment(rx, h, data).0.dropped == Opened(rx, h).dropped
  {
  }

  lemma DropsAgree(a: State, rx: Rx, m: Message, i: nat)
    requires Related(a, rx) && Honest(m) && i < NumFrags(m)
    ensures Open(a, m, |rx.buf|).dropped == Ingest(rx, PacketOf(m, i)).0.dropped
  {
    OpenDropsAgree(a, rx, m, PacketOf(m, i).header);
    IngestKeepsDropped(rx, PacketOf(m, i).header, Chunk(m, i));
  }

  lemma RefusedStep(a: State, rx: Rx, m: Message, i: nat)
    requires Related(a, rx) && Honest(m) && i < NumFrags(m) && Open(a, m, |rx.buf|).phase == Ignoring(m)
    ensures var (rx1, r) := Ingest(rx, PacketOf(m, i));
            rx1.currentSeq == Some(m.sequence) && rx1.totalFrags == 0 && r.assembled == None && !r.heartbeat
  {
  }

  lemma WholeMatches(m: Message)
    requires Honest(m)
    ensures Matches(Handed(m, false), m.data)
  {
  }

  /** A fragment of the message being collected, without a spoilt final chunk before or after it. */
  lemma CleanRefines(a: State, rx: Rx, m: Message, got: set<nat>, i: nat)
    requires Honest(m) && i < NumFrags(m) && Ready(m, got, rx) && (0 in got ==> rx.lastSourceUs == m.sourceUs)
    requires !Misplaces(m, i, got, |rx.buf|)
    requires a == State(if Complete(m, Kept(m, got, i, |rx.buf|)) then Idle
                        else Collecting(m, Kept(m, got, i, |rx.buf|), false), Ingest(rx, PacketOf(m, i)).0.dropped)
    ensures var (rx1, r) := Ingest(rx, PacketOf(m, i));
            && Related(a, rx1) && !r.heartbeat
            && SameDelivery(if a.phase.Idle? then Some(Handed(m, false)) else None, r, rx1.lastSourceUs)
  {
    CollectStep(m, got, rx, i);
    WholeMatches(m);
  }

  lemma SpoiltRefines(a: State, rx: Rx, m: Message, got: set<nat>, i: nat)
    requires Honest(m) && i < NumFrags(m) && Spoilt(m, got, rx) && (0 in got ==> rx.lastSourceUs == m.sourceUs)
    requires a == State(if Complete(m, got + {i}) then Idle else Collecting(m, got + {i}, true),
                        Ingest(rx, PacketOf(m, i)).0.dropped)
    ensures var (rx1, r) := Ingest(rx, PacketOf(m, i));
            && Related(a, rx1) && !r.heartbeat
            && SameDelivery(if a.phase.Idle? then Some(Handed(m, true)) else None, r, rx1.lastSourceUs)
  {
    SpoiltStep(m, got, rx, i);
  }

  lemma MisplaceRefines(a: State, rx: Rx, m: Message, i: nat)
    requires Honest(m) && i < NumFrags(m) && Ready(m, {}, rx) && Misplaces(m, i, {}, |rx.buf|)
    requires a == State(Collecting(m, {i}, true), Ingest(rx, PacketOf(m, i)).0.dropped)
    ensures var (rx1, r) := Ingest(rx, PacketOf(m, i));
            Related(a, rx1) && !r.heartbeat && SameDelivery(None, r, rx1.lastSourceUs)
  {
    MisplaceStep(m, rx, i);
  }

  /** The step of a message that is not refused. */
  lemma CollectRefines(a: State, rx: Rx, m: Message, i: nat)
    requires Related(a, rx) && Honest(m) && i < NumFrags(m) && Open(a, m, |rx.buf|).phase.Collecting?
    requires !a.phase.Idle? && a.phase.m.sequence == m.sequence ==> a.phase.m == m
    ensures var (a1, out) := Step(a, Frag(m, i), |rx.buf|);
            var (rx1, r) := Ingest(rx, PacketOf(m, i));
            Related(a1, rx1) && !r.heartbeat && SameDelivery(out, r, rx1.lastSourceUs)
  {
    var o := Open(a, m, |rx.buf|);
    var (a1, out) := Step(a, Frag(m, i), |rx.buf|);
    DropsAgree(a, rx, m, i);
    if o.phase.spoilt {
      assert !Blind(m, i, o.phase.got);
      SpoiltRefines(a1, rx, m, o.phase.got, i);
    } else if Misplaces(m, i, o.phase.got, |rx.buf|) {
      FinalAlone(m);
      assert o.phase.got + {i} == {i};
      MisplaceRefines(a1, rx, m, i);
    } else {
      CleanRefines(a1, rx, m, o.phase.got, i);
    }
  }

  /** The receiver refines the assembler, one datagram at a time, on every datagram. */
  lemma StepRefines(a: State, rx: Rx, x: Arrival)
    requires Related(a, rx) && Arrives(x)
    requires x.Frag? && !a.phase.Idle? && a.phase.m.sequence == x.m.sequence ==> a.phase.m == x.m
    ensures var (a1, out) := Step(a, x, |rx.buf|);
            var (rx1, r) := Ingest(rx, Seen(x));
            Related(a1, rx1) && r.heartbeat == x.Beat? && SameDelivery(out, r, rx1.lastSourceUs)
  {
    match x
    case Beat =>
    case Frag(m, i) =>
      if Open(a, m, |rx.buf|).phase.Collecting? {
        CollectRefines(a, rx, m, i);
      } else {
        DropsAgree(a, rx, m, i);
        RefusedStep(a, rx, m, i);
      }
  }

  // ---------- whole runs ----------

  /** The datagrams of a run as the receiver sees them. */
  function WireRun(run: seq<Arrival>): (ds: seq<Packet>)
    requires forall k | 0 <= k < |run| :: Arrives(run[k])
    ensures |ds| == |run|
  {
    seq(|run|, k requires 0 <= k < |run| => Seen(run[k]))
  }

  /** They are what parsing the bytes gives. */
  lemma WireRunIsParsed(run: seq<Arrival>, k: nat)
    requires (forall k | 0 <= k < |run| :: Arrives(run[k])) && k < |run|
    ensures WireRun(run)[k] == Parse(WireBytes(run[k]))
  {
    SeenIsParsed(run[k]);
  }

  /** Arrival `k` takes the assembler from `states[k]` to `states[k + 1]`. */
  predicate Moves(states: seq<State>, run: seq<Arrival>, maxPayload: nat, k: nat)
    requires k < |run| && |states| == |run| + 1
  {
    Arrives(run[k]) && states[k + 1] == Step(states[k], run[k], maxPayload).0
  }

  /** `states` are the states of the assembler over a run, from idle. */
  ghost predicate AssemblerRun(states: seq<State>, run: seq<Arrival>, maxPayload: nat) {
    |states| == |run| + 1 && states[0] == State(Idle, 0)
    && forall k | 0 <= k < |run| :: Moves(states, run, maxPayload, k)
  }

  /** What the assembler hands over on arrival `k`, if anything. */
  function Delivered(states: seq<State>, run: seq<Arrival>, maxPayload: nat, k: nat): Option<Handed>
    requires k < |run| && |states| == |run| + 1 && Moves(states, run, maxPayload, k)
  {
    Step(states[k], run[k], maxPayload).1
  }

  /** An honest run: every datagram was produced by `send`, and a sequence number belongs to one message. */
  ghost predicate HonestRun(sent: map<u32, Message>, run: seq<Arrival>) {
    forall k | 0 <= k < |run| :: Arrives(run[k]) && (run[k].Frag? ==> SentAs(sent, run[k].m))
  }

  ghost predicate SentAs(sent: map<u32, Message>, m: Message) {
    m.sequence in sent && sent[m.sequence] == m
  }

  /** The situation after `k` arrivals: receiver and assembler agree. */
  ghost predicate InStep(sent: map<u32, Message>, a: State, rx: Rx, maxPayload: nat) {
    |rx.buf| == maxPayload && Related(a, rx) && (!a.phase.Idle? ==> SentAs(sent, a.phase.m))
  }

  lemma InStepOnce(sent: map<u32, Message>, a: State, rx: Rx, x: Arrival, maxPayload: nat)
    requires Arrives(x) && (x.Frag? ==> SentAs(sent, x.m)) && InStep(sent, a, rx, maxPayload)
    ensures InStep(sent, Step(a, x, maxPayload).0, Ingest(rx, Seen(x)).0, maxPayload)
    ensures SameDelivery(Step(a, x, maxPayload).1, Ingest(rx, Seen(x)).1, Ingest(rx, Seen(x)).0.lastSourceUs)
  {
    StepRefines(a, rx, x);
  }

  /** The states of assembler and receiver over one honest run. */
  ghost predicate Together(sent: map<u32, Message>, run: seq<Arrival>, states: seq<State>, rs: seq<Rx>,
                           maxPayload: nat) {
    && HonestRun(sent, run) && AssemblerRun(states, run, maxPayload)
    && Run(rs, WireRun(run)) && rs[0] == Initial(maxPayload)
  }

  lemma TogetherAt(sent: map<u32, Message>, run: seq<Arrival>, states: seq<State>, rs: seq<Rx>, maxPayload: nat,
                   j: nat, k: nat)
    requires Together(sent, run, states, rs, maxPayload) && j < |run| && k == j + 1
    ensures Moves(states, run, maxPayload, j) && Takes(rs, WireRun(run), j)
    ensures states[k] == Step(states[j], run[j], maxPayload).0 && rs[k] == Ingest(rs[j], Seen(run[j])).0
    ensures WireRun(run)[j] == Seen(run[j])
    ensures Arrives(run[j]) && (run[j].Frag? ==> SentAs(sent, run[j].m))
  {
    assert Moves(states, run, maxPayload, j);
    assert Takes(rs, WireRun(run), j);
  }

  /** The receiver refines the assembler on every run with loss, reordering, repetition and heartbeats. */
  lemma {:induction false} RunRefines(sent: map<u32, Message>, run: seq<Arrival>, states: seq<State>, rs: seq<Rx>,
                                      maxPayload: nat, k: nat)
    requires Together(sent, run, states, rs, maxPayload) && k <= |run|
    ensures InStep(sent, states[k], rs[k], maxPayload)
  {
    if k != 0 {
      RunRefines(sent, run, states, rs, maxPayload, k - 1);
      TogetherAt(sent, run, states, rs, maxPayload, k - 1, k);
      InStepOnce(sent, states[k - 1], rs[k - 1], run[k - 1], maxPayload);
    }
  }

  /** The receiver hands over exactly what the assembler does: the arriving message with its own write offset and source
      time, whole unless its assembly was spoilt, and then right up to the final chunk. */
  lemma HandsOverAlike(sent: map<u32, Message>, run: seq<Arrival>, states: seq<State>, rs: seq<Rx>, maxPayload: nat,
                       j: nat, k: nat)
    requires Together(sent, run, states, rs, maxPayload) && j < |run| && k == j + 1
    ensures Moves(states, run, maxPayload, j) && Takes(rs, WireRun(run), j)
    ensures SameDelivery(Delivered(states, run, maxPayload, j), Result(rs, WireRun(run), j), rs[k].lastSourceUs)
    ensures Delivered(states, run, maxPayload, j).Some? ==>
              run[j].Frag? && Delivered(states, run, maxPayload, j).value.m == run[j].m
  {
    RunRefines(sent, run, states, rs, maxPayload, j);
    TogetherAt(sent, run, states, rs, maxPayload, j, k);
    InStepOnce(sent, states[j], rs[j], run[j], maxPayload);
  }
}
