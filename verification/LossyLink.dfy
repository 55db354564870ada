/** The composed pipeline over a link that drops any datagrams and a network that refuses any send half way: on the
    level of frames that is the situation in which `Healing` counts the frames that come out wrong. */
module LossyLink {
  import opened Options
  import opened Bytes
  import opened Wire
  import opened Irsdk
  import opened Codec
  import opened Source
  import opened SourceRuns
  import opened Target
  import opened Deltas
  import opened Healing
  import opened EndToEnd
  import opened LossyMessage
  import R = Reassembly
  import C = Channel

  // ---------- one event ----------

  /** What happens to an event on the way: the target may go stale before it; the send of its frame may fail at some
      datagram, which is then not sent and neither are those behind it; and of the datagrams sent those marked
      arrive. */
  datatype Weather = Weather(stale: bool, failAt: Option<nat>, arrived: seq<bool>, sourceUs: u64)

  /** The datagrams that are sent and arrive. */
  function Reached(x: Weather): (r: seq<bool>)
    ensures |r| == |x.arrived|
  {
    seq(|x.arrived|, i requires 0 <= i < |x.arrived| => x.arrived[i] && (x.failAt.None? || i < x.failAt.value))
  }

  /** The send reaches its end. */
  predicate Completes(x: Weather) {
    x.failAt.None? || x.failAt.value >= |x.arrived|
  }

  /** At least one datagram gets through. */
  predicate Touches(x: Weather) {
    exists i | 0 <= i < |x.arrived| :: Reached(x)[i]
  }

  /** What the weather leaves of the target before the event's frame. */
  function Weathered(s: TargetState, x: Weather): (r: TargetState)
    requires ValidState(s)
    ensures ValidState(r) && r.rx == s.rx
  {
    if x.stale then s.(t := Stale(s.t)) else s
  }

  /** How many datagrams the frame takes. */
  function Pieces(link: Link, f: Frame): nat
    requires link.p > 0
  {
    PieceCount(|link.codec.compress(f.payload)|, link.p)
  }

  /** The receiver does not refuse the frame's message. */
  predicate Accepted(link: Link, f: Frame)
    requires link.p > 0
  {
    Pieces(link, f) <= MAX_FRAGMENTS
  }

  /** The frame's message has as many datagrams as the weather decides about; one of more than 65535 is not sent. */
  predicate Fits(link: Link, sequence: u32, f: Option<Frame>, x: Weather)
    requires link.p > 0
  {
    f.Some? ==> |x.arrived| == Pieces(link, f.value) && (Pieces(link, f.value) > 0xFFFF ==> x.failAt == Some(0))
  }

  /** The target's side of an event that sends `f`. */
  ghost function TargetAfter(link: Link, s: TargetState, sequence: u32, f: Option<Frame>, x: Weather): (r: TargetState)
    requires ValidState(s) && Bounded(link.codec) && link.p > 0 && Fits(link, sequence, f, x)
    ensures ValidState(r)
  {
    if f.None? then Weathered(s, x)
    else FeedSome(link.codec, Weathered(s, x), Envelope(link, sequence, f.value, x.sourceUs), Reached(x))
  }

  /** Only a complete send bumps the sequence number. */
  function NextSequence(sequence: u32, f: Option<Frame>, x: Weather): u32 {
    if f.Some? && Completes(x) then (sequence + 1) % 0x1_0000_0000 else sequence
  }

  /** One event of the source and what reaches the target of it. */
  ghost function Drift(link: Link, w: World, e: Event, x: Weather): (r: World)
    requires ValidWorld(link, w) && Possible(e) && Fits(link, w.sequence, Step(link.cfg, w.src, e).1, x)
    ensures ValidWorld(link, r)
  {
    var (s1, f) := Step(link.cfg, w.src, e);
    World(s1, NextSequence(w.sequence, f, x), TargetAfter(link, w.target, w.sequence, f, x))
  }

  /** The receiver is on the number the next message will have. That takes a failed send. */
  predicate OnSequence(w: World) {
    w.target.rx.currentSeq == Some(w.sequence)
  }

  /** What becomes of a frame on a receiver that is elsewhere. */
  function CleanOutcome(link: Link, f: Frame, x: Weather): Outcome
    requires link.p > 0
  {
    if AllArrive(Reached(x)) && Accepted(link, f) then Arrives else Lost
  }

  /** The fate of the frame `f` that the event sends: it arrives when all its datagrams do and the receiver does not
      refuse it, and is lost otherwise, unless the receiver still holds fragments of a failed send; then it does not
      arrive, and something else may. */
  ghost predicate FateOf(link: Link, w: World, f: Option<Frame>, x: Weather, fate: Fate)
    requires link.p > 0
  {
    && Fair(f, fate) && fate.stale == x.stale
    && (f.None? ==> fate.outcome == Arrives)
    && (f.Some? && !OnSequence(w) ==> fate.outcome == CleanOutcome(link, f.value, x))
    && (f.Some? && OnSequence(w) ==> !fate.outcome.Arrives?)
  }

  // ---------- a frame through codec and datagrams ----------

  lemma EnvelopeFits(link: Link, sequence: u32, f: Frame, sourceUs: u64, maxPayload: nat)
    requires 0 < link.p <= MAX_PAYLOAD_PER_DATAGRAM && Faithful(link.codec, maxPayload)
    requires |f.payload| <= MAX_TELEMETRY_SIZE
    requires Pieces(link, f) <= 0xFFFF
    ensures C.Honest(Envelope(link, sequence, f, sourceUs))
    ensures C.Acceptable(Envelope(link, sequence, f, sourceUs), maxPayload) <==> Accepted(link, f)
  {
    var m := Envelope(link, sequence, f, sourceUs);
    PieceBounds(|m.data|, m.p);
  }

  /** On a receiver that is elsewhere the frame comes out as it was emitted, or nothing does. */
  lemma FrameOverLink(link: Link, s: TargetState, sequence: u32, f: Frame, sourceUs: u64, arrived: seq<bool>)
    requires 0 < link.p <= MAX_PAYLOAD_PER_DATAGRAM && Bounded(link.codec) && Faithful(link.codec, |s.rx.buf|)
    requires ValidState(s) && R.Counts(s.rx) && s.rx.currentSeq != Some(sequence)
    requires |f.payload| <= MAX_TELEMETRY_SIZE
    requires |arrived| == Pieces(link, f) <= 0xFFFF
    ensures var s1 := FeedSome(link.codec, s, Envelope(link, sequence, f, sourceUs), arrived);
            && s1.t == (if AllArrive(arrived) && Accepted(link, f) then Message(s.t, f.bufOffset, Some(f.payload))
                        else s.t)
            && |s1.rx.buf| == |s.rx.buf| && R.Counts(s1.rx)
            && (s1.rx.currentSeq == None || s1.rx.currentSeq == Some(sequence) || s1.rx.currentSeq == s.rx.currentSeq)
  {
    EnvelopeFits(link, sequence, f, sourceUs, |s.rx.buf|);
    AllOrNothing(link.codec, s, Envelope(link, sequence, f, sourceUs), arrived);
  }

  /** On a receiver that holds fragments under the frame's number at most one message comes out. */
  lemma FrameOverRemains(link: Link, s: TargetState, sequence: u32, f: Frame, sourceUs: u64, arrived: seq<bool>)
    requires 0 < link.p <= MAX_PAYLOAD_PER_DATAGRAM && Bounded(link.codec) && Faithful(link.codec, |s.rx.buf|)
    requires ValidState(s) && R.Counts(s.rx) && s.rx.currentSeq == Some(sequence)
    requires |f.payload| <= MAX_TELEMETRY_SIZE
    requires |arrived| == Pieces(link, f) <= 0xFFFF
    ensures var s1 := FeedSome(link.codec, s, Envelope(link, sequence, f, sourceUs), arrived);
            && (s1.t == s.t || AppliedOne(s.t, s1.t))
            && |s1.rx.buf| == |s.rx.buf| && R.Counts(s1.rx)
            && (s1.rx.currentSeq == None || s1.rx.currentSeq == Some(sequence))
  {
    EnvelopeFits(link, sequence, f, sourceUs, |s.rx.buf|);
    AtMostOneApplied(link.codec, s, Envelope(link, sequence, f, sourceUs), arrived);
  }

  lemma NothingArrives(link: Link, s: TargetState, sequence: u32, f: Option<Frame>, x: Weather)
    requires ValidState(s) && Bounded(link.codec) && link.p > 0 && Fits(link, sequence, f, x) && !Touches(x)
    ensures TargetAfter(link, s, sequence, f, x) == Weathered(s, x)
  {
    if f.Some? {
      var m := Envelope(link, sequence, f.value, x.sourceUs);
      var states := FeedStates(link.codec, Weathered(s, x), m, Reached(x));
      NothingFed(link.codec, states, m, Reached(x), |x.arrived|);
    }
  }

  // ---------- the state between events ----------

  /** The receiver is idle, on one of the `sent` messages that were sent completely, or, when a send has failed since
      the last of them, on the number of that one. */
  ghost predicate Receiving(s: TargetState, maxPayload: nat, sent: nat, pending: bool) {
    && ValidState(s) && |s.rx.buf| == maxPayload && R.Counts(s.rx)
    && (s.rx.currentSeq.Some? ==> s.rx.currentSeq.value < sent || (pending && s.rx.currentSeq.value == sent))
  }

  ghost predicate Underway(link: Link, w: World, maxPayload: nat, sent: nat, pending: bool) {
    ValidWorld(link, w) && w.sequence == sent % 0x1_0000_0000 && Receiving(w.target, maxPayload, sent, pending)
  }

  function SentAfter(f: Option<Frame>, x: Weather, sent: nat): nat {
    if f.Some? && Completes(x) then sent + 1 else sent
  }

  /** Whether datagrams of a failed send have arrived since the last complete one. */
  predicate PendingAfter(f: Option<Frame>, x: Weather, pending: bool) {
    if f.None? then pending else !Completes(x) && (pending || Touches(x))
  }

  lemma FrameIsSmall(cfg: Config, s: Src, e: Event)
    requires ValidSrc(s) && Possible(e)
    ensures SmallEnough(Step(cfg, s, e).1)
  {
    FrameFacts(cfg, s, e);
  }

  lemma SequenceAdvances(sequence: u32, f: Option<Frame>, x: Weather, sent: nat)
    requires sequence == sent % 0x1_0000_0000
    ensures NextSequence(sequence, f, x) == SentAfter(f, x, sent) % 0x1_0000_0000
    ensures sent < 0x1_0000_0000 ==> sequence == sent
  {
  }

  /** The target's state after an event. */
  lemma StaysReceiving(link: Link, s: TargetState, sequence: u32, f: Option<Frame>, x: Weather, maxPayload: nat,
                       sent: nat, pending: bool)
    requires Receiving(s, maxPayload, sent, pending) && SmallEnough(f) && (f.Some? ==> sequence == sent)
    requires 0 < link.p <= MAX_PAYLOAD_PER_DATAGRAM && Bounded(link.codec) && Faithful(link.codec, maxPayload)
    requires Fits(link, sequence, f, x)
    ensures Receiving(TargetAfter(link, s, sequence, f, x), maxPayload, SentAfter(f, x, sent),
                      PendingAfter(f, x, pending))
  {
    if f.Some? {
      if !Touches(x) {
        NothingArrives(link, s, sequence, f, x);
      } else if s.rx.currentSeq == Some(sequence) {
        FrameOverRemains(link, Weathered(s, x), sequence, f.value, x.sourceUs, Reached(x));
      } else {
        FrameOverLink(link, Weathered(s, x), sequence, f.value, x.sourceUs, Reached(x));
      }
    }
  }

  /** On the level of frames the event is a delivery with that fate. */
  ghost predicate Explained(link: Link, w: World, f: Option<Frame>, x: Weather, fate: Fate)
    requires ValidWorld(link, w) && Fits(link, w.sequence, f, x)
  {
    && SmallEnough(f) && FateOf(link, w, f, x, fate)
    && TargetAfter(link, w.target, w.sequence, f, x).t == Deliver(w.target.t, f, fate)
  }

  lemma RemainsHaveFate(link: Link, w: World, f: Frame, x: Weather, maxPayload: nat) returns (fate: Fate)
    requires ValidWorld(link, w) && R.Counts(w.target.rx) && |w.target.rx.buf| == maxPayload && SmallEnough(Some(f))
    requires link.p <= MAX_PAYLOAD_PER_DATAGRAM && Faithful(link.codec, maxPayload)
    requires Fits(link, w.sequence, Some(f), x) && OnSequence(w)
    ensures Explained(link, w, Some(f), x, fate)
  {
    var s := Weathered(w.target, x);
    if Pieces(link, f) <= 0xFFFF {
      FrameOverRemains(link, s, w.sequence, f, x.sourceUs, Reached(x));
    } else {
      NothingArrives(link, w.target, w.sequence, Some(f), x);
    }
    var t1 := TargetAfter(link, w.target, w.sequence, Some(f), x).t;
    fate := Fate(x.stale, Lost);
    if t1 != s.t {
      var off: u32, dec: Option<seq<byte>> :| Applies(s.t, off, dec, t1);
      fate := Fate(x.stale, Garbled(off, dec));
    }
  }

  lemma CleanFate(link: Link, w: World, f: Frame, x: Weather, maxPayload: nat)
    requires ValidWorld(link, w) && R.Counts(w.target.rx) && |w.target.rx.buf| == maxPayload && SmallEnough(Some(f))
    requires link.p <= MAX_PAYLOAD_PER_DATAGRAM && Faithful(link.codec, maxPayload)
    requires Fits(link, w.sequence, Some(f), x) && !OnSequence(w)
    ensures Explained(link, w, Some(f), x, Fate(x.stale, CleanOutcome(link, f, x)))
  {
    if Pieces(link, f) <= 0xFFFF {
      FrameOverLink(link, Weathered(w.target, x), w.sequence, f, x.sourceUs, Reached(x));
    } else {
      NothingArrives(link, w.target, w.sequence, Some(f), x);
    }
  }

  /** Every event has a fate. */
  lemma EventHasFate(link: Link, w: World, f: Option<Frame>, x: Weather, maxPayload: nat) returns (fate: Fate)
    requires ValidWorld(link, w) && R.Counts(w.target.rx) && |w.target.rx.buf| == maxPayload && SmallEnough(f)
    requires link.p <= MAX_PAYLOAD_PER_DATAGRAM && Faithful(link.codec, maxPayload)
    requires Fits(link, w.sequence, f, x)
    ensures Explained(link, w, f, x, fate)
  {
    match f
    case None =>
      fate := Fate(x.stale, Arrives);
    case Some(f0) =>
      if OnSequence(w) {
        fate := RemainsHaveFate(link, w, f0, x, maxPayload);
      } else {
        CleanFate(link, w, f0, x, maxPayload);
        fate := Fate(x.stale, CleanOutcome(link, f0, x));
      }
  }

  // ---------- runs ----------

  /** How many of the first `k` events sent a complete message. */
  ghost function SentBefore(fs: seq<Option<Frame>>, xs: seq<Weather>, k: nat): nat
    requires k <= |fs| == |xs|
  {
    if k == 0 then 0 else SentAfter(fs[k - 1], xs[k - 1], SentBefore(fs, xs, k - 1))
  }

  /** Whether the receiver can hold fragments of a failed send before event `k`. */
  ghost predicate PendingBefore(fs: seq<Option<Frame>>, xs: seq<Weather>, k: nat)
    requires k <= |fs| == |xs|
  {
    k > 0 && PendingAfter(fs[k - 1], xs[k - 1], PendingBefore(fs, xs, k - 1))
  }

  lemma {:induction false} BeforeStep(fs: seq<Option<Frame>>, xs: seq<Weather>, j: nat, k: nat)
    requires j < |fs| == |xs| && k == j + 1
    ensures SentBefore(fs, xs, k) == SentAfter(fs[j], xs[j], SentBefore(fs, xs, j))
    ensures PendingBefore(fs, xs, k) == PendingAfter(fs[j], xs[j], PendingBefore(fs, xs, j))
  {
  }

  lemma {:induction false} SentGrows(fs: seq<Option<Frame>>, xs: seq<Weather>, j: nat, k: nat)
    requires j <= k <= |fs| == |xs|
    ensures SentBefore(fs, xs, j) <= SentBefore(fs, xs, k)
    decreases k
  {
    if j < k {
      SentGrows(fs, xs, j, k - 1);
      BeforeStep(fs, xs, k - 1, k);
    }
  }

  /** Event `k` takes the world from `ws[k]` to `ws[k + 1]` and sends `fs[k]`. */
  ghost predicate Drifts(link: Link, ws: seq<World>, es: seq<Event>, xs: seq<Weather>, fs: seq<Option<Frame>>, k: nat)
    requires k < |es| == |xs| == |fs| && |ws| == |es| + 1
  {
    && ValidWorld(link, ws[k]) && Possible(es[k])
    && fs[k] == Step(link.cfg, ws[k].src, es[k]).1 && Fits(link, ws[k].sequence, fs[k], xs[k])
    && ws[k + 1] == Drift(link, ws[k], es[k], xs[k])
  }

  ghost predicate LossyRun(link: Link, ws: seq<World>, es: seq<Event>, xs: seq<Weather>, fs: seq<Option<Frame>>,
                           maxPayload: nat)
  {
    && |ws| == |es| + 1 && |fs| == |xs| == |es| && SentBefore(fs, xs, |fs|) < 0x1_0000_0000
    && 0 < link.p <= MAX_PAYLOAD_PER_DATAGRAM && Bounded(link.codec) && Faithful(link.codec, maxPayload)
    && ws[0] == StartOf(maxPayload)
    && forall k | 0 <= k < |es| :: Drifts(link, ws, es, xs, fs, k)
  }

  ghost predicate UnderwayAt(link: Link, ws: seq<World>, xs: seq<Weather>, fs: seq<Option<Frame>>, maxPayload: nat,
                             k: nat)
    requires k <= |fs| == |xs| && |ws| == |fs| + 1
  {
    Underway(link, ws[k], maxPayload, SentBefore(fs, xs, k), PendingBefore(fs, xs, k))
  }

  lemma StartsUnderway(link: Link, ws: seq<World>, xs: seq<Weather>, fs: seq<Option<Frame>>, maxPayload: nat, k: nat)
    requires link.p > 0 && Bounded(link.codec) && |ws| == |fs| + 1 && |fs| == |xs| && k == 0
    requires ws[k] == StartOf(maxPayload)
    ensures UnderwayAt(link, ws, xs, fs, maxPayload, k)
  {
  }

  lemma EventUnderway(link: Link, ws: seq<World>, es: seq<Event>, xs: seq<Weather>, fs: seq<Option<Frame>>,
                      maxPayload: nat, j: nat, k: nat)
    requires LossyRun(link, ws, es, xs, fs, maxPayload) && j < |es| && k == j + 1
    requires UnderwayAt(link, ws, xs, fs, maxPayload, j)
    ensures UnderwayAt(link, ws, xs, fs, maxPayload, k)
  {
    assert Drifts(link, ws, es, xs, fs, j);
    BeforeStep(fs, xs, j, k);
    SentGrows(fs, xs, j, |fs|);
    FrameIsSmall(link.cfg, ws[j].src, es[j]);
    SequenceAdvances(ws[j].sequence, fs[j], xs[j], SentBefore(fs, xs, j));
    StaysReceiving(link, ws[j].target, ws[j].sequence, fs[j], xs[j], maxPayload, SentBefore(fs, xs, j),
                   PendingBefore(fs, xs, j));
  }

  lemma {:induction false} UnderwayRun(link: Link, ws: seq<World>, es: seq<Event>, xs: seq<Weather>,
                                       fs: seq<Option<Frame>>, maxPayload: nat, k: nat)
    requires LossyRun(link, ws, es, xs, fs, maxPayload) && k <= |es|
    ensures UnderwayAt(link, ws, xs, fs, maxPayload, k)
  {
    if k == 0 {
      StartsUnderway(link, ws, xs, fs, maxPayload, k);
    } else {
      UnderwayRun(link, ws, es, xs, fs, maxPayload, k - 1);
      EventUnderway(link, ws, es, xs, fs, maxPayload, k - 1, k);
    }
  }

  /** `fates[k]` is the fate of event `k`. */
  ghost predicate FateAt(link: Link, ws: seq<World>, es: seq<Event>, xs: seq<Weather>, fs: seq<Option<Frame>>,
                         fates: seq<Fate>, k: nat)
    requires k < |es| == |xs| == |fs| == |fates| && |ws| == |es| + 1
  {
    Drifts(link, ws, es, xs, fs, k) && Explained(link, ws[k], fs[k], xs[k], fates[k])
  }

  ghost predicate HasFates(link: Link, ws: seq<World>, es: seq<Event>, xs: seq<Weather>, fs: seq<Option<Frame>>,
                           maxPayload: nat, fates: seq<Fate>, n: nat)
    requires LossyRun(link, ws, es, xs, fs, maxPayload)
  {
    n <= |fates| == |es| && forall k | 0 <= k < n :: FateAt(link, ws, es, xs, fs, fates, k)
  }

  lemma FateOn(link: Link, ws: seq<World>, es: seq<Event>, xs: seq<Weather>, fs: seq<Option<Frame>>, maxPayload: nat,
               k: nat)
    returns (fate: Fate)
    requires LossyRun(link, ws, es, xs, fs, maxPayload) && k < |es|
    ensures Drifts(link, ws, es, xs, fs, k) && Explained(link, ws[k], fs[k], xs[k], fate)
  {
    UnderwayRun(link, ws, es, xs, fs, maxPayload, k);
    assert Drifts(link, ws, es, xs, fs, k);
    FrameIsSmall(link.cfg, ws[k].src, es[k]);
    fate := EventHasFate(link, ws[k], fs[k], xs[k], maxPayload);
  }

  lemma SameFate(link: Link, ws: seq<World>, es: seq<Event>, xs: seq<Weather>, fs: seq<Option<Frame>>,
                 before: seq<Fate>, fates: seq<Fate>, k: nat)
    requires k < |es| == |xs| == |fs| == |fates| == |before| && |ws| == |es| + 1 && before[k] == fates[k]
    requires FateAt(link, ws, es, xs, fs, before, k)
    ensures FateAt(link, ws, es, xs, fs, fates, k)
  {
  }

  lemma FatesFrom(link: Link, ws: seq<World>, es: seq<Event>, xs: seq<Weather>, fs: seq<Option<Frame>>, maxPayload: nat,
                  n: nat)
    returns (fates: seq<Fate>)
    requires LossyRun(link, ws, es, xs, fs, maxPayload) && n <= |es|
    ensures HasFates(link, ws, es, xs, fs, maxPayload, fates, n)
    decreases n
  {
    if n == 0 {
      fates := seq(|es|, k => INTACT);
    } else {
      var before := FatesFrom(link, ws, es, xs, fs, maxPayload, n - 1);
      var fate := FateOn(link, ws, es, xs, fs, maxPayload, n - 1);
      fates := before[n - 1 := fate];
      forall k | 0 <= k < n ensures FateAt(link, ws, es, xs, fs, fates, k) {
        if k < n - 1 {
          assert FateAt(link, ws, es, xs, fs, before, k);
          SameFate(link, ws, es, xs, fs, before, fates, k);
        }
      }
    }
  }

  /** The events of every run have fates. */
  lemma FatesExist(link: Link, ws: seq<World>, es: seq<Event>, xs: seq<Weather>, fs: seq<Option<Frame>>,
                   maxPayload: nat)
    requires LossyRun(link, ws, es, xs, fs, maxPayload)
    ensures exists fates :: HasFates(link, ws, es, xs, fs, maxPayload, fates, |es|)
  {
    var fates := FatesFrom(link, ws, es, xs, fs, maxPayload, |es|);
  }

  // ---------- the frames' own run ----------

  function Sources(ws: seq<World>): (ss: seq<Src>)
    ensures |ss| == |ws|
  {
    seq(|ws|, k requires 0 <= k < |ws| => ws[k].src)
  }

  function Targets(ws: seq<World>): (ts: seq<Tgt>)
    ensures |ts| == |ws|
  {
    seq(|ws|, k requires 0 <= k < |ws| => ws[k].target.t)
  }

  /** `lens[k]` is the length of the latest partial frame before event `k`, and no delta is longer. */
  ghost predicate Lengths(fs: seq<Option<Frame>>, lens: seq<nat>) {
    && |lens| == |fs| + 1
    && forall k | 0 <= k < |fs| :: LengthAt(fs, lens, k)
  }

  predicate LengthAt(fs: seq<Option<Frame>>, lens: seq<nat>, k: nat)
    requires k < |fs| && |lens| == |fs| + 1
  {
    lens[k + 1] == NextLen(fs[k], lens[k]) && SameLayout(fs[k], lens[k])
  }

  function LatestLen(fs: seq<Option<Frame>>, k: nat): nat
    requires k <= |fs|
  {
    if k == 0 then 0 else NextLen(fs[k - 1], LatestLen(fs, k - 1))
  }

  /** Two partial frames with no session-info frame or reconnect between them have the same length: the game changes
      `bufLen` only with the session. */
  ghost predicate SteadyBuffer(es: seq<Event>, fs: seq<Option<Frame>>)
    requires |es| == |fs|
  {
    forall j, k | 0 <= j < k < |fs| :: SteadyBetween(es, fs, j, k)
  }

  ghost predicate SteadyBetween(es: seq<Event>, fs: seq<Option<Frame>>, j: nat, k: nat)
    requires j < k < |es| == |fs|
  {
    IsPartial(fs[j]) && IsPartial(fs[k]) && (forall i | j < i < k :: !Restarts(es, fs, i)) ==>
      |fs[j].value.payload| == |fs[k].value.payload|
  }

  lemma {:induction false} LatestIsPartial(fs: seq<Option<Frame>>, i: nat, k: nat) returns (p: nat)
    requires i < k <= |fs| && IsPartial(fs[i])
    ensures i <= p < k && IsPartial(fs[p]) && LatestLen(fs, k) == |fs[p].value.payload|
    decreases k
  {
    p := k - 1;
    if !IsPartial(fs[p]) {
      p := LatestIsPartial(fs, i, k - 1);
    }
  }

  /** With such a game no delta is longer than the partial frame before it. */
  lemma SteadyMeansLengths(cfg: Config, ss: seq<Src>, es: seq<Event>, fs: seq<Option<Frame>>, lens: seq<nat>)
    requires Run(cfg, ss, es, fs) && ss[0] == Initial() && SteadyBuffer(es, fs)
    requires |lens| == |fs| + 1 && forall k | 0 <= k <= |fs| :: lens[k] == LatestLen(fs, k)
    ensures Lengths(fs, lens)
  {
    forall k | 0 <= k < |fs| ensures LengthAt(fs, lens, k) {
      if DeltaAt(fs, k) {
        DeltaFollowsKeyframe(cfg, ss, es, fs, k);
        var i :| 0 <= i < k && KeyAt(fs, i) && forall j | i < j < k :: !Restarts(es, fs, j);
        var p := LatestIsPartial(fs, i, k);
        assert SteadyBetween(es, fs, p, k);
      }
    }
  }

  lemma DriftMoves(link: Link, ws: seq<World>, es: seq<Event>, xs: seq<Weather>, fs: seq<Option<Frame>>,
                   maxPayload: nat, fates: seq<Fate>, lens: seq<nat>, k: nat)
    requires LossyRun(link, ws, es, xs, fs, maxPayload) && HasFates(link, ws, es, xs, fs, maxPayload, fates, |es|)
    requires Lengths(fs, lens) && k < |es|
    ensures Steps(link.cfg, Sources(ws), es, fs, k)
    ensures Moves(link.cfg, Sources(ws), es, fs, Targets(ws), fates, lens, k)
  {
    assert FateAt(link, ws, es, xs, fs, fates, k);
    assert LengthAt(fs, lens, k);
  }

  /** The pipeline over such a link is a run of the two sides in which frames are lost or garbled. */
  lemma LossyRunIsLinkRun(link: Link, ws: seq<World>, es: seq<Event>, xs: seq<Weather>, fs: seq<Option<Frame>>,
                          maxPayload: nat, fates: seq<Fate>, lens: seq<nat>)
    requires LossyRun(link, ws, es, xs, fs, maxPayload) && HasFates(link, ws, es, xs, fs, maxPayload, fates, |es|)
    requires Lengths(fs, lens)
    ensures LinkRun(link.cfg, Sources(ws), es, fs, Targets(ws), fates, lens)
  {
    forall k | 0 <= k < |es|
      ensures Steps(link.cfg, Sources(ws), es, fs, k)
      ensures Moves(link.cfg, Sources(ws), es, fs, Targets(ws), fates, lens, k)
    {
      DriftMoves(link, ws, es, xs, fs, maxPayload, fates, lens, k);
    }
  }

  /** From the start of both sides, over every run of events and every pattern of dropped datagrams, failed sends and
      stale resets: of the partial frames that arrive at most K-1 are written wrong for every keyframe that does not
      arrive, and K-2 for every delta that does not. */
  lemma DroppedDatagramsBound(link: Link, ws: seq<World>, es: seq<Event>, xs: seq<Weather>, fs: seq<Option<Frame>>,
                              maxPayload: nat, fates: seq<Fate>, lens: seq<nat>, k: nat)
    requires LossyRun(link, ws, es, xs, fs, maxPayload) && HasFates(link, ws, es, xs, fs, maxPayload, fates, |es|)
    requires Lengths(fs, lens) && link.cfg.keyframeInterval > 0 && k <= |es|
    ensures var K := link.cfg.keyframeInterval;
            WrongFrames(Sources(ws), fs, Targets(ws), fates, k)
            <= LostKeyframes(fs, fates, k) * (K - 1) + LostDeltas(fs, fates, k) * (if K >= 2 then K - 2 else 0)
  {
    LossyRunIsLinkRun(link, ws, es, xs, fs, maxPayload, fates, lens);
    WrongFramesBound(link.cfg, Sources(ws), es, fs, Targets(ws), fates, lens, k);
    assert AgreeAt(Sources(ws), Targets(ws), lens, 0);
  }

  // ---------- failed sends ----------

  /** A failed send of which a datagram arrived, and no complete send between it and event `k`. */
  ghost predicate FailedSince(fs: seq<Option<Frame>>, xs: seq<Weather>, i: nat, k: nat)
    requires i < k <= |fs| == |xs|
  {
    && fs[i].Some? && !Completes(xs[i]) && Touches(xs[i])
    && forall j | i < j < k :: fs[j].Some? ==> !Completes(xs[j])
  }

  lemma {:induction false} PendingIsFailed(fs: seq<Option<Frame>>, xs: seq<Weather>, k: nat)
    requires k <= |fs| == |xs| && PendingBefore(fs, xs, k)
    ensures exists i | 0 <= i < k :: FailedSince(fs, xs, i, k)
  {
    BeforeStep(fs, xs, k - 1, k);
    if PendingBefore(fs, xs, k - 1) && !(fs[k - 1].Some? && Touches(xs[k - 1])) {
      PendingIsFailed(fs, xs, k - 1);
      var i :| 0 <= i < k - 1 && FailedSince(fs, xs, i, k - 1);
      assert FailedSince(fs, xs, i, k);
    } else {
      assert FailedSince(fs, xs, k - 1, k);
    }
  }

  /** What a failed send does beyond losing its own frame. Unless a datagram of a failed send has arrived since the
      latest complete one, a frame arrives exactly when its send completes, all its datagrams arrive and there are at
      most 256 of them, and otherwise nothing is applied. So a send that fails before its first datagram costs no more
      than a lost frame, and one that fails later can cost the frames up to and including the next one sent completely:
      they may be replaced by a mixture, and count as lost. */
  lemma ArrivesUnlessFailed(link: Link, ws: seq<World>, es: seq<Event>, xs: seq<Weather>, fs: seq<Option<Frame>>,
                            maxPayload: nat, fates: seq<Fate>, k: nat)
    requires LossyRun(link, ws, es, xs, fs, maxPayload) && HasFates(link, ws, es, xs, fs, maxPayload, fates, |es|)
    requires k < |es| && fs[k].Some?
    ensures (exists i | 0 <= i < k :: FailedSince(fs, xs, i, k))
            || fates[k].outcome
               == if Completes(xs[k]) && AllArrive(xs[k].arrived) && Accepted(link, fs[k].value) then Arrives else Lost
  {
    UnderwayRun(link, ws, es, xs, fs, maxPayload, k);
    assert FateAt(link, ws, es, xs, fs, fates, k);
    BeforeStep(fs, xs, k, k + 1);
    SentGrows(fs, xs, k, |fs|);
    if PendingBefore(fs, xs, k) {
      PendingIsFailed(fs, xs, k);
    } else {
      ReachedAll(xs[k]);
      SequenceAdvances(ws[k].sequence, fs[k], xs[k], SentBefore(fs, xs, k));
    }
  }

  lemma ReachedAll(x: Weather)
    ensures AllArrive(Reached(x)) <==> |x.arrived| == 0 || (Completes(x) && AllArrive(x.arrived))
  {
    if |x.arrived| > 0 && AllArrive(Reached(x)) {
      assert Reached(x)[|x.arrived| - 1];
      forall i | 0 <= i < |x.arrived| ensures x.arrived[i] {
        assert Reached(x)[i];
      }
    }
  }
}
