/** Which frames the source emits over whole runs of ticks, timeouts, capability packets and reconnects. */
module SourceRuns {
  import opened Options
  import opened Bytes
  import opened Wire
  import opened Irsdk
  import opened Source

  /** Event `k` takes the source from `ss[k]` to `ss[k + 1]` and emits `fs[k]`, a frame or nothing. */
  predicate Steps(cfg: Config, ss: seq<Src>, es: seq<Event>, fs: seq<Option<Frame>>, k: nat)
    requires k < |es| == |fs| && |ss| == |es| + 1
  {
    ValidSrc(ss[k]) && Possible(es[k]) && (ss[k + 1], fs[k]) == Step(cfg, ss[k], es[k])
  }

  ghost predicate Run(cfg: Config, ss: seq<Src>, es: seq<Event>, fs: seq<Option<Frame>>) {
    |ss| == |es| + 1 && |fs| == |es| && forall k | 0 <= k < |es| :: Steps(cfg, ss, es, fs, k)
  }

  /** No data tick among the events from `i` up to but not including `k`. */
  predicate NoTick(es: seq<Event>, i: nat, k: nat)
    requires i <= k <= |es|
  {
    forall j | i <= j < k :: !es[j].Tick?
  }

  // ---------- when a session-info frame is sent ----------

  lemma {:induction false} StaysUnstarted(cfg: Config, ss: seq<Src>, es: seq<Event>, fs: seq<Option<Frame>>, i: nat,
                              k: nat)
    requires Run(cfg, ss, es, fs) && i <= k <= |es| && NoTick(es, i, k) && !ss[i].gotData
    ensures !ss[k].gotData
  {
    if i < k {
      StaysUnstarted(cfg, ss, es, fs, i, k - 1);
      assert Steps(cfg, ss, es, fs, k - 1);
    }
  }

  /** The first data tick after an open or a reconnect sends a session-info frame. */
  lemma FirstTickSendsSession(cfg: Config, ss: seq<Src>, es: seq<Event>, fs: seq<Option<Frame>>, i: nat, k: nat)
    requires Run(cfg, ss, es, fs) && i <= k < |es| && NoTick(es, i, k) && es[k].Tick?
    requires (i == 0 && ss[0] == Initial()) || (i > 0 && es[i - 1].Quiet? && es[i - 1].reopen)
    ensures SessionAt(fs, k)
  {
    if i > 0 {
      assert Steps(cfg, ss, es, fs, i - 1);
    }
    StaysUnstarted(cfg, ss, es, fs, i, k);
    assert Steps(cfg, ss, es, fs, k);
  }

  /** A capability packet is read by event `k`: in every quiet iteration, and after a tick that sent a frame. */
  predicate Polls(es: seq<Event>, fs: seq<Option<Frame>>, k: nat)
    requires k < |es| == |fs|
  {
    es[k].cap.Some? && (es[k].Tick? ==> fs[k].Some?)
  }

  lemma {:induction false} StaysPending(cfg: Config, ss: seq<Src>, es: seq<Event>, fs: seq<Option<Frame>>, i: nat,
                              k: nat)
    requires Run(cfg, ss, es, fs) && i <= k <= |es| && NoTick(es, i, k) && ss[i].pendingResync
    ensures ss[k].pendingResync
  {
    if i < k {
      StaysPending(cfg, ss, es, fs, i, k - 1);
      assert Steps(cfg, ss, es, fs, k - 1);
    }
  }

  /** The next data tick after a resync packet sends a session-info frame, whatever happens in between. */
  lemma ResyncIsAnswered(cfg: Config, ss: seq<Src>, es: seq<Event>, fs: seq<Option<Frame>>, i: nat, k: nat)
    requires Run(cfg, ss, es, fs) && i < k < |es| && Polls(es, fs, i) && NoTick(es, i + 1, k) && es[k].Tick?
    ensures SessionAt(fs, k)
  {
    assert Steps(cfg, ss, es, fs, i);
    StaysPending(cfg, ss, es, fs, i + 1, k);
    assert Steps(cfg, ss, es, fs, k);
  }

  /** What one event without a session-info frame or reconnect leaves of `last_session_update`. */
  lemma UpdateKept(cfg: Config, s: Src, e: Event)
    requires ValidSrc(s) && Possible(e)
    ensures var (s1, f) := Step(cfg, s, e);
            && (f.Some? && IsSession(f.value) ==> e.Tick? && s1.lastSessionUpdate == SessionUpdate(e.rd.select))
            && ((f.None? || !IsSession(f.value)) && !(e.Quiet? && e.reopen) ==>
                  s1.lastSessionUpdate == s.lastSessionUpdate)
  {
  }

  lemma {:induction false} StaysUpdated(cfg: Config, ss: seq<Src>, es: seq<Event>, fs: seq<Option<Frame>>,
                                        j: nat, k: nat)
    requires Run(cfg, ss, es, fs) && j < k <= |es| && SessionAt(fs, j) && forall i | j < i < k :: !Restarts(es, fs, i)
    ensures es[j].Tick? && ss[k].lastSessionUpdate == SessionUpdate(es[j].rd.select)
    decreases k
  {
    assert Steps(cfg, ss, es, fs, k - 1);
    UpdateKept(cfg, ss[k - 1], es[k - 1]);
    if j < k - 1 {
      StaysUpdated(cfg, ss, es, fs, j, k - 1);
      assert !Restarts(es, fs, k - 1);
    }
  }

  /** A session change is sent at once: the first tick whose `sessionInfoUpdate` differs from that of the latest
      session-info frame sends one. */
  lemma SessionChangeIsSent(cfg: Config, ss: seq<Src>, es: seq<Event>, fs: seq<Option<Frame>>, j: nat, k: nat)
    requires Run(cfg, ss, es, fs) && j < k < |es| && SessionAt(fs, j) && forall i | j < i < k :: !Restarts(es, fs, i)
    requires es[j].Tick? && es[k].Tick? && SessionUpdate(es[k].rd.select) != SessionUpdate(es[j].rd.select)
    ensures SessionAt(fs, k)
  {
    StaysUpdated(cfg, ss, es, fs, j, k);
    assert Steps(cfg, ss, es, fs, k);
  }

  /** While no session-info frame is sent, a connected source still has the update counter of the latest one. */
  lemma {:induction false} UpdateStays(cfg: Config, ss: seq<Src>, es: seq<Event>, fs: seq<Option<Frame>>,
                                       j: nat, k: nat)
    requires Run(cfg, ss, es, fs) && j < k <= |es| && SessionAt(fs, j) && forall i | j < i < k :: !SessionAt(fs, i)
    ensures es[j].Tick? && (ss[k].gotData ==> ss[k].lastSessionUpdate == SessionUpdate(es[j].rd.select))
    decreases k
  {
    assert Steps(cfg, ss, es, fs, k - 1);
    UpdateKept(cfg, ss[k - 1], es[k - 1]);
    if j < k - 1 {
      UpdateStays(cfg, ss, es, fs, j, k - 1);
      ConnectedKept(cfg, ss[k - 1], es[k - 1]);
      assert !SessionAt(fs, k - 1);
    }
  }

  lemma ConnectedKept(cfg: Config, s: Src, e: Event)
    requires ValidSrc(s) && Possible(e)
    ensures var (s1, f) := Step(cfg, s, e);
            s1.gotData && (f.None? || !IsSession(f.value)) ==> s.gotData && !(e.Quiet? && e.reopen)
  {
  }

  /** A partial frame belongs to the session of the latest session-info frame. */
  lemma PartialKeepsUpdate(cfg: Config, ss: seq<Src>, es: seq<Event>, fs: seq<Option<Frame>>, j: nat, k: nat)
    requires Run(cfg, ss, es, fs) && j < k < |es| && SessionAt(fs, j) && forall i | j < i < k :: !SessionAt(fs, i)
    requires fs[k].Some? && !IsSession(fs[k].value)
    ensures es[j].Tick? && es[k].Tick? && SessionUpdate(es[k].rd.select) == SessionUpdate(es[j].rd.select)
  {
    UpdateStays(cfg, ss, es, fs, j, k);
    assert Steps(cfg, ss, es, fs, k);
  }

  // ---------- when a delta is sent ----------

  /** The latest packet read before event `k` had a second byte, with its lowest bit set: the target understands
      deltas. */
  ghost function Announced(es: seq<Event>, fs: seq<Option<Frame>>, k: nat): bool
    requires |fs| == |es| && k <= |es|
  {
    if k == 0 then false
    else if Polls(es, fs, k - 1) then |es[k - 1].cap.value| >= 2 && es[k - 1].cap.value[1] as int % 2 == 1
    else Announced(es, fs, k - 1)
  }

  lemma {:induction false} SupportIsAnnounced(cfg: Config, ss: seq<Src>, es: seq<Event>, fs: seq<Option<Frame>>, k: nat)
    requires Run(cfg, ss, es, fs) && ss[0] == Initial() && k <= |es|
    ensures ss[k].supportsDelta == (!cfg.noDelta && Announced(es, fs, k))
  {
    if k > 0 {
      SupportIsAnnounced(cfg, ss, es, fs, k - 1);
      assert Steps(cfg, ss, es, fs, k - 1);
    }
  }

  lemma DeltaNeeds(cfg: Config, s: Src, e: Event)
    requires ValidSrc(s) && Possible(e)
    ensures var (s1, f) := Step(cfg, s, e);
            f.Some? && IsDelta(f.value) ==> UseDelta(cfg, s) && s.gotData && s.tickCounter != 0
  {
  }

  /** A delta is only ever sent when deltas are enabled and the latest capability packet allowed them. */
  lemma DeltaWasAllowed(cfg: Config, ss: seq<Src>, es: seq<Event>, fs: seq<Option<Frame>>, k: nat)
    requires Run(cfg, ss, es, fs) && ss[0] == Initial() && k < |es| && DeltaAt(fs, k)
    ensures !cfg.noDelta && cfg.keyframeInterval > 0 && Announced(es, fs, k)
  {
    SupportIsAnnounced(cfg, ss, es, fs, k);
    assert Steps(cfg, ss, es, fs, k);
    DeltaNeeds(cfg, ss[k], es[k]);
  }

  // Event `k` emitted a keyframe, a session-info frame, a delta.

  predicate KeyAt(fs: seq<Option<Frame>>, k: nat)
    requires k < |fs|
  {
    fs[k].Some? && IsKeyframe(fs[k].value)
  }

  predicate SessionAt(fs: seq<Option<Frame>>, k: nat)
    requires k < |fs|
  {
    fs[k].Some? && IsSession(fs[k].value)
  }

  predicate DeltaAt(fs: seq<Option<Frame>>, k: nat)
    requires k < |fs|
  {
    fs[k].Some? && IsDelta(fs[k].value)
  }

  /** Event `k` sends a session-info frame or reconnects. */
  predicate Restarts(es: seq<Event>, fs: seq<Option<Frame>>, k: nat)
    requires k < |es| == |fs|
  {
    SessionAt(fs, k) || (es[k].Quiet? && es[k].reopen)
  }

  /** Some keyframe before event `k` has no session-info frame and no reconnect after it. */
  ghost predicate KeySince(es: seq<Event>, fs: seq<Option<Frame>>, k: nat)
    requires k <= |es| == |fs|
  {
    exists j | 0 <= j < k :: KeyAt(fs, j) && forall i | j < i < k :: !Restarts(es, fs, i)
  }

  lemma KeySinceStep(cfg: Config, ss: seq<Src>, es: seq<Event>, fs: seq<Option<Frame>>, k: nat)
    requires Run(cfg, ss, es, fs) && k < |es|
    requires ss[k].tickCounter != 0 ==> KeySince(es, fs, k)
    ensures ss[k + 1].tickCounter != 0 ==> KeySince(es, fs, k + 1)
  {
    assert Steps(cfg, ss, es, fs, k);
    DeltaNeeds(cfg, ss[k], es[k]);
    if ss[k + 1].tickCounter != 0 && !KeyAt(fs, k) {
      var j :| 0 <= j < k && KeyAt(fs, j) && forall i | j < i < k :: !Restarts(es, fs, i);
      assert !Restarts(es, fs, k);
    }
  }

  lemma {:induction false} CounterMeansKey(cfg: Config, ss: seq<Src>, es: seq<Event>, fs: seq<Option<Frame>>, k: nat)
    requires Run(cfg, ss, es, fs) && ss[0] == Initial() && k <= |es|
    ensures ss[k].tickCounter != 0 ==> KeySince(es, fs, k)
  {
    if k > 0 {
      CounterMeansKey(cfg, ss, es, fs, k - 1);
      KeySinceStep(cfg, ss, es, fs, k - 1);
    }
  }

  /** Between the latest session-info frame and any delta lies a keyframe. This, and not a reset of the
      source's previous frame, is what keeps the two sides together across session-info frames. */
  lemma DeltaFollowsKeyframe(cfg: Config, ss: seq<Src>, es: seq<Event>, fs: seq<Option<Frame>>, k: nat)
    requires Run(cfg, ss, es, fs) && ss[0] == Initial() && k < |es| && DeltaAt(fs, k)
    ensures KeySince(es, fs, k)
  {
    CounterMeansKey(cfg, ss, es, fs, k);
    assert Steps(cfg, ss, es, fs, k);
    DeltaNeeds(cfg, ss[k], es[k]);
  }

  // ---------- skipped ticks ----------

  /** Why the selected slot is not sent: it is too large, was rewritten while being copied, or has the tick `sent`. */
  predicate NotSent(rd: Reading, slot: Slot, sent: i32)
    requires Readable(rd) && slot.tickField + 4 <= |rd.after|
  {
    || IRSDK_HEADER_SIZE + slot.len > MAX_TELEMETRY_SIZE
    || I32At(rd.after, slot.tickField) != slot.tick
    || slot.tick == sent
  }

  lemma TickSkips(cfg: Config, s: Src, rd: Reading, elapsed: bool)
    requires ValidSrc(s) && Readable(rd)
    ensures var (s1, f) := DataTick(cfg, s, rd, elapsed);
            && (f.None? <==>
                  && !SessionDue(Started(s), rd, elapsed) && ActiveSlot(rd.select).Some?
                  && NotSent(rd, ActiveSlot(rd.select).value, s.lastTick))
            && (f.None? ==> s1 == s)
  {
  }

  /** What one event does to the latest tick sent. */
  lemma TickKept(cfg: Config, s: Src, e: Event)
    requires ValidSrc(s) && Possible(e)
    ensures var (s1, f) := Step(cfg, s, e);
            && (f.Some? && !IsSession(f.value) ==>
                  e.Tick? && ActiveSlot(e.rd.select).Some? && s1.lastTick == ActiveSlot(e.rd.select).value.tick)
            && (f.None? && !(e.Quiet? && e.reopen) ==> s1.lastTick == s.lastTick)
  {
  }

  /** Between events `i` and `k` nothing is sent and the game is not reopened. */
  ghost predicate Idle(es: seq<Event>, fs: seq<Option<Frame>>, i: nat, k: nat)
    requires i < k <= |es| == |fs|
  {
    forall j | i < j < k :: fs[j].None? && !Restarts(es, fs, j)
  }

  lemma {:induction false} TickRemembered(cfg: Config, ss: seq<Src>, es: seq<Event>, fs: seq<Option<Frame>>, i: nat,
                                          k: nat)
    requires Run(cfg, ss, es, fs) && i < k <= |es| && Idle(es, fs, i, k)
    requires KeyAt(fs, i) || DeltaAt(fs, i)
    ensures es[i].Tick? && ActiveSlot(es[i].rd.select).Some?
    ensures ss[k].lastTick == ActiveSlot(es[i].rd.select).value.tick
    decreases k
  {
    assert Steps(cfg, ss, es, fs, k - 1);
    TickKept(cfg, ss[k - 1], es[k - 1]);
    if i < k - 1 {
      TickRemembered(cfg, ss, es, fs, i, k - 1);
      assert fs[k - 1].None? && !Restarts(es, fs, k - 1);
    }
  }

  /** Which ticks are skipped, over every run: after a partial frame, and as long as nothing else is sent, a data tick
      sends nothing exactly when no session-info frame is due and its slot is too large, was rewritten while being
      copied, or has the tick of that partial frame; it then leaves the source as it is. So no tick is sent twice in a
      row, and a torn one is tried again. */
  lemma SkippedTick(cfg: Config, ss: seq<Src>, es: seq<Event>, fs: seq<Option<Frame>>, i: nat, k: nat)
    requires Run(cfg, ss, es, fs) && i < k < |es| && Idle(es, fs, i, k) && es[k].Tick?
    requires KeyAt(fs, i) || DeltaAt(fs, i)
    ensures es[i].Tick? && ActiveSlot(es[i].rd.select).Some? && Readable(es[k].rd)
    ensures fs[k].None?
            <==> && !SessionDue(Started(ss[k]), es[k].rd, es[k].elapsed) && ActiveSlot(es[k].rd.select).Some?
                 && NotSent(es[k].rd, ActiveSlot(es[k].rd.select).value, ActiveSlot(es[i].rd.select).value.tick)
    ensures fs[k].None? ==> ss[k + 1] == ss[k]
  {
    TickRemembered(cfg, ss, es, fs, i, k);
    assert Steps(cfg, ss, es, fs, k);
    TickSkips(cfg, ss[k], es[k].rd, es[k].elapsed);
  }

  // ---------- keyframe spacing ----------

  /** How many deltas were emitted by the events before `k` since the last keyframe among them. */
  ghost function DeltasSinceKey(fs: seq<Option<Frame>>, k: nat): nat
    requires k <= |fs|
  {
    if k == 0 || KeyAt(fs, k - 1) then 0
    else DeltasSinceKey(fs, k - 1) + if DeltaAt(fs, k - 1) then 1 else 0
  }

  /** Counter arithmetic: a delta never starts a period of `K` ticks, also not when the 32-bit counter wraps
      in the middle of one. */
  predicate WithinPeriod(g: nat, c: u32, interval: nat)
    requires interval > 0
  {
    g < interval && (c % interval != 0 ==> g < c % interval)
  }

  lemma PeriodStep(g: nat, c: u32, interval: nat)
    requires interval > 0 && WithinPeriod(g, c, interval)
    ensures c % interval != 0 ==> WithinPeriod(g + 1, (c + 1) % 0x1_0000_0000, interval)
    ensures c % interval == 0 ==> WithinPeriod(0, (c + 1) % 0x1_0000_0000, interval)
  {
    var r := c % interval;
    RemainderSuccessor(c, interval);
    if c + 1 == 0x1_0000_0000 {
      RemainderOfZero(interval);
    }
  }

  lemma RemainderOfZero(p: nat)
    requires p > 0
    ensures 0 % p == 0
  {
  }

  lemma RemainderSuccessor(c: nat, p: nat)
    requires p > 0
    ensures (c + 1) % p == if c % p + 1 == p then 0 else c % p + 1
  {
    var q := c / p;
    assert c == q * p + c % p;
    if c % p + 1 == p {
      assert c + 1 == (q + 1) * p;
      QuotientUnique(c + 1, p, q + 1);
    } else {
      QuotientUnique(c + 1, p, q);
    }
  }

  /** What an event does to the counter, and whether a partial frame is a keyframe. */
  lemma CounterEvent(cfg: Config, s: Src, e: Event)
    requires ValidSrc(s) && Possible(e) && cfg.keyframeInterval > 0
    ensures var (s1, f) := Step(cfg, s, e);
            && (f.None? || IsSession(f.value) ==> s1.tickCounter == s.tickCounter || s1.tickCounter == 0)
            && (f.Some? && !IsSession(f.value) ==>
                  s1.tickCounter == (s.tickCounter + 1) % 0x1_0000_0000
                  && (IsDelta(f.value) ==> s.tickCounter % cfg.keyframeInterval != 0))
  {
    DeltaNeeds(cfg, s, e);
  }

  lemma PeriodEvent(cfg: Config, s: Src, e: Event, g: nat)
    requires ValidSrc(s) && Possible(e) && cfg.keyframeInterval > 0
    requires WithinPeriod(g, s.tickCounter, cfg.keyframeInterval)
    ensures var (s1, f) := Step(cfg, s, e);
            WithinPeriod(if f.Some? && IsKeyframe(f.value) then 0 else if f.Some? && IsDelta(f.value) then g + 1 else g,
                         s1.tickCounter, cfg.keyframeInterval)
  {
    CounterEvent(cfg, s, e);
    PeriodStep(g, s.tickCounter, cfg.keyframeInterval);
    PeriodStep(0, s.tickCounter, cfg.keyframeInterval);
    RemainderOfZero(cfg.keyframeInterval);
  }

  lemma {:induction false} PeriodRun(cfg: Config, ss: seq<Src>, es: seq<Event>, fs: seq<Option<Frame>>, k: nat)
    requires Run(cfg, ss, es, fs) && cfg.keyframeInterval > 0 && k <= |es|
    ensures WithinPeriod(DeltasSinceKey(fs, k), ss[k].tickCounter, cfg.keyframeInterval)
  {
    if k > 0 {
      PeriodRun(cfg, ss, es, fs, k - 1);
      assert Steps(cfg, ss, es, fs, k - 1);
      PeriodEvent(cfg, ss[k - 1], es[k - 1], DeltasSinceKey(fs, k - 1));
    }
  }

  /** How many partial frames the events from `i` up to `k` emitted. */
  ghost function Partials(fs: seq<Option<Frame>>, i: nat, k: nat): nat
    requires i <= k <= |fs|
    decreases k
  {
    if i == k then 0
    else Partials(fs, i, k - 1) + if KeyAt(fs, k - 1) || DeltaAt(fs, k - 1) then 1 else 0
  }

  lemma {:induction false} WithoutKey(fs: seq<Option<Frame>>, i: nat, k: nat)
    requires i <= k <= |fs|
    requires forall j | i <= j < k :: !KeyAt(fs, j)
    ensures DeltasSinceKey(fs, k) >= Partials(fs, i, k)
    decreases k
  {
    if i < k {
      WithoutKey(fs, i, k - 1);
    }
  }

  /** Keyframe spacing: from any state of the source, with any 32-bit counter value, whatever events occur, any
      K consecutive partial frames contain a keyframe; also when the counter wraps and K does not divide 2^32. */
  lemma KeyframeInEveryWindow(cfg: Config, ss: seq<Src>, es: seq<Event>, fs: seq<Option<Frame>>, i: nat, k: nat)
    requires Run(cfg, ss, es, fs) && cfg.keyframeInterval > 0 && i <= k <= |es|
    requires Partials(fs, i, k) >= cfg.keyframeInterval
    ensures exists j | i <= j < k :: KeyAt(fs, j)
  {
    PeriodRun(cfg, ss, es, fs, k);
    if forall j | i <= j < k :: !KeyAt(fs, j) {
      WithoutKey(fs, i, k);
    }
  }
}
