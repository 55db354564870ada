/** Which frame a data tick sends, and what is in it, in terms of what has happened since the source started: ticks,
    reconnects, packets and the frames sent before. */
module FrameHistory {
  import opened Options
  import opened Bytes
  import opened Wire
  import opened Irsdk
  import opened Source
  import opened SourceRuns
  import opened Deltas

  // ---------- what has happened before event `k` ----------

  predicate Reopens(es: seq<Event>, k: nat)
    requires k < |es|
  {
    es[k].Quiet? && es[k].reopen
  }

  /** A data tick has come since the start or the latest reconnect. */
  function Opened(es: seq<Event>, k: nat): bool
    requires k <= |es|
  {
    k > 0 && !Reopens(es, k - 1) && (es[k - 1].Tick? || Opened(es, k - 1))
  }

  /** A packet has been read since the latest session-info frame. */
  function Asked(es: seq<Event>, fs: seq<Option<Frame>>, k: nat): bool
    requires k <= |es| == |fs|
  {
    k > 0 && (Polls(es, fs, k - 1) || (!SessionAt(fs, k - 1) && Asked(es, fs, k - 1)))
  }

  /** `sessionInfoUpdate` at byte 12, 0 in a map that is too short. */
  function UpdateAt(snap: seq<byte>): i32 {
    if |snap| < 16 then 0 else I32At(snap, 12)
  }

  /** The update counter of the latest session-info frame. */
  function LatestUpdate(es: seq<Event>, fs: seq<Option<Frame>>, k: nat): i32
    requires k <= |es| == |fs|
  {
    if k == 0 then -1
    else if SessionAt(fs, k - 1) && es[k - 1].Tick? then UpdateAt(es[k - 1].rd.select)
    else LatestUpdate(es, fs, k - 1)
  }

  predicate PartialSent(fs: seq<Option<Frame>>, k: nat)
    requires k < |fs|
  {
    fs[k].Some? && !SessionAt(fs, k)
  }

  /** How many partial frames have been sent since the latest session-info frame or reconnect. */
  function PartialsSince(es: seq<Event>, fs: seq<Option<Frame>>, k: nat): nat
    requires k <= |es| == |fs|
  {
    if k == 0 || SessionAt(fs, k - 1) || Reopens(es, k - 1) then 0
    else PartialsSince(es, fs, k - 1) + if PartialSent(fs, k - 1) then 1 else 0
  }

  /** The tick of the latest partial frame since then, or -1. */
  function LastSent(es: seq<Event>, fs: seq<Option<Frame>>, k: nat): i32
    requires k <= |es| == |fs|
  {
    if k == 0 || SessionAt(fs, k - 1) || Reopens(es, k - 1) then -1
    else if PartialSent(fs, k - 1) && es[k - 1].Tick? && ActiveSlot(es[k - 1].rd.select).Some? then
      ActiveSlot(es[k - 1].rd.select).value.tick
    else LastSent(es, fs, k - 1)
  }

  // ---------- the state says what has happened ----------

  ghost predicate Recalls(cfg: Config, s: Src, es: seq<Event>, fs: seq<Option<Frame>>, k: nat)
    requires k <= |es| == |fs|
  {
    && ValidSrc(s)
    && s.gotData == Opened(es, k) && (s.gotData ==> !s.fullDue && s.lastSessionUpdate == LatestUpdate(es, fs, k))
    && s.pendingResync == Asked(es, fs, k)
    && s.tickCounter == PartialsSince(es, fs, k) % 0x1_0000_0000 && s.lastTick == LastSent(es, fs, k)
    && s.supportsDelta == (!cfg.noDelta && Announced(es, fs, k))
  }

  /** Event `j` as it moves each of these on. */
  lemma {:induction false} HistoryMoves(es: seq<Event>, fs: seq<Option<Frame>>, j: nat, k: nat)
    requires j < |es| == |fs| && k == j + 1
    ensures Opened(es, k) == (!Reopens(es, j) && (es[j].Tick? || Opened(es, j)))
    ensures Asked(es, fs, k) == (Polls(es, fs, j) || (!SessionAt(fs, j) && Asked(es, fs, j)))
    ensures LatestUpdate(es, fs, k)
            == if SessionAt(fs, j) && es[j].Tick? then UpdateAt(es[j].rd.select) else LatestUpdate(es, fs, j)
    ensures PartialsSince(es, fs, k)
            == if SessionAt(fs, j) || Reopens(es, j) then 0
               else PartialsSince(es, fs, j) + if PartialSent(fs, j) then 1 else 0
    ensures LastSent(es, fs, k)
            == if SessionAt(fs, j) || Reopens(es, j) then -1
               else if PartialSent(fs, j) && es[j].Tick? && ActiveSlot(es[j].rd.select).Some? then
                 ActiveSlot(es[j].rd.select).value.tick
               else LastSent(es, fs, j)
    ensures Announced(es, fs, k)
            == if Polls(es, fs, j) then |es[j].cap.value| >= 2 && es[j].cap.value[1] as int % 2 == 1
               else Announced(es, fs, j)
  {
  }

  /** A quiet iteration. */
  lemma QuietRecalls(cfg: Config, s: Src, es: seq<Event>, fs: seq<Option<Frame>>, j: nat, k: nat)
    requires j < |es| == |fs| && k == j + 1 && Recalls(cfg, s, es, fs, j) && es[j].Quiet? && fs[j] == None
    ensures Recalls(cfg, Step(cfg, s, es[j]).0, es, fs, k)
  {
    HistoryMoves(es, fs, j, k);
  }

  /** The packet, if any, that is read after a frame was sent. */
  lemma PollRecalls(cfg: Config, s: Src, cap: Option<seq<byte>>)
    ensures var s1 := Poll(cfg, s, cap);
            && s1 == s.(pendingResync := s1.pendingResync, supportsDelta := s1.supportsDelta)
            && s1.pendingResync == (s.pendingResync || cap.Some?)
            && s1.supportsDelta == if cap.Some? && !cfg.noDelta then |cap.value| >= 2 && cap.value[1] as int % 2 == 1
                                   else s.supportsDelta
  {
  }

  /** What a data tick sends and leaves behind, before the poll. */
  lemma TickLeaves(cfg: Config, s: Src, rd: Reading, elapsed: bool)
    requires ValidSrc(s) && Readable(rd)
    ensures var (s1, f) := DataTick(cfg, s, rd, elapsed);
            && s1.supportsDelta == s.supportsDelta && (f.None? ==> s1 == s && s.gotData)
            && (f.Some? ==> s1.gotData)
            && (f.Some? && IsSession(f.value) ==>
                  !s1.fullDue && !s1.pendingResync && s1.tickCounter == 0 && s1.lastTick == -1
                  && s1.lastSessionUpdate == UpdateAt(rd.select))
            && (f.Some? && !IsSession(f.value) ==>
                  && s.gotData && ActiveSlot(rd.select).Some? && s1.lastTick == ActiveSlot(rd.select).value.tick
                  && s1 == s.(prev := s1.prev, lastTick := s1.lastTick,
                              tickCounter := (s.tickCounter + 1) % 0x1_0000_0000))
  {
    if !SessionDue(Started(s), rd, elapsed) && ActiveSlot(rd.select).Some? {
      PartialFacts(cfg, Started(s), rd, ActiveSlot(rd.select).value);
    }
  }

  lemma CounterNext(n: nat)
    ensures (n % 0x1_0000_0000 + 1) % 0x1_0000_0000 == (n + 1) % 0x1_0000_0000
  {
  }

  lemma TickRecalls(cfg: Config, s: Src, es: seq<Event>, fs: seq<Option<Frame>>, j: nat, k: nat)
    requires j < |es| == |fs| && k == j + 1 && Recalls(cfg, s, es, fs, j) && es[j].Tick? && Possible(es[j])
    requires fs[j] == Step(cfg, s, es[j]).1
    ensures Recalls(cfg, Step(cfg, s, es[j]).0, es, fs, k)
  {
    HistoryMoves(es, fs, j, k);
    TickLeaves(cfg, s, es[j].rd, es[j].elapsed);
    PollRecalls(cfg, DataTick(cfg, s, es[j].rd, es[j].elapsed).0, es[j].cap);
    CounterNext(PartialsSince(es, fs, j));
  }

  lemma {:induction false} RecallsRun(cfg: Config, ss: seq<Src>, es: seq<Event>, fs: seq<Option<Frame>>, k: nat)
    requires Run(cfg, ss, es, fs) && ss[0] == Initial() && k <= |es|
    ensures Recalls(cfg, ss[k], es, fs, k)
  {
    if k > 0 {
      RecallsRun(cfg, ss, es, fs, k - 1);
      assert Steps(cfg, ss, es, fs, k - 1);
      if es[k - 1].Tick? {
        TickRecalls(cfg, ss[k - 1], es, fs, k - 1, k);
      } else {
        QuietRecalls(cfg, ss[k - 1], es, fs, k - 1, k);
      }
    }
  }

  /** A reconnect forgets the session, the counters and the latest tick; the previous frame, a pending resync and the
      target's capability stay. */
  lemma ReopenForgets(s: Src)
    ensures Reopen(s) == Src(s.prev, 0, -1, -1, s.pendingResync, s.supportsDelta, false, true)
  {
  }

  // ---------- which frame is sent ----------

  /** The tick is the first since the start or a reconnect, or a packet has been read since the latest session-info
      frame, or the session has changed since it, or the full-frame interval is over, or no slot can be selected. */
  predicate SessionWanted(es: seq<Event>, fs: seq<Option<Frame>>, k: nat)
    requires k < |es| == |fs| && es[k].Tick?
  {
    || !Opened(es, k) || Asked(es, fs, k) || UpdateAt(es[k].rd.select) != LatestUpdate(es, fs, k)
    || es[k].elapsed || ActiveSlot(es[k].rd.select).None?
  }

  lemma TickChooses(cfg: Config, s: Src, rd: Reading, elapsed: bool)
    requires ValidSrc(s) && Readable(rd) && (s.gotData ==> !s.fullDue)
    ensures var f := DataTick(cfg, s, rd, elapsed).1;
            f.Some? && IsSession(f.value)
            <==> !s.gotData || s.pendingResync || UpdateAt(rd.select) != s.lastSessionUpdate || elapsed
                 || ActiveSlot(rd.select).None?
  {
    if !SessionDue(Started(s), rd, elapsed) && ActiveSlot(rd.select).Some? {
      PartialFacts(cfg, Started(s), rd, ActiveSlot(rd.select).value);
    }
  }

  /** Session-info frames, exactly: over every run from the start a data tick sends one if and only if one is wanted. */
  lemma SessionSentIff(cfg: Config, ss: seq<Src>, es: seq<Event>, fs: seq<Option<Frame>>, k: nat)
    requires Run(cfg, ss, es, fs) && ss[0] == Initial() && k < |es| && es[k].Tick?
    ensures SessionAt(fs, k) <==> SessionWanted(es, fs, k)
  {
    RecallsRun(cfg, ss, es, fs, k);
    assert Steps(cfg, ss, es, fs, k);
    TickChooses(cfg, ss[k], es[k].rd, es[k].elapsed);
  }

  /** The slot does not fit a frame, or its tickCount has changed while it was copied, or it has been sent. */
  predicate Skipped(rd: Reading, slot: Slot, sent: i32)
    requires slot.tickField + 4 <= |rd.after|
  {
    112 + slot.len > MAX_TELEMETRY_SIZE || I32At(rd.after, slot.tickField) != slot.tick || slot.tick == sent
  }

  lemma TickSends(cfg: Config, s: Src, rd: Reading, elapsed: bool)
    requires ValidSrc(s) && Readable(rd) && s.gotData && !s.fullDue && !s.pendingResync && !elapsed
    requires UpdateAt(rd.select) == s.lastSessionUpdate && ActiveSlot(rd.select).Some?
    ensures var f := DataTick(cfg, s, rd, elapsed).1;
            && (f.None? <==> Skipped(rd, ActiveSlot(rd.select).value, s.lastTick))
            && (f.Some? ==>
                  (IsDelta(f.value)
                   <==> !cfg.noDelta && s.supportsDelta && cfg.keyframeInterval > 0
                        && s.tickCounter % cfg.keyframeInterval != 0))
  {
    var slot := ActiveSlot(rd.select).value;
    assert DataTick(cfg, s, rd, elapsed) == SendPartial(cfg, s, rd, slot);
    if SendPartial(cfg, s, rd, slot).1.Some? {
      PartialOffset(cfg, s, rd, slot);
    }
  }

  /** Partial frames, exactly: when no session-info frame is wanted the tick sends a partial frame unless its slot is
      skipped; and that is a delta if and only if deltas are enabled, the latest packet allowed them, and the number of
      partial frames since the latest session-info frame or reconnect, as a 32-bit number, is no multiple of the
      keyframe interval. */
  lemma PartialSentIff(cfg: Config, ss: seq<Src>, es: seq<Event>, fs: seq<Option<Frame>>, k: nat)
    requires Run(cfg, ss, es, fs) && ss[0] == Initial() && k < |es| && es[k].Tick? && !SessionWanted(es, fs, k)
    ensures Readable(es[k].rd)
    ensures fs[k].None? <==> Skipped(es[k].rd, ActiveSlot(es[k].rd.select).value, LastSent(es, fs, k))
    ensures fs[k].Some? ==>
              (DeltaAt(fs, k)
               <==> !cfg.noDelta && cfg.keyframeInterval > 0 && Announced(es, fs, k)
                    && PartialsSince(es, fs, k) % 0x1_0000_0000 % cfg.keyframeInterval != 0)
  {
    RecallsRun(cfg, ss, es, fs, k);
    assert Steps(cfg, ss, es, fs, k);
    TickSends(cfg, ss[k], es[k].rd, es[k].elapsed);
  }

  /** Telemetry gets out: a tick that reads one snapshot, whose slot fits and has not been sent, sends a partial frame
      when no session-info frame is wanted. */
  lemma FreshTickIsSent(cfg: Config, ss: seq<Src>, es: seq<Event>, fs: seq<Option<Frame>>, k: nat)
    requires Run(cfg, ss, es, fs) && ss[0] == Initial() && k < |es| && es[k].Tick? && !SessionWanted(es, fs, k)
    requires es[k].rd.after == es[k].rd.select
    requires var slot := ActiveSlot(es[k].rd.select).value;
             112 + slot.len <= MAX_TELEMETRY_SIZE && slot.tick != LastSent(es, fs, k)
    ensures PartialSent(fs, k)
  {
    PartialSentIff(cfg, ss, es, fs, k);
    SessionSentIff(cfg, ss, es, fs, k);
    assert Steps(cfg, ss, es, fs, k);
    TickFieldReads(es[k].rd.select);
  }

  // ---------- what is in it ----------

  /** A session-info frame: marked by the offset 2^32 - 1, the copied map up to the first slot, with the status
      zeroed. */
  lemma SessionPayload(cfg: Config, ss: seq<Src>, es: seq<Event>, fs: seq<Option<Frame>>, k: nat)
    requires Run(cfg, ss, es, fs) && k < |es| && SessionAt(fs, k)
    ensures es[k].Tick? && fs[k].value.bufOffset == 0xFFFF_FFFF
    ensures |fs[k].value.payload| == PrefixEnd(es[k].rd.select) <= |es[k].rd.copy|
    ensures forall b | 0 <= b < |fs[k].value.payload| ::
              fs[k].value.payload[b] == if 4 <= b < 8 then 0 else es[k].rd.copy[b]
  {
    assert Steps(cfg, ss, es, fs, k);
    SessionIsPrefix(cfg, ss[k], es[k]);
  }

  lemma SessionIsPrefix(cfg: Config, s: Src, e: Event)
    requires ValidSrc(s) && Possible(e) && Step(cfg, s, e).1.Some? && IsSession(Step(cfg, s, e).1.value)
    ensures e.Tick?
    ensures Step(cfg, s, e).1.value.payload == WithoutStatus(e.rd.copy, PrefixEnd(e.rd.select))
  {
    if e.Tick? && ActiveSlot(e.rd.select).Some? {
      PartialFacts(cfg, Started(s), e.rd, ActiveSlot(e.rd.select).value);
    }
  }

  /** The 112 header bytes and the slot, as copied. */
  function Cut(rd: Reading, slot: Slot): (p: seq<byte>)
    requires 112 <= |rd.copy| && slot.off + slot.len <= |rd.copy|
  {
    rd.copy[..112] + rd.copy[slot.off..slot.off + slot.len]
  }

  /** A partial frame: a keyframe is header and slot at the slot's offset; a delta is its XOR with the front of the
      previous frame, and the top bit of the offset is set. Either way header and slot become the front of the previous
      frame. */
  lemma PartialPayload(cfg: Config, ss: seq<Src>, es: seq<Event>, fs: seq<Option<Frame>>, k: nat)
    requires Run(cfg, ss, es, fs) && k < |es| && PartialSent(fs, k)
    ensures es[k].Tick? && ActiveSlot(es[k].rd.select).Some? && |ss[k].prev| == |ss[k + 1].prev| == MAX_TELEMETRY_SIZE
    ensures var slot, f := ActiveSlot(es[k].rd.select).value, fs[k].value;
            && 112 <= |es[k].rd.copy| && slot.off + slot.len <= |es[k].rd.copy| && 112 + slot.len <= MAX_TELEMETRY_SIZE
            && var cut := Cut(es[k].rd, slot);
               && (KeyAt(fs, k) ==> f.bufOffset == slot.off && f.payload == cut)
               && (DeltaAt(fs, k) ==>
                     f.bufOffset == slot.off + 0x8000_0000 && f.payload == Xor(cut, ss[k].prev[..|cut|]))
               && ss[k + 1].prev == cut + ss[k].prev[|cut|..]
  {
    assert Steps(cfg, ss, es, fs, k);
    TickLeaves(cfg, ss[k], es[k].rd, es[k].elapsed);
    PartialIsCut(cfg, ss[k], es[k]);
  }

  lemma PartialIsCut(cfg: Config, s: Src, e: Event)
    requires ValidSrc(s) && Possible(e) && e.Tick? && Step(cfg, s, e).1.Some? && !IsSession(Step(cfg, s, e).1.value)
    requires ActiveSlot(e.rd.select).Some?
    ensures var slot, (s1, f) := ActiveSlot(e.rd.select).value, Step(cfg, s, e);
            && slot.off + slot.len <= |e.rd.copy| && 112 <= |e.rd.copy| && 112 + slot.len <= MAX_TELEMETRY_SIZE
            && |s1.prev| == MAX_TELEMETRY_SIZE
            && var cut := Cut(e.rd, slot);
               && (IsKeyframe(f.value) ==> f.value.bufOffset == slot.off && f.value.payload == cut)
               && (IsDelta(f.value) ==>
                     f.value.bufOffset == slot.off + 0x8000_0000 && f.value.payload == Xor(cut, s.prev[..|cut|]))
               && s1.prev == cut + s.prev[|cut|..]
  {
    var slot := ActiveSlot(e.rd.select).value;
    assert Step(cfg, s, e).0.prev == SendPartial(cfg, Started(s), e.rd, slot).0.prev;
    PartialOffset(cfg, Started(s), e.rd, slot);
    DeltaBitIsTop(slot.off);
    assert Staged(e.rd, slot) == Cut(e.rd, slot);
    SpliceFront(s.prev, Cut(e.rd, slot));
  }

  lemma SpliceFront(s: seq<byte>, d: seq<byte>)
    requires |d| <= |s|
    ensures Splice(s, 0, d) == d + s[|d|..]
  {
  }
}
