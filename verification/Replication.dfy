/** The end-to-end theorem: over every run of the pipeline in which every tick reads one snapshot, the target's map
    follows the game's map through session-info frames, keyframes, deltas, capability packets, reconnects, failed
    sends, dropped datagrams and stale resets, whenever a frame arrives while the two sides agree. */
module Replication {
  import opened Options
  import opened Bytes
  import opened Irsdk
  import opened Source
  import opened Target
  import opened Deltas
  import opened Healing
  import opened EndToEnd
  import opened Mirror
  import opened LossyLink
  import SourceRuns

  // ---------- what is known about the target's map ----------

  /** What a slot of the map was last filled with. */
  datatype Left = Left(tick: i32, contents: seq<byte>)

  /** The snapshot of the latest session-info frame whose prefix is still in the map, and the slots that still hold
      what the latest partial frame left there. */
  datatype History = History(session: Option<seq<byte>>, slots: map<nat, Left>)

  const NOTHING := History(None, map[])

  /** The slots that a write to `off..off + len` leaves alone. */
  function Apart(slots: map<nat, Left>, off: nat, len: nat): map<nat, Left> {
    map o | o in slots && (o + |slots[o].contents| <= off || off + len <= o) :: slots[o]
  }

  /** The slots that a write up to `e` leaves alone. */
  function Behind(slots: map<nat, Left>, e: nat): map<nat, Left> {
    map o | o in slots && e <= o :: slots[o]
  }

  /** The history after one event. `full` tells whether the target writes partial frames, `exact` whether it writes
      this one right. A stale reset and a message that is no frame leave nothing known. */
  function Remember(h: History, e: Event, f: Option<Frame>, fate: Fate, full: bool, exact: bool): History
    requires f.Some? ==> e.Tick?
  {
    var h0 := if fate.stale then NOTHING else h;
    if f.None? || fate.outcome.Lost? then h0
    else if fate.outcome.Garbled? then NOTHING
    else if IsSession(f.value) then History(Some(e.rd.select), Behind(h0.slots, PrefixEnd(e.rd.select)))
    else if !full then h0
    else match ActiveSlot(e.rd.select)
         case None => h0
         case Some(slot) =>
           History(if h0.session.Some? && PrefixEnd(h0.session.value) <= slot.off then h0.session else None,
                   Refilled(Apart(h0.slots, slot.off, slot.len), e.rd.select, slot, exact))
  }

  function Refilled(others: map<nat, Left>, snap: seq<byte>, slot: Slot, exact: bool): map<nat, Left> {
    if exact && slot.off + slot.len <= |snap| then
      others[slot.off := Left(slot.tick, snap[slot.off..slot.off + slot.len])]
    else others
  }

  predicate KnownSession(snap: seq<byte>, t: Tgt) {
    && IRSDK_HEADER_SIZE <= |snap| <= MAX_TELEMETRY_SIZE && OffsetsNonNegative(snap)
    && t.hasFull && t.shared.Some? && HoldsPrefix(t.shared.value, snap)
  }

  predicate SlotHeld(m: seq<byte>, o: nat, left: Left) {
    IRSDK_HEADER_SIZE <= o && o + |left.contents| <= |m| && m[o..o + |left.contents|] == left.contents
  }

  /** The history tells the truth. */
  predicate Vouched(h: History, t: Tgt) {
    && (h.session.Some? ==> KnownSession(h.session.value, t))
    && (forall o | o in h.slots :: t.shared.Some? && SlotHeld(t.shared.value, o, h.slots[o]))
  }

  /** Every tick reads one snapshot, whose selected slot does not reach into the header. */
  predicate Calm(e: Event, f: Option<Frame>) {
    e.Tick? ==>
      && Atomic(e)
      && (IsPartial(f) && ActiveSlot(e.rd.select).Some? ==> ActiveSlot(e.rd.select).value.off >= IRSDK_HEADER_SIZE)
  }

  // ---------- one event ----------

  /** A session-info frame is the copied prefix. */
  lemma SessionSent(cfg: Config, s: Src, e: Event)
    requires ValidSrc(s) && Possible(e) && Step(cfg, s, e).1.Some? && IsSession(Step(cfg, s, e).1.value)
    ensures e.Tick? && Step(cfg, s, e).1 == Some(SessionFrame(e.rd))
  {
    if e.Tick? && ActiveSlot(e.rd.select).Some? {
      PartialFacts(cfg, Started(s), e.rd, ActiveSlot(e.rd.select).value);
    }
  }

  lemma OnlyTicksSend(cfg: Config, s: Src, e: Event)
    requires ValidSrc(s) && Possible(e)
    ensures Step(cfg, s, e).1.Some? ==> e.Tick?
  {
  }

  /** A slot that a write elsewhere left alone is still held. */
  lemma SlotsKept(h: History, m0: seq<byte>, m1: seq<byte>, slot: Slot, o: nat)
    requires o in Apart(h.slots, slot.off, slot.len) && SlotHeld(m0, o, h.slots[o]) && Elsewhere(m0, m1, slot)
    ensures SlotHeld(m1, o, h.slots[o])
  {
    var n := |h.slots[o].contents|;
    assert forall k | o <= k < o + n :: m1[k] == m0[k];
  }

  /** The slots that are vouched for after a partial frame. */
  lemma SlotsVouched(h: History, m0: seq<byte>, m1: seq<byte>, snap: seq<byte>, slot: Slot, exact: bool)
    requires (forall o | o in h.slots :: SlotHeld(m0, o, h.slots[o])) && Elsewhere(m0, m1, slot)
    requires slot.off >= IRSDK_HEADER_SIZE && (exact ==> Mirrors(m1, snap, slot))
    ensures var slots := Refilled(Apart(h.slots, slot.off, slot.len), snap, slot, exact);
            forall o | o in slots :: SlotHeld(m1, o, slots[o])
  {
    var others := Apart(h.slots, slot.off, slot.len);
    var slots := Refilled(others, snap, slot, exact);
    forall o | o in slots ensures SlotHeld(m1, o, slots[o]) {
      if o in others && slots[o] == others[o] {
        SlotsKept(h, m0, m1, slot, o);
      }
    }
  }

  lemma PartialVouched(cfg: Config, s: Src, e: Event, t: Tgt, h: History)
    requires ValidSrc(s) && ValidTgt(t) && t.hasFull && Vouched(h, t) && Atomic(e)
    requires IsPartial(Step(cfg, s, e).1) && SmallEnough(Step(cfg, s, e).1) && Calm(e, Step(cfg, s, e).1)
    ensures var (s1, f) := Step(cfg, s, e);
            Vouched(Remember(h, e, f, INTACT, true, !Wrong(s1, t, f, INTACT)), Deliver(t, f, INTACT))
  {
    var (s1, f) := Step(cfg, s, e);
    PartialStays(cfg, s, e, t);
    if !Wrong(s1, t, f, INTACT) {
      PartialMirrors(cfg, s, e, t);
    }
    MapVouched(t, Deliver(t, f, INTACT), h, e, f, !Wrong(s1, t, f, INTACT));
  }

  /** The history after a partial frame, from what was written. */
  lemma MapVouched(t: Tgt, t1: Tgt, h: History, e: Event, f: Option<Frame>, exact: bool)
    requires ValidTgt(t) && ValidTgt(t1) && Vouched(h, t) && Atomic(e) && IsPartial(f) && Calm(e, f)
    requires ActiveSlot(e.rd.select).Some? && t1.hasFull && t1.shared.Some?
    requires Elsewhere(MapBefore(t), t1.shared.value, ActiveSlot(e.rd.select).value)
    requires exact ==> Mirrors(t1.shared.value, e.rd.select, ActiveSlot(e.rd.select).value)
    ensures Vouched(Remember(h, e, f, INTACT, true, exact), t1)
  {
    var slot := ActiveSlot(e.rd.select).value;
    SlotsVouched(h, MapBefore(t), t1.shared.value, e.rd.select, slot, exact);
    if h.session.Some? && PrefixEnd(h.session.value) <= slot.off {
      PrefixKept(MapBefore(t), t1.shared.value, h.session.value, slot);
    }
  }

  lemma SessionVouched(cfg: Config, s: Src, e: Event, t: Tgt, h: History, exact: bool)
    requires ValidSrc(s) && ValidTgt(t) && Vouched(h, t) && Atomic(e)
    requires Step(cfg, s, e).1.Some? && IsSession(Step(cfg, s, e).1.value) && SmallEnough(Step(cfg, s, e).1)
    ensures var f := Step(cfg, s, e).1;
            Vouched(Remember(h, e, f, INTACT, t.hasFull, exact), Deliver(t, f, INTACT))
  {
    SessionSent(cfg, s, e);
    SessionMirrors(cfg, s, e, t);
    var m0, m1 := MapBefore(t), Deliver(t, Step(cfg, s, e).1, INTACT).shared.value;
    PrefixThen(m0, m1, e.rd.select);
    var p := PrefixEnd(e.rd.select);
    forall o | o in Behind(h.slots, p) ensures SlotHeld(m1, o, h.slots[o]) {
      var n := |h.slots[o].contents|;
      SliceOfShifted(m1, p, |m1|, o, o + n);
      SliceOfShifted(m0, p, |m0|, o, o + n);
    }
  }

  /** A partial frame is ignored before any session-info frame. */
  lemma IgnoredVouched(t: Tgt, f: Frame, h: History)
    requires ValidTgt(t) && !t.hasFull && Vouched(h, t) && !IsSession(f) && |f.payload| <= MAX_TELEMETRY_SIZE
    ensures Vouched(h, Deliver(t, Some(f), INTACT)) && !Deliver(t, Some(f), INTACT).hasFull
  {
  }

  lemma StaleVouched(t: Tgt, h: History, fate: Fate)
    requires ValidTgt(t) && Vouched(h, t)
    ensures Vouched(if fate.stale then NOTHING else h, Before(t, fate))
  {
  }

  lemma EventVouched(cfg: Config, s: Src, e: Event, t: Tgt, h: History, fate: Fate)
    requires ValidSrc(s) && Possible(e) && ValidTgt(t) && Vouched(h, t) && Calm(e, Step(cfg, s, e).1)
    requires SmallEnough(Step(cfg, s, e).1) && Fair(Step(cfg, s, e).1, fate)
    ensures Step(cfg, s, e).1.Some? ==> e.Tick?
    ensures var (s1, f) := Step(cfg, s, e);
            Vouched(Remember(h, e, f, fate, Before(t, fate).hasFull, !Wrong(s1, t, f, fate)), Deliver(t, f, fate))
  {
    OnlyTicksSend(cfg, s, e);
    StaleVouched(t, h, fate);
    var (s1, f) := Step(cfg, s, e);
    var t0, h0 := Before(t, fate), if fate.stale then NOTHING else h;
    if f.Some? && fate.outcome.Arrives? {
      if IsSession(f.value) {
        SessionVouched(cfg, s, e, t0, h0, !Wrong(s1, t, f, fate));
      } else if t0.hasFull {
        PartialVouched(cfg, s, e, t0, h0);
      } else {
        IgnoredVouched(t0, f.value, h0);
      }
    }
  }

  // ---------- runs ----------

  predicate FullAt(ws: seq<World>, fates: seq<Fate>, k: nat)
    requires k < |fates| && |ws| == |fates| + 1
  {
    ValidTgt(ws[k].target.t) && Before(ws[k].target.t, fates[k]).hasFull
  }

  predicate ExactAt(ws: seq<World>, fs: seq<Option<Frame>>, fates: seq<Fate>, k: nat)
    requires k < |fs| == |fates| && |ws| == |fs| + 1
  {
    !WrongAt(Sources(ws), fs, Targets(ws), fates, k)
  }

  predicate RemembersAt(ws: seq<World>, es: seq<Event>, fs: seq<Option<Frame>>, fates: seq<Fate>, hs: seq<History>,
                        k: nat)
    requires k < |es| == |fs| == |fates| && |ws| == |hs| == |es| + 1
  {
    && Calm(es[k], fs[k]) && (fs[k].Some? ==> es[k].Tick?)
    && hs[k + 1] == Remember(hs[k], es[k], fs[k], fates[k], FullAt(ws, fates, k), ExactAt(ws, fs, fates, k))
  }

  /** A calm run of the pipeline: the worlds, the fates of its frames, and what is known about the target's map. */
  ghost predicate CalmRun(link: Link, ws: seq<World>, es: seq<Event>, xs: seq<Weather>, fs: seq<Option<Frame>>,
                          maxPayload: nat, fates: seq<Fate>, hs: seq<History>)
  {
    && LossyRun(link, ws, es, xs, fs, maxPayload) && HasFates(link, ws, es, xs, fs, maxPayload, fates, |es|)
    && |hs| == |es| + 1 && hs[0] == NOTHING
    && forall k | 0 <= k < |es| :: RemembersAt(ws, es, fs, fates, hs, k)
  }

  lemma VouchedNext(link: Link, ws: seq<World>, es: seq<Event>, xs: seq<Weather>, fs: seq<Option<Frame>>,
                    maxPayload: nat, fates: seq<Fate>, hs: seq<History>, j: nat, k: nat)
    requires CalmRun(link, ws, es, xs, fs, maxPayload, fates, hs) && j < |es| && k == j + 1
    requires Vouched(hs[j], ws[j].target.t)
    ensures Vouched(hs[k], ws[k].target.t)
  {
    assert RemembersAt(ws, es, fs, fates, hs, j);
    assert FateAt(link, ws, es, xs, fs, fates, j);
    EventVouched(link.cfg, ws[j].src, es[j], ws[j].target.t, hs[j], fates[j]);
  }

  lemma NothingVouched(t: Tgt)
    ensures Vouched(NOTHING, t)
  {
  }

  /** The history tells the truth after every event of every run. */
  lemma {:induction false} VouchedRun(link: Link, ws: seq<World>, es: seq<Event>, xs: seq<Weather>,
                                      fs: seq<Option<Frame>>, maxPayload: nat, fates: seq<Fate>, hs: seq<History>,
                                      k: nat)
    requires CalmRun(link, ws, es, xs, fs, maxPayload, fates, hs) && k <= |es|
    ensures Vouched(hs[k], ws[k].target.t)
  {
    if k == 0 {
      NothingVouched(ws[0].target.t);
    } else {
      VouchedRun(link, ws, es, xs, fs, maxPayload, fates, hs, k - 1);
      VouchedNext(link, ws, es, xs, fs, maxPayload, fates, hs, k - 1, k);
    }
  }

  /** The map mirrors the snapshot, and both slot searches find the slot just written. */
  predicate Replicated(t: Tgt, snap: seq<byte>) {
    && t.shared.Some? && Readable(Reading(snap, snap, snap)) && ActiveSlot(snap).Some?
    && Mirrors(t.shared.value, snap, ActiveSlot(snap).value) && OffsetsNonNegative(t.shared.value)
    && ActiveSlot(t.shared.value) == ActiveSlot(snap)
    && NewestRow(t.shared.value) == Some((ActiveSlot(snap).value.tick, ActiveSlot(snap).value.off))
  }

  lemma PartialReplicates(cfg: Config, s: Src, e: Event, t: Tgt, fate: Fate)
    requires ValidSrc(s) && ValidTgt(t) && Atomic(e) && Before(t, fate).hasFull && fate.outcome.Arrives?
    requires IsPartial(Step(cfg, s, e).1) && SmallEnough(Step(cfg, s, e).1) && Calm(e, Step(cfg, s, e).1)
    requires !Wrong(Step(cfg, s, e).0, t, Step(cfg, s, e).1, fate)
    ensures Replicated(Deliver(t, Step(cfg, s, e).1, fate), e.rd.select)
  {
    AtomicPartial(cfg, s, e);
    PartialMirrors(cfg, s, e, Before(t, fate));
    SearchFindsSlot(Deliver(t, Step(cfg, s, e).1, fate).shared.value, e.rd.select);
  }

  /** A partial frame arrives while the target writes partial frames, and it is a keyframe or the sides agree. */
  ghost predicate Lands(ws: seq<World>, fs: seq<Option<Frame>>, fates: seq<Fate>, lens: seq<nat>, k: nat)
    requires k < |fs| == |fates| && |ws| == |lens| == |fs| + 1
  {
    && IsPartial(fs[k]) && fates[k].outcome.Arrives? && FullAt(ws, fates, k)
    && (SourceRuns.KeyAt(fs, k) || AgreeAt(Sources(ws), Targets(ws), lens, k))
  }

  /** A frame that lands is written right. */
  lemma LandsExactly(link: Link, ws: seq<World>, es: seq<Event>, xs: seq<Weather>, fs: seq<Option<Frame>>,
                     maxPayload: nat, fates: seq<Fate>, lens: seq<nat>, j: nat)
    requires LossyRun(link, ws, es, xs, fs, maxPayload) && HasFates(link, ws, es, xs, fs, maxPayload, fates, |es|)
    requires Lengths(fs, lens) && j < |es| && Lands(ws, fs, fates, lens, j)
    ensures ExactAt(ws, fs, fates, j)
  {
    LossyRunIsLinkRun(link, ws, es, xs, fs, maxPayload, fates, lens);
    EventOnRun(link.cfg, Sources(ws), es, fs, Targets(ws), fates, lens, j, j + 1);
  }

  lemma ExactMeans(link: Link, ws: seq<World>, es: seq<Event>, xs: seq<Weather>, fs: seq<Option<Frame>>,
                   fates: seq<Fate>, j: nat)
    requires |ws| == |es| + 1 && |es| == |xs| == |fs| == |fates| && j < |es|
    requires FateAt(link, ws, es, xs, fs, fates, j)
    ensures ExactAt(ws, fs, fates, j)
            <==> !Wrong(Step(link.cfg, ws[j].src, es[j]).0, ws[j].target.t, Step(link.cfg, ws[j].src, es[j]).1,
                        fates[j])
  {
    assert Sources(ws)[j + 1] == ws[j + 1].src == Step(link.cfg, ws[j].src, es[j]).0;
    assert Targets(ws)[j] == ws[j].target.t;
  }

  /** End to end, whatever was lost before: after every partial frame that lands the target's map equals the source's
      snapshot on the 112-byte header and the selected slot, shows exactly that slot as the newest one, and still
      holds the prefix of the session-info frame that the history vouches for. */
  lemma LandedFrameIsReplicated(link: Link, ws: seq<World>, es: seq<Event>, xs: seq<Weather>, fs: seq<Option<Frame>>,
                                maxPayload: nat, fates: seq<Fate>, hs: seq<History>, lens: seq<nat>, j: nat, k: nat)
    requires CalmRun(link, ws, es, xs, fs, maxPayload, fates, hs) && Lengths(fs, lens)
    requires j < |es| && k == j + 1 && Lands(ws, fs, fates, lens, j)
    ensures es[j].Tick? && Replicated(ws[k].target.t, es[j].rd.select)
    ensures hs[k].session.Some? ==> KnownSession(hs[k].session.value, ws[k].target.t)
  {
    LandsExactly(link, ws, es, xs, fs, maxPayload, fates, lens, j);
    VouchedRun(link, ws, es, xs, fs, maxPayload, fates, hs, k);
    assert RemembersAt(ws, es, fs, fates, hs, j);
    assert FateAt(link, ws, es, xs, fs, fates, j);
    ExactMeans(link, ws, es, xs, fs, fates, j);
    PartialReplicates(link.cfg, ws[j].src, es[j], ws[j].target.t, fates[j]);
  }

  // ---------- runs that lose nothing ----------

  ghost predicate NothingLost(fs: seq<Option<Frame>>, fates: seq<Fate>)
    requires |fs| == |fates|
  {
    forall k | 0 <= k < |fs| :: KeptAt(fs, fates, k)
  }

  predicate KeptAt(fs: seq<Option<Frame>>, fates: seq<Fate>, k: nat)
    requires k < |fs| == |fates|
  {
    fs[k].Some? ==> fates[k].outcome.Arrives?
  }

  /** The target writes partial frames only to a map. */
  predicate FullHasMap(t: Tgt) {
    t.hasFull ==> t.shared.Some?
  }

  lemma DeliverKeepsMap(t: Tgt, f: Option<Frame>, fate: Fate)
    requires ValidTgt(t) && SmallEnough(f) && Fair(f, fate) && FullHasMap(t)
    ensures FullHasMap(Deliver(t, f, fate))
  {
  }

  /** A target that writes partial frames has not just gone stale. */
  lemma FullMeansFresh(t: Tgt, fate: Fate)
    requires ValidTgt(t) && FullHasMap(t)
    ensures Before(t, fate).hasFull ==> !fate.stale && t.hasFull
  {
  }

  /** The sides agree, and a target that writes partial frames has a map. */
  ghost predicate InStep(ws: seq<World>, lens: seq<nat>, k: nat)
    requires k < |ws| == |lens|
  {
    AgreeAt(Sources(ws), Targets(ws), lens, k) && FullHasMap(ws[k].target.t)
  }

  lemma AgreesNext(link: Link, ws: seq<World>, es: seq<Event>, xs: seq<Weather>, fs: seq<Option<Frame>>,
                   maxPayload: nat, fates: seq<Fate>, lens: seq<nat>, j: nat, k: nat)
    requires LossyRun(link, ws, es, xs, fs, maxPayload) && HasFates(link, ws, es, xs, fs, maxPayload, fates, |es|)
    requires Lengths(fs, lens) && j < |es| && k == j + 1 && AgreeAt(Sources(ws), Targets(ws), lens, j)
    requires !LostAt(fs, fates, j)
    ensures AgreeAt(Sources(ws), Targets(ws), lens, k)
  {
    LossyRunIsLinkRun(link, ws, es, xs, fs, maxPayload, fates, lens);
    EventOnRun(link.cfg, Sources(ws), es, fs, Targets(ws), fates, lens, j, k);
  }

  lemma MapNext(link: Link, ws: seq<World>, es: seq<Event>, xs: seq<Weather>, fs: seq<Option<Frame>>,
                maxPayload: nat, fates: seq<Fate>, j: nat, k: nat)
    requires LossyRun(link, ws, es, xs, fs, maxPayload) && HasFates(link, ws, es, xs, fs, maxPayload, fates, |es|)
    requires j < |es| && k == j + 1 && FullHasMap(ws[j].target.t)
    ensures FullHasMap(ws[k].target.t)
  {
    assert FateAt(link, ws, es, xs, fs, fates, j);
    DeliverKeepsMap(ws[j].target.t, fs[j], fates[j]);
  }

  lemma StartsInStep(ws: seq<World>, lens: seq<nat>, maxPayload: nat)
    requires 0 < |ws| == |lens| && ws[0] == StartOf(maxPayload)
    ensures InStep(ws, lens, 0)
  {
    assert Targets(ws)[0] == ws[0].target.t && !ws[0].target.t.hasFull;
  }

  /** When nothing is lost the two sides stay in step, whatever goes stale. */
  lemma {:induction false} InStepRun(link: Link, ws: seq<World>, es: seq<Event>, xs: seq<Weather>,
                                     fs: seq<Option<Frame>>, maxPayload: nat, fates: seq<Fate>, lens: seq<nat>, k: nat)
    requires LossyRun(link, ws, es, xs, fs, maxPayload) && HasFates(link, ws, es, xs, fs, maxPayload, fates, |es|)
    requires Lengths(fs, lens) && NothingLost(fs, fates) && k <= |es|
    ensures InStep(ws, lens, k)
  {
    if k == 0 {
      StartsInStep(ws, lens, maxPayload);
    } else {
      InStepRun(link, ws, es, xs, fs, maxPayload, fates, lens, k - 1);
      assert KeptAt(fs, fates, k - 1);
      AgreesNext(link, ws, es, xs, fs, maxPayload, fates, lens, k - 1, k);
      MapNext(link, ws, es, xs, fs, maxPayload, fates, k - 1, k);
    }
  }

  /** End to end with nothing lost: over every run in which all frames arrive, with reconnects and stale resets
      anywhere, every partial frame that comes while the target writes partial frames leaves the target's map equal to
      the source's snapshot on header and selected slot, with that slot as the newest one. */
  lemma TargetFollowsSource(link: Link, ws: seq<World>, es: seq<Event>, xs: seq<Weather>, fs: seq<Option<Frame>>,
                            maxPayload: nat, fates: seq<Fate>, hs: seq<History>, lens: seq<nat>, j: nat, k: nat)
    requires CalmRun(link, ws, es, xs, fs, maxPayload, fates, hs) && Lengths(fs, lens) && NothingLost(fs, fates)
    requires j < |es| && k == j + 1 && IsPartial(fs[j]) && FullAt(ws, fates, j)
    ensures es[j].Tick? && Replicated(ws[k].target.t, es[j].rd.select)
  {
    InStepRun(link, ws, es, xs, fs, maxPayload, fates, lens, j);
    assert KeptAt(fs, fates, j);
    LandedFrameIsReplicated(link, ws, es, xs, fs, maxPayload, fates, hs, lens, j, k);
  }

  // ---------- the prefix of the session-info frame ----------

  /** The slot table moves only together with a session-info frame, and the slot leaves room for the prefix. */
  predicate TableKept(h: History, e: Event, f: Option<Frame>) {
    IsPartial(f) && h.session.Some? ==>
      && e.Tick? && |h.session.value| >= IRSDK_HEADER_SIZE && |e.rd.select| >= IRSDK_HEADER_SIZE
      && SameTable(h.session.value, e.rd.select)
      && (ActiveSlot(e.rd.select).Some? ==> ActiveSlot(e.rd.select).value.off > IRSDK_HEADER_SIZE)
  }

  ghost predicate TablesKept(es: seq<Event>, fs: seq<Option<Frame>>, hs: seq<History>)
    requires |es| == |fs| && |hs| == |es| + 1
  {
    forall k | 0 <= k < |es| :: TableKeptAt(es, fs, hs, k)
  }

  predicate TableKeptAt(es: seq<Event>, fs: seq<Option<Frame>>, hs: seq<History>, k: nat)
    requires k < |es| == |fs| && |hs| == |es| + 1
  {
    TableKept(hs[k], es[k], fs[k])
  }

  /** With nothing lost, a target that writes partial frames holds the prefix of the latest session-info frame. */
  lemma SessionOutlives(cfg: Config, s: Src, e: Event, t: Tgt, h: History, fate: Fate, exact: bool)
    requires ValidSrc(s) && Possible(e) && ValidTgt(t) && Vouched(h, t) && Calm(e, Step(cfg, s, e).1)
    requires SmallEnough(Step(cfg, s, e).1) && Fair(Step(cfg, s, e).1, fate)
    requires Step(cfg, s, e).1.Some? ==> e.Tick? && fate.outcome.Arrives?
    requires (t.hasFull ==> h.session.Some?) && TableKept(h, e, Step(cfg, s, e).1)
    ensures var f := Step(cfg, s, e).1;
            var h1 := Remember(h, e, f, fate, Before(t, fate).hasFull, exact);
            && (Deliver(t, f, fate).hasFull ==> h1.session.Some?)
            && (IsPartial(f) && Before(t, fate).hasFull ==> h.session.Some? && h1.session == h.session)
  {
    FullMeansFresh(t, fate);
    var f := Step(cfg, s, e).1;
    if IsPartial(f) {
      AtomicPartial(cfg, s, e);
      if Before(t, fate).hasFull {
        SlotBehindPrefix(h.session.value, e.rd.select);
      } else {
        IgnoredVouched(Before(t, fate), f.value, NOTHING);
      }
    }
  }

  lemma SessionNext(link: Link, ws: seq<World>, es: seq<Event>, xs: seq<Weather>, fs: seq<Option<Frame>>,
                    maxPayload: nat, fates: seq<Fate>, hs: seq<History>, j: nat, k: nat)
    requires CalmRun(link, ws, es, xs, fs, maxPayload, fates, hs) && j < |es| && k == j + 1
    requires KeptAt(fs, fates, j) && TableKeptAt(es, fs, hs, j)
    requires ws[j].target.t.hasFull ==> hs[j].session.Some?
    ensures ws[k].target.t.hasFull ==> hs[k].session.Some?
    ensures IsPartial(fs[j]) && FullAt(ws, fates, j) ==> hs[j].session.Some? && hs[k].session == hs[j].session
  {
    VouchedRun(link, ws, es, xs, fs, maxPayload, fates, hs, j);
    assert RemembersAt(ws, es, fs, fates, hs, j);
    assert FateAt(link, ws, es, xs, fs, fates, j);
    SessionOutlives(link.cfg, ws[j].src, es[j], ws[j].target.t, hs[j], fates[j], ExactAt(ws, fs, fates, j));
  }

  lemma {:induction false} SessionRun(link: Link, ws: seq<World>, es: seq<Event>, xs: seq<Weather>,
                                      fs: seq<Option<Frame>>, maxPayload: nat, fates: seq<Fate>, hs: seq<History>,
                                      k: nat)
    requires CalmRun(link, ws, es, xs, fs, maxPayload, fates, hs) && k <= |es|
    requires NothingLost(fs, fates) && TablesKept(es, fs, hs)
    ensures ws[k].target.t.hasFull ==> hs[k].session.Some?
  {
    if k > 0 {
      SessionRun(link, ws, es, xs, fs, maxPayload, fates, hs, k - 1);
      assert KeptAt(fs, fates, k - 1) && TableKeptAt(es, fs, hs, k - 1);
      SessionNext(link, ws, es, xs, fs, maxPayload, fates, hs, k - 1, k);
    }
  }

  /** The static part of the map: when the slot table moves only with a session-info frame and the slots start behind
      the header, the prefix of the latest session-info frame is in place after every such partial frame. */
  lemma PrefixFollowsSource(link: Link, ws: seq<World>, es: seq<Event>, xs: seq<Weather>, fs: seq<Option<Frame>>,
                            maxPayload: nat, fates: seq<Fate>, hs: seq<History>, j: nat, k: nat)
    requires CalmRun(link, ws, es, xs, fs, maxPayload, fates, hs)
    requires NothingLost(fs, fates) && TablesKept(es, fs, hs)
    requires j < |es| && k == j + 1 && IsPartial(fs[j]) && FullAt(ws, fates, j)
    ensures hs[j].session.Some? && KnownSession(hs[j].session.value, ws[k].target.t)
  {
    SessionRun(link, ws, es, xs, fs, maxPayload, fates, hs, j);
    assert KeptAt(fs, fates, j) && TableKeptAt(es, fs, hs, j);
    SessionNext(link, ws, es, xs, fs, maxPayload, fates, hs, j, k);
    VouchedRun(link, ws, es, xs, fs, maxPayload, fates, hs, k);
  }
}
