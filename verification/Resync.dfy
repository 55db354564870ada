/** The resync loop: a target without a session-info frame asks for one, the source answers with its next data tick, and
    from there on the target follows again. */
module Resync {
  import opened Options
  import opened Bytes
  import opened Source
  import opened SourceRuns
  import opened Target
  import opened Deltas
  import opened Healing
  import opened EndToEnd
  import opened LossyLink
  import opened Replication

  /** The source takes the target's request as what it is: a resync is pending, and deltas are allowed unless they are
      switched off. */
  lemma RequestIsUnderstood(cfg: Config, s: Src, q: TargetState, cut: bool, due: bool)
    requires Request(q, cut, due).Some?
    ensures !q.t.hasFull
    ensures var s1 := Poll(cfg, s, Request(q, cut, due)); s1.pendingResync && (!cfg.noDelta ==> s1.supportsDelta)
  {
  }

  lemma PollAllows(cfg: Config, ss: seq<Src>, es: seq<Event>, fs: seq<Option<Frame>>, q: TargetState, cut: bool,
                   due: bool, i: nat, j: nat)
    requires Run(cfg, ss, es, fs) && i < |es| && j == i + 1 && Polls(es, fs, i)
    requires Request(q, cut, due).Some? && es[i].cap == Request(q, cut, due)
    ensures !q.t.hasFull && (!cfg.noDelta ==> ss[j].supportsDelta)
  {
    assert Steps(cfg, ss, es, fs, i);
    RequestIsUnderstood(cfg, ss[i], q, cut, due);
  }

  // ---------- the frame after a session-info frame ----------

  lemma SessionResets(cfg: Config, s: Src, e: Event)
    requires ValidSrc(s) && Possible(e) && Step(cfg, s, e).1.Some? && IsSession(Step(cfg, s, e).1.value)
    ensures Step(cfg, s, e).0.tickCounter == 0
  {
  }

  lemma CounterStaysZero(cfg: Config, s: Src, e: Event)
    requires ValidSrc(s) && Possible(e) && !IsPartial(Step(cfg, s, e).1) && s.tickCounter == 0
    ensures Step(cfg, s, e).0.tickCounter == 0
  {
  }

  /** No partial frame is emitted from event `i` up to event `k`. */
  ghost predicate NoPartial(fs: seq<Option<Frame>>, i: nat, k: nat)
    requires i <= k <= |fs|
  {
    forall j | i <= j < k :: !IsPartial(fs[j])
  }

  lemma {:induction false} ZeroUntilPartial(cfg: Config, ss: seq<Src>, es: seq<Event>, fs: seq<Option<Frame>>, i: nat,
                                            k: nat)
    requires Run(cfg, ss, es, fs) && i < k <= |es| && SessionAt(fs, i) && NoPartial(fs, i + 1, k)
    ensures ss[k].tickCounter == 0
    decreases k
  {
    assert Steps(cfg, ss, es, fs, k - 1);
    if i == k - 1 {
      SessionResets(cfg, ss[i], es[i]);
    } else {
      ZeroUntilPartial(cfg, ss, es, fs, i, k - 1);
      assert !IsPartial(fs[k - 1]);
      CounterStaysZero(cfg, ss[k - 1], es[k - 1]);
    }
  }

  /** The first partial frame after a session-info frame is a keyframe. */
  lemma KeyframeFollows(cfg: Config, ss: seq<Src>, es: seq<Event>, fs: seq<Option<Frame>>, i: nat, k: nat)
    requires Run(cfg, ss, es, fs) && i < k < |es| && SessionAt(fs, i) && NoPartial(fs, i + 1, k) && IsPartial(fs[k])
    ensures KeyAt(fs, k)
  {
    ZeroUntilPartial(cfg, ss, es, fs, i, k);
    assert Steps(cfg, ss, es, fs, k);
    DeltaNeeds(cfg, ss[k], es[k]);
    FrameFacts(cfg, ss[k], es[k]);
  }

  // ---------- the target behind it ----------

  lemma SessionOpens(cfg: Config, s: Src, e: Event, t: Tgt, fate: Fate)
    requires ValidSrc(s) && Possible(e) && ValidTgt(t) && Calm(e, Step(cfg, s, e).1)
    requires Step(cfg, s, e).1.Some? && IsSession(Step(cfg, s, e).1.value) && SmallEnough(Step(cfg, s, e).1)
    requires fate.outcome.Arrives?
    ensures Deliver(t, Step(cfg, s, e).1, fate).hasFull
  {
    SessionSent(cfg, s, e);
  }

  lemma DeliverKeepsFull(t: Tgt, f: Option<Frame>, fate: Fate)
    requires ValidTgt(t) && SmallEnough(f) && Fair(f, fate) && t.hasFull && !fate.stale
    ensures Deliver(t, f, fate).hasFull && Before(t, fate).hasFull
  {
  }

  /** The target does not go stale from event `i` up to event `k`. */
  ghost predicate Awake(fates: seq<Fate>, i: nat, k: nat)
    requires i <= k <= |fates|
  {
    forall j | i <= j < k :: !fates[j].stale
  }

  lemma {:induction false} StaysFull(link: Link, ws: seq<World>, es: seq<Event>, xs: seq<Weather>,
                                     fs: seq<Option<Frame>>, maxPayload: nat, fates: seq<Fate>, i: nat, k: nat)
    requires LossyRun(link, ws, es, xs, fs, maxPayload) && HasFates(link, ws, es, xs, fs, maxPayload, fates, |es|)
    requires i <= k <= |es| && Awake(fates, i, k) && ws[i].target.t.hasFull
    ensures ws[k].target.t.hasFull
    decreases k
  {
    if i < k {
      StaysFull(link, ws, es, xs, fs, maxPayload, fates, i, k - 1);
      assert FateAt(link, ws, es, xs, fs, fates, k - 1);
      assert !fates[k - 1].stale;
      DeliverKeepsFull(ws[k - 1].target.t, fs[k - 1], fates[k - 1]);
    }
  }

  lemma SessionArrives(link: Link, ws: seq<World>, es: seq<Event>, xs: seq<Weather>, fs: seq<Option<Frame>>,
                       maxPayload: nat, fates: seq<Fate>, hs: seq<History>, i: nat, j: nat)
    requires CalmRun(link, ws, es, xs, fs, maxPayload, fates, hs) && i < |es| && j == i + 1
    requires SessionAt(fs, i) && fates[i].outcome.Arrives?
    ensures ws[j].target.t.hasFull
  {
    assert RemembersAt(ws, es, fs, fates, hs, i);
    assert FateAt(link, ws, es, xs, fs, fates, i);
    SessionOpens(link.cfg, ws[i].src, es[i], ws[i].target.t, fates[i]);
  }

  lemma FullThere(link: Link, ws: seq<World>, es: seq<Event>, xs: seq<Weather>, fs: seq<Option<Frame>>,
                  maxPayload: nat, fates: seq<Fate>, i: nat, k: nat)
    requires LossyRun(link, ws, es, xs, fs, maxPayload) && HasFates(link, ws, es, xs, fs, maxPayload, fates, |es|)
    requires i <= k < |es| && Awake(fates, i, k + 1) && ws[i].target.t.hasFull
    ensures FullAt(ws, fates, k)
  {
    StaysFull(link, ws, es, xs, fs, maxPayload, fates, i, k);
    assert FateAt(link, ws, es, xs, fs, fates, k);
    assert !fates[k].stale;
  }

  /** The target's request is polled at event `a`, the next data tick is event `s`, and event `k` is the first partial
      frame after it; both frames arrive and the target does not go stale in between. */
  ghost predicate Answered(es: seq<Event>, fs: seq<Option<Frame>>, fates: seq<Fate>, request: Option<seq<byte>>, a: nat,
                           s: nat, k: nat)
    requires |es| == |fs| == |fates|
  {
    && a < s < k < |es| && request.Some? && es[a].cap == request && Polls(es, fs, a)
    && NoTick(es, a + 1, s) && es[s].Tick? && fates[s].outcome.Arrives?
    && NoPartial(fs, s + 1, k) && IsPartial(fs[k]) && fates[k].outcome.Arrives? && Awake(fates, s + 1, k + 1)
  }

  /** The loop closes, whatever state the two sides were in and whatever was lost before. Only a target without a
      session-info frame asks; once its request is polled, deltas are allowed unless they are switched off, and the next
      data tick sends a session-info frame; when that arrives the target writes again, the first partial frame after it
      is a keyframe, and when that arrives the target's map is the source's on header and selected slot and the two
      sides agree. */
  lemma ResyncRecovers(link: Link, ws: seq<World>, es: seq<Event>, xs: seq<Weather>, fs: seq<Option<Frame>>,
                       maxPayload: nat, fates: seq<Fate>, hs: seq<History>, lens: seq<nat>, q: TargetState, cut: bool,
                       due: bool, a: nat, s: nat, k: nat)
    requires CalmRun(link, ws, es, xs, fs, maxPayload, fates, hs) && Lengths(fs, lens)
    requires Answered(es, fs, fates, Request(q, cut, due), a, s, k)
    ensures !q.t.hasFull && (!link.cfg.noDelta ==> ws[a + 1].src.supportsDelta)
    ensures SessionAt(fs, s) && ws[s + 1].target.t.hasFull
    ensures KeyAt(fs, k) && es[k].Tick? && Replicated(ws[k + 1].target.t, es[k].rd.select)
    ensures AgreeAt(Sources(ws), Targets(ws), lens, k + 1)
  {
    var ss := Sources(ws);
    LossyRunIsLinkRun(link, ws, es, xs, fs, maxPayload, fates, lens);
    ResyncIsAnswered(link.cfg, ss, es, fs, a, s);
    PollAllows(link.cfg, ss, es, fs, q, cut, due, a, a + 1);
    SessionArrives(link, ws, es, xs, fs, maxPayload, fates, hs, s, s + 1);
    KeyframeFollows(link.cfg, ss, es, fs, s, k);
    FullThere(link, ws, es, xs, fs, maxPayload, fates, s + 1, k);
    LandedFrameIsReplicated(link, ws, es, xs, fs, maxPayload, fates, hs, lens, k, k + 1);
    AgreeAgain(link.cfg, ss, es, fs, Targets(ws), fates, lens, k, k + 1);
  }
}
