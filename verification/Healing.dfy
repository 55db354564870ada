/** How many frames come out wrong when frames are lost: the source and the target run side by side, a frame arrives
    once and in order or not at all or something else arrives in its place, and the target may go stale at any time. */
module Healing {
  import opened Options
  import opened Bytes
  import opened Wire
  import opened Irsdk
  import opened Source
  import opened SourceRuns
  import opened Target
  import opened Deltas

  /** What becomes of the frame an event emits: it is lost, it arrives, or the target applies another message in its
      place. */
  datatype Outcome = Lost | Arrives | Garbled(off: u32, dec: Option<seq<byte>>)

  /** The target's side of one event: the stale timeout may fire first. */
  datatype Fate = Fate(stale: bool, outcome: Outcome)

  const INTACT := Fate(false, Arrives)

  function Before(t: Tgt, fate: Fate): (r: Tgt)
    requires ValidTgt(t)
    ensures ValidTgt(r)
  {
    if fate.stale then Stale(t) else t
  }

  predicate SmallEnough(f: Option<Frame>) {
    f.Some? ==> |f.value.payload| <= MAX_TELEMETRY_SIZE
  }

  /** Only a frame can be garbled, and what comes instead has been decompressed. */
  predicate Fair(f: Option<Frame>, fate: Fate) {
    fate.outcome.Garbled? ==> f.Some? && (fate.outcome.dec.Some? ==> |fate.outcome.dec.value| <= MAX_TELEMETRY_SIZE)
  }

  function Deliver(t: Tgt, f: Option<Frame>, fate: Fate): (r: Tgt)
    requires ValidTgt(t) && SmallEnough(f) && Fair(f, fate)
    ensures ValidTgt(r)
  {
    var t1 := Before(t, fate);
    match fate.outcome
    case Lost => t1
    case Arrives => if f.Some? then Message(t1, f.value.bufOffset, Some(f.value.payload)) else t1
    case Garbled(off, dec) => Message(t1, off, dec)
  }

  predicate IsPartial(f: Option<Frame>) {
    f.Some? && !IsSession(f.value)
  }

  /** The target writes a partial frame that arrived, but not as the source staged it. `s1` is the source afterwards. */
  predicate Wrong(s1: Src, t: Tgt, f: Option<Frame>, fate: Fate)
    requires ValidSrc(s1) && ValidTgt(t) && SmallEnough(f)
  {
    && IsPartial(f) && fate.outcome.Arrives? && Before(t, fate).hasFull
    && Reconstruct(Before(t, fate).prev, f.value.bufOffset, f.value.payload) != s1.prev[..|f.value.payload|]
  }

  /** The two sides agree as far as the next frame needs it: the target writes no partial frame yet, or the next
      one is a keyframe, or the first `len` bytes are the same on both sides. */
  predicate Agree(s: Src, t: Tgt, len: nat) {
    !t.hasFull || s.tickCounter == 0 || (len <= |s.prev| && len <= |t.prev| && t.prev[..len] == s.prev[..len])
  }

  /** Length of the latest partial frame after one more frame. */
  function NextLen(f: Option<Frame>, len: nat): nat {
    if IsPartial(f) then |f.value.payload| else len
  }

  /** A delta is not longer than the partial frame before it: `bufLen` changes only with the session. */
  predicate SameLayout(f: Option<Frame>, len: nat) {
    f.Some? && IsDelta(f.value) ==> |f.value.payload| <= len
  }

  // ---------- one event ----------

  lemma QuietAgrees(cfg: Config, s: Src, e: Event, t: Tgt, len: nat, fate: Fate)
    requires ValidSrc(s) && Possible(e) && ValidTgt(t) && Step(cfg, s, e).1.None?
    requires Agree(s, t, len)
    ensures Agree(Step(cfg, s, e).0, Before(t, fate), len)
  {
    FrameFacts(cfg, s, e);
    CounterKept(cfg, s, e);
  }

  lemma CounterKept(cfg: Config, s: Src, e: Event)
    requires ValidSrc(s) && Possible(e) && Step(cfg, s, e).1.None?
    ensures Step(cfg, s, e).0.tickCounter == s.tickCounter || Step(cfg, s, e).0.tickCounter == 0
  {
  }

  /** XOR-ing a delta with any copy of the frame it was made against gives the new frame. */
  lemma DeltaUndone(new1: seq<byte>, prev: seq<byte>, copy: seq<byte>, len: nat, L: nat)
    requires L <= len <= |prev| == |copy| && L <= |new1| && copy[..len] == prev[..len]
    ensures Xor(Xor(new1[..L], prev[..L]), copy[..L]) == new1[..L]
  {
    assert copy[..L] == copy[..len][..L];
    assert prev[..L] == prev[..len][..L];
    XorCancel(new1[..L], prev[..L]);
  }

  /** A partial frame that arrives: a keyframe is never wrong, a delta is not when the sides agreed; and then
      they agree afterwards. */
  lemma PartialHeals(cfg: Config, s: Src, e: Event, t: Tgt, len: nat)
    requires ValidSrc(s) && Possible(e) && ValidTgt(t) && IsPartial(Step(cfg, s, e).1)
    requires IsKeyframe(Step(cfg, s, e).1.value) || (Agree(s, t, len) && SameLayout(Step(cfg, s, e).1, len))
    requires SmallEnough(Step(cfg, s, e).1)
    ensures var (s1, f) := Step(cfg, s, e);
            var L := |f.value.payload|;
            && (t.hasFull ==> Reconstruct(t.prev, f.value.bufOffset, f.value.payload) == s1.prev[..L])
            && Agree(s1, Message(t, f.value.bufOffset, Some(f.value.payload)), L)
  {
    var (s1, f) := Step(cfg, s, e);
    FrameFacts(cfg, s, e);
    if t.hasFull {
      var L := |f.value.payload|;
      TargetApplies(t, f.value);
      if IsDelta(f.value) {
        DeltaNeeds(cfg, s, e);
        DeltaUndone(s1.prev, s.prev, t.prev, len, L);
      }
    }
  }

  /** One event: agreement is lost only by a partial frame that does not arrive, and regained by the next keyframe or
      session-info frame; while the sides agree nothing is wrong. */
  lemma EventHeals(cfg: Config, s: Src, e: Event, t: Tgt, len: nat, fate: Fate)
    requires ValidSrc(s) && Possible(e) && ValidTgt(t)
    requires SmallEnough(Step(cfg, s, e).1) && SameLayout(Step(cfg, s, e).1, len) && Fair(Step(cfg, s, e).1, fate)
    ensures var (s1, f) := Step(cfg, s, e);
            var good1 := Agree(s1, Deliver(t, f, fate), NextLen(f, len));
            && (Wrong(s1, t, f, fate) ==> IsDelta(f.value) && !Agree(s, t, len))
            && (Agree(s, t, len) && (IsPartial(f) ==> fate.outcome.Arrives?) ==> good1)
            && (IsPartial(f) && IsKeyframe(f.value) && fate.outcome.Arrives? ==> good1)
  {
    var (s1, f) := Step(cfg, s, e);
    FrameFacts(cfg, s, e);
    if f.None? {
      if Agree(s, t, len) {
        QuietAgrees(cfg, s, e, t, len, fate);
      }
    } else if IsPartial(f) && fate.outcome.Arrives? {
      var t1 := Before(t, fate);
      assert Agree(s, t, len) ==> Agree(s, t1, len);
      if IsKeyframe(f.value) || Agree(s, t, len) {
        PartialHeals(cfg, s, e, t1, len);
      }
    }
  }

  // ---------- runs ----------

  /** Event `k` on both sides; `lens[k]` is the length of the latest partial frame before it. */
  predicate Moves(cfg: Config, ss: seq<Src>, es: seq<Event>, fs: seq<Option<Frame>>, ts: seq<Tgt>, fates: seq<Fate>,
                  lens: seq<nat>, k: nat)
    requires k < |es| == |fs| == |fates| && |ss| == |ts| == |lens| == |es| + 1
  {
    && Steps(cfg, ss, es, fs, k) && ValidTgt(ts[k]) && SmallEnough(fs[k]) && Fair(fs[k], fates[k])
    && ts[k + 1] == Deliver(ts[k], fs[k], fates[k])
    && lens[k + 1] == NextLen(fs[k], lens[k]) && SameLayout(fs[k], lens[k])
  }

  ghost predicate LinkRun(cfg: Config, ss: seq<Src>, es: seq<Event>, fs: seq<Option<Frame>>, ts: seq<Tgt>,
                          fates: seq<Fate>, lens: seq<nat>) {
    && Run(cfg, ss, es, fs) && |ts| == |lens| == |es| + 1 && |fates| == |es|
    && forall k | 0 <= k < |es| :: Moves(cfg, ss, es, fs, ts, fates, lens, k)
  }

  predicate WrongAt(ss: seq<Src>, fs: seq<Option<Frame>>, ts: seq<Tgt>, fates: seq<Fate>, k: nat)
    requires k < |fs| == |fates| && |ss| == |ts| == |fs| + 1
  {
    ValidSrc(ss[k + 1]) && ValidTgt(ts[k]) && SmallEnough(fs[k]) && Wrong(ss[k + 1], ts[k], fs[k], fates[k])
  }

  predicate AgreeAt(ss: seq<Src>, ts: seq<Tgt>, lens: seq<nat>, k: nat)
    requires k < |ss| == |ts| == |lens|
  {
    Agree(ss[k], ts[k], lens[k])
  }

  predicate LostAt(fs: seq<Option<Frame>>, fates: seq<Fate>, k: nat)
    requires k < |fs| == |fates|
  {
    IsPartial(fs[k]) && !fates[k].outcome.Arrives?
  }

  /** How many of the first `k` flags are set. */
  function Tally(flags: seq<bool>, k: nat): nat
    requires k <= |flags|
  {
    if k == 0 then 0 else Tally(flags, k - 1) + if flags[k - 1] then 1 else 0
  }

  lemma TallyStep(flags: seq<bool>, j: nat, k: nat)
    requires j < |flags| && k == j + 1
    ensures Tally(flags, k) == Tally(flags, j) + if flags[j] then 1 else 0
  {
  }

  function WrongFlags(ss: seq<Src>, fs: seq<Option<Frame>>, ts: seq<Tgt>, fates: seq<Fate>): (r: seq<bool>)
    requires |fs| == |fates| && |ss| == |ts| == |fs| + 1
    ensures |r| == |fs|
  {
    seq(|fs|, k requires 0 <= k < |fs| => WrongAt(ss, fs, ts, fates, k))
  }

  /** A keyframe, a delta that did not arrive. */
  predicate LostKeyAt(fs: seq<Option<Frame>>, fates: seq<Fate>, k: nat)
    requires k < |fs| == |fates|
  {
    LostAt(fs, fates, k) && KeyAt(fs, k)
  }

  predicate LostDeltaAt(fs: seq<Option<Frame>>, fates: seq<Fate>, k: nat)
    requires k < |fs| == |fates|
  {
    LostAt(fs, fates, k) && DeltaAt(fs, k)
  }

  function KeyFlags(fs: seq<Option<Frame>>, fates: seq<Fate>): (r: seq<bool>)
    requires |fs| == |fates|
    ensures |r| == |fs|
  {
    seq(|fs|, k requires 0 <= k < |fs| => LostKeyAt(fs, fates, k))
  }

  function DeltaFlags(fs: seq<Option<Frame>>, fates: seq<Fate>): (r: seq<bool>)
    requires |fs| == |fates|
    ensures |r| == |fs|
  {
    seq(|fs|, k requires 0 <= k < |fs| => LostDeltaAt(fs, fates, k))
  }

  /** How many partial frames among the first `k` events arrived and were written wrong. */
  function WrongFrames(ss: seq<Src>, fs: seq<Option<Frame>>, ts: seq<Tgt>, fates: seq<Fate>, k: nat): nat
    requires k <= |fs| == |fates| && |ss| == |ts| == |fs| + 1
  {
    Tally(WrongFlags(ss, fs, ts, fates), k)
  }

  /** How many keyframes among the first `k` events were lost or garbled. */
  function LostKeyframes(fs: seq<Option<Frame>>, fates: seq<Fate>, k: nat): nat
    requires k <= |fs| == |fates|
  {
    Tally(KeyFlags(fs, fates), k)
  }

  /** How many deltas. */
  function LostDeltas(fs: seq<Option<Frame>>, fates: seq<Fate>, k: nat): nat
    requires k <= |fs| == |fates|
  {
    Tally(DeltaFlags(fs, fates), k)
  }

  lemma EventOnRun(cfg: Config, ss: seq<Src>, es: seq<Event>, fs: seq<Option<Frame>>, ts: seq<Tgt>, fates: seq<Fate>,
                   lens: seq<nat>, j: nat, k: nat)
    requires LinkRun(cfg, ss, es, fs, ts, fates, lens) && j < |es| && k == j + 1
    ensures WrongAt(ss, fs, ts, fates, j) ==> DeltaAt(fs, j) && !LostAt(fs, fates, j) && !AgreeAt(ss, ts, lens, j)
    ensures AgreeAt(ss, ts, lens, j) && !LostAt(fs, fates, j) ==> AgreeAt(ss, ts, lens, k)
    ensures KeyAt(fs, j) && !LostAt(fs, fates, j) ==> AgreeAt(ss, ts, lens, k)
  {
    assert Moves(cfg, ss, es, fs, ts, fates, lens, j);
    EventHeals(cfg, ss[j], es[j], ts[j], lens[j], fates[j]);
  }

  /** How many deltas the period still has room for behind `deltas` of them. */
  function Room(interval: nat, deltas: nat): nat {
    if deltas + 1 < interval then interval - 1 - deltas else 0
  }

  /** What the losses so far can cost: a keyframe all deltas of its period, a delta those behind it. */
  function Budget(interval: nat, keys: nat, deltas: nat): nat {
    Offset(keys, Room(interval, 0)) + Offset(deltas, Room(interval, 1))
  }

  /** The counting argument: while the sides disagree, the deltas still to come before the next keyframe are paid
      for as well. */
  predicate WithinBudget(wrong: nat, budget: nat, room: nat, agree: bool) {
    wrong + (if agree then 0 else room) <= budget
  }

  lemma BudgetGrows(interval: nat, keys: nat, deltas: nat)
    ensures Budget(interval, keys + 1, deltas) == Budget(interval, keys, deltas) + Room(interval, 0)
    ensures Budget(interval, keys, deltas + 1) == Budget(interval, keys, deltas) + Room(interval, 1)
  {
    assert Offset(keys + 1, Room(interval, 0)) == Offset(keys, Room(interval, 0)) + Room(interval, 0);
    assert Offset(deltas + 1, Room(interval, 1)) == Offset(deltas, Room(interval, 1)) + Room(interval, 1);
  }

  lemma DeltasBelow(cfg: Config, ss: seq<Src>, es: seq<Event>, fs: seq<Option<Frame>>, k: nat)
    requires Run(cfg, ss, es, fs) && cfg.keyframeInterval > 0 && k <= |es|
    ensures DeltasSinceKey(fs, k) < cfg.keyframeInterval
  {
    PeriodRun(cfg, ss, es, fs, k);
  }

  lemma {:induction false} CountsStep(ss: seq<Src>, fs: seq<Option<Frame>>, ts: seq<Tgt>, fates: seq<Fate>,
                                      j: nat, k: nat)
    requires j < |fs| == |fates| && |ss| == |ts| == |fs| + 1 && k == j + 1
    ensures WrongFrames(ss, fs, ts, fates, k)
            == WrongFrames(ss, fs, ts, fates, j) + if WrongAt(ss, fs, ts, fates, j) then 1 else 0
    ensures LostKeyframes(fs, fates, k) == LostKeyframes(fs, fates, j) + if LostKeyAt(fs, fates, j) then 1 else 0
    ensures LostDeltas(fs, fates, k) == LostDeltas(fs, fates, j) + if LostDeltaAt(fs, fates, j) then 1 else 0
  {
    TallyStep(WrongFlags(ss, fs, ts, fates), j, k);
    TallyStep(KeyFlags(fs, fates), j, k);
    TallyStep(DeltaFlags(fs, fates), j, k);
  }

  lemma {:induction false} DeltasStep(fs: seq<Option<Frame>>, j: nat, k: nat)
    requires j < |fs| && k == j + 1
    ensures DeltasSinceKey(fs, k) == if KeyAt(fs, j) then 0 else DeltasSinceKey(fs, j) + if DeltaAt(fs, j) then 1 else 0
  {
  }

  /** The state of the count after `k` events; `keys0` is 1 when the sides disagree at the start. */
  ghost predicate CountedTo(cfg: Config, ss: seq<Src>, fs: seq<Option<Frame>>, ts: seq<Tgt>, fates: seq<Fate>,
                            lens: seq<nat>, keys0: nat, k: nat)
    requires k <= |fs| == |fates| && |ss| == |ts| == |lens| == |fs| + 1
  {
    WithinBudget(WrongFrames(ss, fs, ts, fates, k),
                 Budget(cfg.keyframeInterval, keys0 + LostKeyframes(fs, fates, k), LostDeltas(fs, fates, k)),
                 Room(cfg.keyframeInterval, DeltasSinceKey(fs, k)), AgreeAt(ss, ts, lens, k))
  }

  lemma CountedStep(cfg: Config, ss: seq<Src>, es: seq<Event>, fs: seq<Option<Frame>>, ts: seq<Tgt>, fates: seq<Fate>,
                    lens: seq<nat>, keys0: nat, j: nat, k: nat)
    requires LinkRun(cfg, ss, es, fs, ts, fates, lens) && cfg.keyframeInterval > 0 && j < |es| && k == j + 1
    requires CountedTo(cfg, ss, fs, ts, fates, lens, keys0, j)
    ensures CountedTo(cfg, ss, fs, ts, fates, lens, keys0, k)
  {
    EventOnRun(cfg, ss, es, fs, ts, fates, lens, j, k);
    DeltasBelow(cfg, ss, es, fs, k);
    DeltasStep(fs, j, k);
    CountsStep(ss, fs, ts, fates, j, k);
    BudgetGrows(cfg.keyframeInterval, keys0 + LostKeyframes(fs, fates, j), LostDeltas(fs, fates, j));
  }

  lemma {:induction false} CountedRun(cfg: Config, ss: seq<Src>, es: seq<Event>, fs: seq<Option<Frame>>, ts: seq<Tgt>,
                                      fates: seq<Fate>, lens: seq<nat>, keys0: nat, k: nat)
    requires LinkRun(cfg, ss, es, fs, ts, fates, lens) && cfg.keyframeInterval > 0 && k <= |es|
    requires keys0 > 0 || AgreeAt(ss, ts, lens, 0)
    ensures CountedTo(cfg, ss, fs, ts, fates, lens, keys0, k)
  {
    if k > 0 {
      CountedRun(cfg, ss, es, fs, ts, fates, lens, keys0, k - 1);
      CountedStep(cfg, ss, es, fs, ts, fates, lens, keys0, k - 1, k);
    } else {
      BudgetGrows(cfg.keyframeInterval, keys0, 0);
      BudgetStarts(cfg.keyframeInterval, keys0);
    }
  }

  lemma BudgetStarts(interval: nat, keys0: nat)
    ensures keys0 > 0 ==> Room(interval, 0) <= Budget(interval, keys0, 0)
  {
    if keys0 > 0 {
      BudgetGrows(interval, keys0 - 1, 0);
    }
  }

  /** Self-healing. From any states of the two sides, over every run with any losses of partial and session-info
      frames, any messages in place of frames, any capability packets, reconnects and stale resets: of the partial
      frames that arrive at most K-1 are written wrong for every keyframe that does not, and K-2 for every delta that
      does not; a disagreement at the start counts as a lost keyframe. In particular, once the sides agree, every
      frame is exact until the next loss. */
  lemma WrongFramesBound(cfg: Config, ss: seq<Src>, es: seq<Event>, fs: seq<Option<Frame>>, ts: seq<Tgt>,
                         fates: seq<Fate>, lens: seq<nat>, k: nat)
    requires LinkRun(cfg, ss, es, fs, ts, fates, lens) && cfg.keyframeInterval > 0 && k <= |es|
    ensures var K := cfg.keyframeInterval;
            WrongFrames(ss, fs, ts, fates, k)
            <= (LostKeyframes(fs, fates, k) + if AgreeAt(ss, ts, lens, 0) then 0 else 1) * (K - 1)
               + LostDeltas(fs, fates, k) * (if K >= 2 then K - 2 else 0)
  {
    var K := cfg.keyframeInterval;
    var keys0 := if AgreeAt(ss, ts, lens, 0) then 0 else 1;
    CountedRun(cfg, ss, es, fs, ts, fates, lens, keys0, k);
    OffsetIsProduct(keys0 + LostKeyframes(fs, fates, k), Room(K, 0));
    OffsetIsProduct(LostDeltas(fs, fates, k), Room(K, 1));
  }

  /** The two sides agree when both have just started, and after every keyframe and session-info frame the
      target receives. */
  lemma AgreeAgain(cfg: Config, ss: seq<Src>, es: seq<Event>, fs: seq<Option<Frame>>, ts: seq<Tgt>, fates: seq<Fate>,
                   lens: seq<nat>, j: nat, k: nat)
    requires LinkRun(cfg, ss, es, fs, ts, fates, lens) && j < |es| && k == j + 1
    ensures ss[0] == Initial() || ts[0] == InitialTgt() ==> AgreeAt(ss, ts, lens, 0)
    ensures SessionAt(fs, j) || (KeyAt(fs, j) && fates[j].outcome.Arrives?) ==> AgreeAt(ss, ts, lens, k)
  {
    assert Moves(cfg, ss, es, fs, ts, fates, lens, j);
    FrameFacts(cfg, ss[j], es[j]);
    EventHeals(cfg, ss[j], es[j], ts[j], lens[j], fates[j]);
  }

  /** Deltas never heal: a delta that arrives is wrong exactly when the two sides differed on its length, and they
      differ afterwards exactly when they differed before. So what a loss spoils is every delta up to the next
      keyframe, whenever it leaves a difference. */
  lemma DeltaWrongIff(cfg: Config, s: Src, e: Event, t: Tgt)
    requires ValidSrc(s) && Possible(e) && ValidTgt(t) && t.hasFull
    requires IsPartial(Step(cfg, s, e).1) && IsDelta(Step(cfg, s, e).1.value) && SmallEnough(Step(cfg, s, e).1)
    ensures var (s1, f) := Step(cfg, s, e);
            var L := |f.value.payload|;
            var t1 := Deliver(t, f, INTACT);
            && (Wrong(s1, t, f, INTACT) <==> t.prev[..L] != s.prev[..L])
            && (t1.prev[..L] == s1.prev[..L] <==> t.prev[..L] == s.prev[..L])
  {
    var (s1, f) := Step(cfg, s, e);
    FrameFacts(cfg, s, e);
    TargetApplies(t, f.value);
    var L := |f.value.payload|;
    XorInjective(s1.prev[..L], s.prev[..L], t.prev[..L]);
  }

  lemma XorInjective(new1: seq<byte>, prev: seq<byte>, copy: seq<byte>)
    requires |new1| == |prev| == |copy|
    ensures Xor(Xor(new1, prev), copy) == new1 <==> copy == prev
  {
    var d := Xor(new1, prev);
    XorCancel(new1, prev);
    if Xor(d, copy) == new1 {
      XorCommutes(d, copy);
      XorCancel(copy, d);
      XorCommutes(d, prev);
      XorCancel(prev, d);
    }
  }
}
