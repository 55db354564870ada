/** The two copies of the previous frame, on the source and on the target (source.rs, target.rs): how far they
    are apart after any delivery of deltas, and how many frames can come out wrong before they agree again. */
module Deltas {
  import opened Options
  import opened Bytes
  import opened Wire
  import opened Irsdk
  import opened Source
  import opened SourceRuns
  import opened Target

  // ---------- one partial frame on either side ----------

  predicate PartialAt(fs: seq<Option<Frame>>, k: nat)
    requires k < |fs|
  {
    KeyAt(fs, k) || DeltaAt(fs, k)
  }

  /** A frame that the target, once it has a session-info frame, writes to its map. */
  predicate Usable(f: Frame) {
    && IRSDK_HEADER_SIZE <= |f.payload| <= MAX_TELEMETRY_SIZE
    && WithoutDeltaBit(f.bufOffset) + (|f.payload| - IRSDK_HEADER_SIZE) <= MAX_TELEMETRY_SIZE
  }

  /** The offset of a partial frame tells where it goes and whether it is a delta. */
  lemma PartialOffset(cfg: Config, s: Src, rd: Reading, slot: Slot)
    requires ValidSrc(s) && Readable(rd) && ActiveSlot(rd.select) == Some(slot) && SendPartial(cfg, s, rd, slot).1.Some?
    ensures var f := SendPartial(cfg, s, rd, slot).1.value;
            && IRSDK_HEADER_SIZE + slot.len <= MAX_TELEMETRY_SIZE
            && f.bufOffset != U32_MAX && WithoutDeltaBit(f.bufOffset) == slot.off
            && (HasDeltaBit(f.bufOffset) <==> UseDelta(cfg, s))
  {
    DeltaBitInverse(slot.off);
  }

  /** What is remembered is the staged frame; what is sent is that or its difference. */
  lemma PartialSends(cfg: Config, s: Src, rd: Reading, slot: Slot)
    requires ValidSrc(s) && Readable(rd) && ActiveSlot(rd.select) == Some(slot) && SendPartial(cfg, s, rd, slot).1.Some?
    ensures var (s1, f) := SendPartial(cfg, s, rd, slot);
            var staged, L := Staged(rd, slot), |f.value.payload|;
            && L == IRSDK_HEADER_SIZE + slot.len <= MAX_TELEMETRY_SIZE && s1.prev[..L] == staged
            && f.value.payload == if HasDeltaBit(f.value.bufOffset) then Xor(staged, s.prev[..L]) else staged
  {
    PartialOffset(cfg, s, rd, slot);
    FrontSpliced(s.prev, Staged(rd, slot));
  }

  lemma FrontSpliced(prev: seq<byte>, frame: seq<byte>)
    requires |frame| <= |prev|
    ensures Splice(prev, 0, frame)[..|frame|] == frame
  {
  }

  /** The partial frame of one tick against the source's previous frame. */
  lemma PartialFacts(cfg: Config, s: Src, rd: Reading, slot: Slot)
    requires ValidSrc(s) && Readable(rd) && ActiveSlot(rd.select) == Some(slot)
    ensures var (s1, f) := SendPartial(cfg, s, rd, slot);
            && (f.None? ==> s1 == s)
            && (f.Some? ==>
                  var L := |f.value.payload|;
                  && Usable(f.value) && !IsSession(f.value)
                  && f.value.payload == if IsDelta(f.value) then Xor(s1.prev[..L], s.prev[..L]) else s1.prev[..L])
  {
    if SendPartial(cfg, s, rd, slot).1.Some? {
      PartialOffset(cfg, s, rd, slot);
      PartialSends(cfg, s, rd, slot);
    }
  }

  /** The emitted frame against the source's previous frame before and after. */
  predicate Explains(s: Src, s1: Src, f: Option<Frame>)
    requires ValidSrc(s) && ValidSrc(s1)
  {
    && (f.Some? ==> |f.value.payload| <= MAX_TELEMETRY_SIZE)
    && (f.None? || IsSession(f.value) ==> s1.prev == s.prev)
    && (f.Some? && IsSession(f.value) ==> s1.tickCounter == 0)
    && (f.Some? && !IsSession(f.value) ==>
          var L := |f.value.payload|;
          && Usable(f.value)
          && f.value.payload == if IsDelta(f.value) then Xor(s1.prev[..L], s.prev[..L]) else s1.prev[..L])
  }

  lemma SessionFacts(s: Src, rd: Reading)
    requires ValidSrc(s) && Readable(rd)
    ensures Explains(s, SendSession(s, rd).0, SendSession(s, rd).1)
  {
  }

  lemma TickFacts(cfg: Config, s: Src, rd: Reading, elapsed: bool)
    requires ValidSrc(s) && Readable(rd)
    ensures Explains(s, DataTick(cfg, s, rd, elapsed).0, DataTick(cfg, s, rd, elapsed).1)
  {
    var s1 := Started(s);
    SessionFacts(s1, rd);
    if !SessionDue(s1, rd, elapsed) && ActiveSlot(rd.select).Some? {
      PartialFacts(cfg, s1, rd, ActiveSlot(rd.select).value);
    }
  }

  /** What an event does to the source's previous frame, and how the emitted frame relates to it. */
  lemma FrameFacts(cfg: Config, s: Src, e: Event)
    requires ValidSrc(s) && Possible(e)
    ensures Explains(s, Step(cfg, s, e).0, Step(cfg, s, e).1)
  {
    if e.Tick? {
      TickFacts(cfg, s, e.rd, e.elapsed);
    }
  }

  /** A usable partial frame replaces the front of the target's previous frame. */
  lemma TargetApplies(t: Tgt, f: Frame)
    requires ValidTgt(t) && t.hasFull && Usable(f) && !IsSession(f)
    ensures var L := |f.payload|;
            && Message(t, f.bufOffset, Some(f.payload)).prev[..L] == Reconstruct(t.prev, f.bufOffset, f.payload)
            && Message(t, f.bufOffset, Some(f.payload)).hasFull
  {
    var frame := Reconstruct(t.prev, f.bufOffset, f.payload);
    assert Splice(t.prev, 0, frame)[..|frame|] == frame;
  }

  /** And it is written, varBuf first, header last. */
  lemma TargetWrites(t: Tgt, f: Frame)
    requires ValidTgt(t) && t.hasFull && Usable(f) && !IsSession(f)
    ensures var cs := PartialCopies(WithoutDeltaBit(f.bufOffset), Reconstruct(t.prev, f.bufOffset, f.payload));
            && (forall i | 0 <= i < |cs| :: Fits(cs[i], MAX_TELEMETRY_SIZE))
            && Message(t, f.bufOffset, Some(f.payload)).shared == Some(ApplyAll(MapBefore(t), cs))
  {
  }

  // ---------- the exact error ----------

  /** How often event `j` occurs in a delivery. */
  function Times(order: seq<nat>, j: nat): nat {
    if order == [] then 0
    else Times(order[..|order| - 1], j) + if order[|order| - 1] == j then 1 else 0
  }

  /** Event `j` is missing from the target, or there once too often: it lies behind the keyframe `i` and was
      delivered an even number of times, or before it and was delivered an odd number of times. */
  predicate OutOfStep(order: seq<nat>, i: nat, j: nat) {
    (j > i) != (Times(order, j) % 2 == 1)
  }

  lemma DeliveryToggles(order: seq<nat>, i: nat, j: nat, k: nat)
    ensures OutOfStep(order + [j], i, k) == (OutOfStep(order, i, k) != (j == k))
  {
    assert (order + [j])[..|order|] == order;
    assert Times(order + [j], k) == Times(order, k) + if j == k then 1 else 0;
  }

  predicate Sized(ss: seq<Src>) {
    forall k | 0 <= k < |ss| :: |ss[k].prev| == MAX_TELEMETRY_SIZE
  }

  /** The first `L` bytes of the source's previous frame before event `k`, which is never shorter on a run. */
  function Front(ss: seq<Src>, k: nat, L: nat): (r: seq<byte>)
    requires k < |ss|
    ensures |r| == L
  {
    if L <= |ss[k].prev| then ss[k].prev[..L] else Zeros(L)
  }

  /** What event `j` changes in it. */
  function Difference(ss: seq<Src>, j: nat, L: nat): (r: seq<byte>)
    requires j + 1 < |ss|
    ensures |r| == L
  {
    Xor(Front(ss, j + 1, L), Front(ss, j, L))
  }

  /** The XOR of the changes made by the events before `n` that are out of step. */
  ghost function Gap(ss: seq<Src>, order: seq<nat>, i: nat, n: nat, L: nat): (r: seq<byte>)
    requires n < |ss|
    ensures |r| == L
  {
    if n == 0 then Zeros(L)
    else if OutOfStep(order, i, n - 1) then Xor(Gap(ss, order, i, n - 1, L), Difference(ss, n - 1, L))
    else Gap(ss, order, i, n - 1, L)
  }

  lemma {:induction false} GapStep(ss: seq<Src>, order: seq<nat>, i: nat, k: nat, n: nat, L: nat)
    requires n < |ss| && n == k + 1
    ensures var g := Gap(ss, order, i, k, L);
            Gap(ss, order, i, n, L) == if OutOfStep(order, i, k) then Xor(g, Difference(ss, k, L)) else g
  {
  }

  lemma XorTelescopes(a: seq<byte>, b: seq<byte>, c: seq<byte>)
    requires |a| == |b| == |c|
    ensures Xor(Xor(b, a), Xor(c, b)) == Xor(c, a)
  {
    XorCommutes(Xor(b, a), Xor(c, b));
    XorAssociates(Xor(c, b), b, a);
    XorCancel(c, b);
  }

  lemma XorSwap(a: seq<byte>, b: seq<byte>, c: seq<byte>)
    requires |a| == |b| == |c|
    ensures Xor(Xor(a, b), c) == Xor(Xor(a, c), b)
  {
    XorAssociates(a, b, c);
    XorAssociates(a, c, b);
    XorCommutes(b, c);
  }

  lemma XorZeroLeft(a: seq<byte>, n: nat)
    requires |a| == n
    ensures Xor(Zeros(n), a) == a
  {
    XorZero(a);
    XorCommutes(a, Zeros(n));
  }

  lemma {:induction false} NothingDelivered(order: seq<nat>, i: nat, j: nat)
    requires order == []
    ensures OutOfStep(order, i, j) <==> j > i
  {
  }

  /** When nothing was delivered since the keyframe, the changes since then add up. */
  lemma {:induction false} GapOfNothing(ss: seq<Src>, order: seq<nat>, i: nat, n: nat, L: nat)
    requires order == [] && i + 1 < |ss| && n < |ss|
    ensures Gap(ss, order, i, n, L) == if n <= i + 1 then Zeros(L) else Xor(Front(ss, n, L), Front(ss, i + 1, L))
  {
    if n > 0 {
      var j := n - 1;
      GapOfNothing(ss, order, i, j, L);
      GapStep(ss, order, i, j, n, L);
      NothingDelivered(order, i, j);
      if j > i {
        var g := Gap(ss, order, i, j, L);
        assert Gap(ss, order, i, n, L) == Xor(g, Difference(ss, j, L));
        assert Difference(ss, j, L) == Xor(Front(ss, n, L), Front(ss, j, L));
        ChangesAddUp(Front(ss, i + 1, L), Front(ss, j, L), Front(ss, n, L), g, j == i + 1);
      }
    }
  }

  /** The change from `b` to `c` on top of the change from `a` to `b`, or of nothing when that is where `b` started. */
  lemma ChangesAddUp(a: seq<byte>, b: seq<byte>, c: seq<byte>, g: seq<byte>, first: bool)
    requires |a| == |b| == |c| && (first ==> a == b) && g == if first then Zeros(|a|) else Xor(b, a)
    ensures Xor(g, Xor(c, b)) == Xor(c, a)
  {
    if first {
      XorZeroLeft(Xor(c, b), |a|);
    } else {
      XorTelescopes(a, b, c);
    }
  }

  /** One more delivery of event `j` toggles its change. */
  lemma {:induction false} GapToggles(ss: seq<Src>, order: seq<nat>, i: nat, j: nat, n: nat, L: nat)
    requires n < |ss| && j + 1 < |ss|
    ensures Gap(ss, order + [j], i, n, L)
            == if j < n then Xor(Gap(ss, order, i, n, L), Difference(ss, j, L)) else Gap(ss, order, i, n, L)
  {
    if n > 0 {
      var k, order1 := n - 1, order + [j];
      GapToggles(ss, order, i, j, k, L);
      DeliveryToggles(order, i, j, k);
      GapStep(ss, order, i, k, n, L);
      GapStep(ss, order1, i, k, n, L);
      var g, d := Gap(ss, order, i, k, L), Difference(ss, k, L);
      if j == k {
        XorCancel(g, d);
      } else if j < k {
        XorSwap(g, Difference(ss, j, L), d);
      }
    }
  }

  /** Event `j` emitted a delta of length `L`. */
  predicate DeltaOf(fs: seq<Option<Frame>>, j: nat, L: nat) {
    j < |fs| && DeltaAt(fs, j) && |fs[j].value.payload| == L
  }

  /** The target takes the frame of event `order[x]` at step `x`. */
  predicate Takes(ts: seq<Tgt>, fs: seq<Option<Frame>>, order: seq<nat>, L: nat, x: nat)
    requires x < |order| && |ts| == |order| + 1
  {
    && DeltaOf(fs, order[x], L) && L <= MAX_TELEMETRY_SIZE && ValidTgt(ts[x])
    && var f := fs[order[x]].value;
       ts[x + 1] == Message(ts[x], f.bufOffset, Some(f.payload))
  }

  /** Deltas reach the target in any order, some never and some repeatedly. */
  ghost predicate Delivery(ts: seq<Tgt>, fs: seq<Option<Frame>>, order: seq<nat>, L: nat) {
    |ts| == |order| + 1 && forall x | 0 <= x < |order| :: Takes(ts, fs, order, L, x)
  }

  /** The target has just applied the keyframe of event `i`. */
  predicate Keyed(t: Tgt, ss: seq<Src>, fs: seq<Option<Frame>>, i: nat)
    requires i < |fs| && i + 1 < |ss|
  {
    && ValidTgt(t) && t.hasFull && KeyAt(fs, i)
    && var L := |fs[i].value.payload|;
       L <= MAX_TELEMETRY_SIZE == |ss[i + 1].prev| && t.prev[..L] == ss[i + 1].prev[..L]
  }

  /** That is the state every target with a session-info frame is in after the keyframe. */
  lemma KeyframeKeys(cfg: Config, ss: seq<Src>, es: seq<Event>, fs: seq<Option<Frame>>, i: nat, t: Tgt)
    requires Run(cfg, ss, es, fs) && i < |es| && KeyAt(fs, i) && ValidTgt(t) && t.hasFull
    ensures |fs[i].value.payload| <= MAX_TELEMETRY_SIZE
    ensures Keyed(Message(t, fs[i].value.bufOffset, Some(fs[i].value.payload)), ss, fs, i)
  {
    assert Steps(cfg, ss, es, fs, i);
    FrameFacts(cfg, ss[i], es[i]);
    TargetApplies(t, fs[i].value);
  }

  lemma RunIsSized(cfg: Config, ss: seq<Src>, es: seq<Event>, fs: seq<Option<Frame>>)
    requires Run(cfg, ss, es, fs) && |es| > 0
    ensures Sized(ss)
  {
    forall k | 0 <= k < |ss| ensures |ss[k].prev| == MAX_TELEMETRY_SIZE {
      if k < |es| {
        assert Steps(cfg, ss, es, fs, k);
      } else {
        assert Steps(cfg, ss, es, fs, k - 1);
      }
    }
  }

  /** A delivered delta changes the target's previous frame the way its event changed the source's. */
  lemma DeltaApplies(cfg: Config, ss: seq<Src>, es: seq<Event>, fs: seq<Option<Frame>>, j: nat, t: Tgt, L: nat)
    requires Run(cfg, ss, es, fs) && j < |es| && Sized(ss) && DeltaOf(fs, j, L) && ValidTgt(t) && t.hasFull
    ensures L <= MAX_TELEMETRY_SIZE
    ensures var t1 := Message(t, fs[j].value.bufOffset, Some(fs[j].value.payload));
            ValidTgt(t1) && t1.hasFull && t1.prev[..L] == Xor(Difference(ss, j, L), t.prev[..L])
  {
    assert Steps(cfg, ss, es, fs, j);
    FrameFacts(cfg, ss[j], es[j]);
    TargetApplies(t, fs[j].value);
  }

  lemma {:induction false} ErrorRun(cfg: Config, ss: seq<Src>, es: seq<Event>, fs: seq<Option<Frame>>, i: nat, n: nat,
                                    ts: seq<Tgt>, order: seq<nat>, L: nat, x: nat)
    requires Run(cfg, ss, es, fs) && Sized(ss) && i < n <= |es| && |ts| == |order| + 1
    requires Keyed(ts[0], ss, fs, i) && L == |fs[i].value.payload|
    requires Delivery(ts, fs, order, L) && x <= |order| && forall y | 0 <= y < |order| :: order[y] < n
    ensures ValidTgt(ts[x]) && ts[x].hasFull
    ensures Xor(Front(ss, n, L), ts[x].prev[..L]) == Gap(ss, order[..x], i, n, L)
  {
    if x == 0 {
      GapOfNothing(ss, order[..0], i, n, L);
      XorZero(Front(ss, n, L));
    } else {
      var y := x - 1;
      ErrorRun(cfg, ss, es, fs, i, n, ts, order, L, y);
      assert Takes(ts, fs, order, L, y);
      DeltaApplies(cfg, ss, es, fs, order[y], ts[y], L);
      assert order[..x] == order[..y] + [order[y]];
      GapToggles(ss, order[..y], i, order[y], n, L);
      var p, d, q := Front(ss, n, L), Difference(ss, order[y], L), ts[y].prev[..L];
      XorCommutes(d, q);
      XorAssociates(p, q, d);
    }
  }

  /** The exact error. Let the target have applied the keyframe of event `i`, and let deltas of the same length
      then reach it in any order, with any losses and repeats, until the source has done `n` events. The XOR of
      the two previous frames is the XOR of the frame-to-frame changes that are out of step; the two agree
      exactly when that is zero. Keyframes and session-info frames may have been lost in between. */
  lemma ExactError(cfg: Config, ss: seq<Src>, es: seq<Event>, fs: seq<Option<Frame>>, i: nat, n: nat,
                   ts: seq<Tgt>, order: seq<nat>, L: nat)
    requires Run(cfg, ss, es, fs) && i < n <= |es| && |ts| == |order| + 1
    requires Keyed(ts[0], ss, fs, i) && L == |fs[i].value.payload|
    requires Delivery(ts, fs, order, L) && forall y | 0 <= y < |order| :: order[y] < n
    ensures ValidTgt(ts[|order|])
    ensures Xor(Front(ss, n, L), ts[|order|].prev[..L]) == Gap(ss, order, i, n, L)
    ensures ts[|order|].prev[..L] == Front(ss, n, L) <==> Gap(ss, order, i, n, L) == Zeros(L)
  {
    RunIsSized(cfg, ss, es, fs);
    ErrorRun(cfg, ss, es, fs, i, n, ts, order, L, |order|);
    assert order[..|order|] == order;
    var p, q := Front(ss, n, L), ts[|order|].prev[..L];
    XorZero(p);
    if Xor(p, q) == Zeros(L) {
      XorCommutes(p, q);
      XorCancel(q, p);
      XorCommutes(Zeros(L), p);
    }
  }

  /** Only events that changed nothing are out of step. */
  predicate OnlyIdle(fs: seq<Option<Frame>>, order: seq<nat>, i: nat, j: nat)
    requires j < |fs|
  {
    OutOfStep(order, i, j) ==> !PartialAt(fs, j)
  }

  lemma {:induction false} GapOfIdle(cfg: Config, ss: seq<Src>, es: seq<Event>, fs: seq<Option<Frame>>, order: seq<nat>,
                                     i: nat, n: nat, L: nat)
    requires Run(cfg, ss, es, fs) && Sized(ss) && n <= |es| && L <= MAX_TELEMETRY_SIZE
    requires forall j | 0 <= j < n :: OnlyIdle(fs, order, i, j)
    ensures Gap(ss, order, i, n, L) == Zeros(L)
  {
    if n > 0 {
      var j := n - 1;
      GapOfIdle(cfg, ss, es, fs, order, i, j, L);
      GapStep(ss, order, i, j, n, L);
      assert OnlyIdle(fs, order, i, j) && Steps(cfg, ss, es, fs, j);
      FrameFacts(cfg, ss[j], es[j]);
      XorZero(Front(ss, n, L));
      XorZero(Zeros(L));
    }
  }

  /** Agreement: when every partial frame behind the keyframe was delivered once and nothing else was, in
      whatever order, the target's previous frame is the source's. */
  lemma DeliveredOnceAgrees(cfg: Config, ss: seq<Src>, es: seq<Event>, fs: seq<Option<Frame>>, i: nat, n: nat,
                            ts: seq<Tgt>, order: seq<nat>, L: nat)
    requires Run(cfg, ss, es, fs) && i < n <= |es| && |ts| == |order| + 1
    requires Keyed(ts[0], ss, fs, i) && L == |fs[i].value.payload|
    requires Delivery(ts, fs, order, L) && forall y | 0 <= y < |order| :: order[y] < n
    requires forall j | 0 <= j < n && PartialAt(fs, j) :: Times(order, j) == if j > i then 1 else 0
    ensures ValidTgt(ts[|order|]) && ts[|order|].prev[..L] == Front(ss, n, L)
  {
    forall j | 0 <= j < n ensures OnlyIdle(fs, order, i, j) {
    }
    RunIsSized(cfg, ss, es, fs);
    GapOfIdle(cfg, ss, es, fs, order, i, n, L);
    ExactError(cfg, ss, es, fs, i, n, ts, order, L);
  }
}
