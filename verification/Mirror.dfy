/** What one frame does to the target's map, when the tick that made it read one snapshot of the game's map. */
module Mirror {
  import opened Options
  import opened Bytes
  import opened Wire
  import opened Irsdk
  import opened Source
  import opened Target
  import opened Deltas
  import opened Healing

  /** A tick whose reads of the live map all see the same snapshot. */
  predicate Atomic(e: Event) {
    && e.Tick? && Readable(e.rd) && e.rd.select == e.rd.copy == e.rd.after
    && |e.rd.select| >= IRSDK_HEADER_SIZE && NumBuf(e.rd.select) >= 0
  }

  /** The map holds the snapshot's header and its slot. */
  predicate Mirrors(m: seq<byte>, snap: seq<byte>, slot: Slot) {
    && |m| >= |snap| >= IRSDK_HEADER_SIZE && slot.off + slot.len <= |snap|
    && m[..IRSDK_HEADER_SIZE] == snap[..IRSDK_HEADER_SIZE]
    && m[slot.off..slot.off + slot.len] == snap[slot.off..slot.off + slot.len]
  }

  /** `m1` differs from `m0` at most in the header and in the slot. */
  predicate Elsewhere(m0: seq<byte>, m1: seq<byte>, slot: Slot) {
    && |m1| == |m0|
    && forall k | IRSDK_HEADER_SIZE <= k < |m0| && !(slot.off <= k < slot.off + slot.len) :: m1[k] == m0[k]
  }

  /** Both copies of a partial frame, whatever it holds. */
  lemma PartialApplied(m0: seq<byte>, slot: Slot, frame: seq<byte>)
    requires |frame| == IRSDK_HEADER_SIZE + slot.len && slot.off + slot.len <= |m0| && IRSDK_HEADER_SIZE <= |m0|
    ensures var cs := PartialCopies(slot.off, frame);
            && (forall i | 0 <= i < |cs| :: Fits(cs[i], |m0|))
            && ApplyAll(m0, cs)
               == Splice(Splice(m0, slot.off, frame[IRSDK_HEADER_SIZE..]), 0, frame[..IRSDK_HEADER_SIZE])
            && Elsewhere(m0, ApplyAll(m0, cs), slot)
  {
    var varBuf, hdr := frame[IRSDK_HEADER_SIZE..], frame[..IRSDK_HEADER_SIZE];
    assert PartialCopies(slot.off, frame) == [Copy(slot.off, varBuf), Copy(0, hdr)];
    ApplyTwo(m0, Copy(slot.off, varBuf), Copy(0, hdr));
    SplicesElsewhere(m0, slot, varBuf, hdr);
  }

  /** Two pieces that do not overlap are both there. */
  lemma BothHeld(m0: seq<byte>, off: nat, varBuf: seq<byte>, hdr: seq<byte>)
    requires |hdr| <= off && off + |varBuf| <= |m0|
    ensures var m2 := Splice(Splice(m0, off, varBuf), 0, hdr);
            m2[..|hdr|] == hdr && m2[off..off + |varBuf|] == varBuf
  {
    var m1 := Splice(m0, off, varBuf);
    SpliceHolds(m0, off, varBuf);
    SpliceHolds(m1, 0, hdr);
    SpliceKeeps(m1, 0, hdr, off, off + |varBuf|);
  }

  lemma PartialCopiesMirror(m0: seq<byte>, snap: seq<byte>, slot: Slot, frame: seq<byte>)
    requires IRSDK_HEADER_SIZE <= |snap| <= |m0| && IRSDK_HEADER_SIZE <= slot.off && slot.off + slot.len <= |snap|
    requires frame == snap[..IRSDK_HEADER_SIZE] + snap[slot.off..slot.off + slot.len]
    ensures var cs := PartialCopies(slot.off, frame);
            (forall i | 0 <= i < |cs| :: Fits(cs[i], |m0|)) && Mirrors(ApplyAll(m0, cs), snap, slot)
  {
    PartialApplied(m0, slot, frame);
    var hdr, varBuf := snap[..IRSDK_HEADER_SIZE], snap[slot.off..slot.off + slot.len];
    assert frame[IRSDK_HEADER_SIZE..] == varBuf && frame[..IRSDK_HEADER_SIZE] == hdr;
    BothHeld(m0, slot.off, varBuf, hdr);
  }

  lemma SplicesElsewhere(m0: seq<byte>, slot: Slot, varBuf: seq<byte>, hdr: seq<byte>)
    requires |varBuf| == slot.len && slot.off + slot.len <= |m0| && |hdr| == IRSDK_HEADER_SIZE <= |m0|
    ensures Elsewhere(m0, Splice(Splice(m0, slot.off, varBuf), 0, hdr), slot)
  {
  }

  /** The partial frame of an atomic tick is the snapshot's header and slot. */
  lemma AtomicPartial(cfg: Config, s: Src, e: Event)
    requires ValidSrc(s) && Atomic(e) && IsPartial(Step(cfg, s, e).1)
    ensures ActiveSlot(e.rd.select).Some?
    ensures var slot := ActiveSlot(e.rd.select).value;
            var (s1, f) := Step(cfg, s, e);
            var L := |f.value.payload|;
            && L == IRSDK_HEADER_SIZE + slot.len <= MAX_TELEMETRY_SIZE && WithoutDeltaBit(f.value.bufOffset) == slot.off
            && s1.prev[..L] == e.rd.select[..IRSDK_HEADER_SIZE] + e.rd.select[slot.off..slot.off + slot.len]
  {
    PartialOffset(cfg, Started(s), e.rd, ActiveSlot(e.rd.select).value);
    PartialSends(cfg, Started(s), e.rd, ActiveSlot(e.rd.select).value);
  }

  /** What the target writes for the partial frame of an atomic tick: some frame of the slot's length, at the slot. */
  lemma PartialWritten(cfg: Config, s: Src, e: Event, t: Tgt)
    requires ValidSrc(s) && Atomic(e) && ValidTgt(t) && t.hasFull && IsPartial(Step(cfg, s, e).1)
    requires SmallEnough(Step(cfg, s, e).1)
    ensures ActiveSlot(e.rd.select).Some?
    ensures var slot, f := ActiveSlot(e.rd.select).value, Step(cfg, s, e).1.value;
            var frame := Reconstruct(t.prev, f.bufOffset, f.payload);
            var t1 := Deliver(t, Some(f), INTACT);
            && |frame| == IRSDK_HEADER_SIZE + slot.len && slot.off + slot.len <= MAX_TELEMETRY_SIZE
            && (forall i | 0 <= i < 2 :: Fits(PartialCopies(slot.off, frame)[i], MAX_TELEMETRY_SIZE))
            && t1.hasFull && t1.shared == Some(ApplyAll(MapBefore(t), PartialCopies(slot.off, frame)))
  {
    AtomicPartial(cfg, s, e);
    FrameFacts(cfg, s, e);
    TargetApplies(t, Step(cfg, s, e).1.value);
    TargetWrites(t, Step(cfg, s, e).1.value);
  }

  /** A partial frame changes the target's map in the header and the slot only. */
  lemma PartialStays(cfg: Config, s: Src, e: Event, t: Tgt)
    requires ValidSrc(s) && Atomic(e) && ValidTgt(t) && t.hasFull && IsPartial(Step(cfg, s, e).1)
    requires SmallEnough(Step(cfg, s, e).1)
    ensures ActiveSlot(e.rd.select).Some?
    ensures var t1 := Deliver(t, Step(cfg, s, e).1, INTACT);
            t1.hasFull && t1.shared.Some? && Elsewhere(MapBefore(t), t1.shared.value, ActiveSlot(e.rd.select).value)
  {
    PartialWritten(cfg, s, e, t);
    var f := Step(cfg, s, e).1.value;
    PartialApplied(MapBefore(t), ActiveSlot(e.rd.select).value, Reconstruct(t.prev, f.bufOffset, f.payload));
  }

  /** A partial frame that was reconstructed right makes the target's map mirror the snapshot. */
  lemma PartialMirrors(cfg: Config, s: Src, e: Event, t: Tgt)
    requires ValidSrc(s) && Atomic(e) && ValidTgt(t) && t.hasFull && IsPartial(Step(cfg, s, e).1)
    requires SmallEnough(Step(cfg, s, e).1) && !Wrong(Step(cfg, s, e).0, t, Step(cfg, s, e).1, INTACT)
    requires ActiveSlot(e.rd.select).Some? && ActiveSlot(e.rd.select).value.off >= IRSDK_HEADER_SIZE
    ensures var t1 := Deliver(t, Step(cfg, s, e).1, INTACT);
            t1.shared.Some? && Mirrors(t1.shared.value, e.rd.select, ActiveSlot(e.rd.select).value)
  {
    PartialWritten(cfg, s, e, t);
    AtomicPartial(cfg, s, e);
    var f := Step(cfg, s, e).1.value;
    PartialCopiesMirror(MapBefore(t), e.rd.select, ActiveSlot(e.rd.select).value,
                        Reconstruct(t.prev, f.bufOffset, f.payload));
  }

  /** The map holds the static prefix of the snapshot, up to the first slot. */
  predicate HoldsPrefix(m: seq<byte>, snap: seq<byte>)
    requires OffsetsNonNegative(snap) && |snap| >= IRSDK_HEADER_SIZE
  {
    PrefixEnd(snap) <= |m| && m[IRSDK_HEADER_SIZE..PrefixEnd(snap)] == snap[IRSDK_HEADER_SIZE..PrefixEnd(snap)]
  }

  /** A session-info frame brings the snapshot's prefix, except for the status and the four bytes before it, and
      leaves everything behind the prefix alone. */
  predicate TakesPrefix(m0: seq<byte>, m1: seq<byte>, snap: seq<byte>)
  {
    var e := PrefixEnd(snap);
    && 8 <= e <= |m1| == |m0|
    && m1[8..e] == snap[8..e] && m1[e..|m0|] == m0[e..|m0|]
  }

  lemma SessionMirrors(cfg: Config, s: Src, e: Event, t: Tgt)
    requires ValidSrc(s) && Atomic(e) && ValidTgt(t)
    requires Step(cfg, s, e).1 == Some(SessionFrame(e.rd))
    requires SmallEnough(Step(cfg, s, e).1)
    ensures var t1 := Deliver(t, Step(cfg, s, e).1, INTACT);
            t1.hasFull && t1.shared.Some? && TakesPrefix(MapBefore(t), t1.shared.value, e.rd.select)
  {
    var d := SessionFrame(e.rd).payload;
    assert WriteFor(t, U32_MAX, Some(d)).value.copies == SessionCopies(d);
    PrefixWritten(MapBefore(t), d);
    PrefixIsCopied(e.rd);
  }

  lemma PrefixThen(m0: seq<byte>, m1: seq<byte>, snap: seq<byte>)
    requires TakesPrefix(m0, m1, snap) && OffsetsNonNegative(snap) && |snap| >= IRSDK_HEADER_SIZE
    ensures HoldsPrefix(m1, snap)
  {
    var e := PrefixEnd(snap);
    SliceOfShifted(m1, 8, e, IRSDK_HEADER_SIZE, e);
    SliceOfShifted(snap, 8, e, IRSDK_HEADER_SIZE, e);
  }

  lemma SessionFits(d: seq<byte>, size: nat)
    requires 8 < |d| <= size
    ensures SessionCopies(d) == [Copy(0, d[..4]), Copy(8, d[8..|d|])]
    ensures forall i | 0 <= i < |SessionCopies(d)| :: Fits(SessionCopies(d)[i], size)
  {
    assert d[8..] == d[8..|d|];
  }

  lemma SessionApplied(m0: seq<byte>, d: seq<byte>)
    requires 8 < |d| <= |m0|
    ensures forall i | 0 <= i < |SessionCopies(d)| :: Fits(SessionCopies(d)[i], |m0|)
    ensures ApplyAll(m0, SessionCopies(d)) == Splice(Splice(m0, 0, d[..4]), 8, d[8..|d|])
  {
    SessionFits(d, |m0|);
    ApplyTwo(m0, Copy(0, d[..4]), Copy(8, d[8..|d|]));
  }

  lemma PrefixWritten(m0: seq<byte>, d: seq<byte>)
    requires IRSDK_HEADER_SIZE <= |d| <= |m0|
    ensures forall i | 0 <= i < |SessionCopies(d)| :: Fits(SessionCopies(d)[i], |m0|)
    ensures ApplyAll(m0, SessionCopies(d))[8..|d|] == d[8..|d|]
    ensures ApplyAll(m0, SessionCopies(d))[|d|..|m0|] == m0[|d|..|m0|]
  {
    SessionApplied(m0, d);
    var m1 := Splice(m0, 0, d[..4]);
    SpliceHolds(m1, 8, d[8..|d|]);
    SpliceKeeps(m0, 0, d[..4], |d|, |m0|);
    SpliceKeeps(m1, 8, d[8..|d|], |d|, |m0|);
  }

  lemma PrefixIsCopied(rd: Reading)
    requires Readable(rd) && |rd.copy| >= IRSDK_HEADER_SIZE && rd.copy == rd.select
    ensures var d, e := SessionFrame(rd).payload, PrefixEnd(rd.select); |d| == e >= 8 && d[8..e] == rd.select[8..e]
  {
  }

  /** A write that stays behind the prefix leaves it alone. */
  lemma PrefixKept(m0: seq<byte>, m1: seq<byte>, snap: seq<byte>, slot: Slot)
    requires OffsetsNonNegative(snap) && |snap| >= IRSDK_HEADER_SIZE && HoldsPrefix(m0, snap)
    requires Elsewhere(m0, m1, slot) && PrefixEnd(snap) <= slot.off
    ensures HoldsPrefix(m1, snap)
  {
    assert forall k | IRSDK_HEADER_SIZE <= k < PrefixEnd(snap) :: m1[k] == m0[k];
  }

  // ---------- slot tables ----------

  /** The slot table of `b` is laid out as in `a`. */
  predicate SameTable(a: seq<byte>, b: seq<byte>)
    requires |a| >= IRSDK_HEADER_SIZE && |b| >= IRSDK_HEADER_SIZE
  {
    && |a| == |b| && NumBuf(a) == NumBuf(b) && BufLen(a) == BufLen(b)
    && forall i | 0 <= i < MAX_SLOTS :: SlotOffset(a, i) == SlotOffset(b, i)
  }

  /** Every active slot that starts behind the header does so behind the prefix. */
  lemma SlotBehindPrefix(sess: seq<byte>, snap: seq<byte>)
    requires OffsetsNonNegative(sess) && OffsetsNonNegative(snap)
    requires |sess| >= IRSDK_HEADER_SIZE && |snap| >= IRSDK_HEADER_SIZE && SameTable(sess, snap)
    requires ActiveSlot(snap).Some? && ActiveSlot(snap).value.off > IRSDK_HEADER_SIZE
    ensures PrefixEnd(sess) <= ActiveSlot(snap).value.off
  {
    var w := Newest(snap, SlotCount(snap));
    PrefixStopsBeforeSlots(sess, PrefixEnd(sess));
    assert ValidOffset(sess, w);
  }

  /** Both slot searches find, on the target's map, the slot that was just written. */
  lemma SearchFindsSlot(m: seq<byte>, snap: seq<byte>)
    requires OffsetsNonNegative(snap) && |snap| >= IRSDK_HEADER_SIZE && NumBuf(snap) >= 0
    requires ActiveSlot(snap).Some? && ActiveSlot(snap).value.off >= IRSDK_HEADER_SIZE
    requires Mirrors(m, snap, ActiveSlot(snap).value)
    ensures OffsetsNonNegative(m)
    ensures ActiveSlot(m) == ActiveSlot(snap)
    ensures NewestRow(m) == Some((ActiveSlot(snap).value.tick, ActiveSlot(snap).value.off))
  {
    SameHeader(m, snap);
    NewestSame(m, snap, SlotCount(snap));
    SearchesAgreeIff(m);
  }

  lemma NewestSame(a: seq<byte>, b: seq<byte>, n: nat)
    requires |a| >= IRSDK_HEADER_SIZE && |b| >= IRSDK_HEADER_SIZE && 0 < n <= MAX_SLOTS
    requires forall i | 0 <= i < MAX_SLOTS :: SlotTick(a, i) == SlotTick(b, i)
    ensures Newest(a, n) == Newest(b, n)
  {
    NewestIsNewest(a, n);
    NewestIsNewest(b, n);
    NewestUnique(b, n, Newest(a, n), Newest(b, n));
  }
}
