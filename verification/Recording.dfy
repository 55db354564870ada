/** The `.ibt` writer behind the target: after every frame that was written to the map the writer sees the map, and a
    stale reset closes its file. Which rows that makes of a run of the pipeline that loses nothing. */
module Recording {
  import opened Options
  import opened Bytes
  import opened Irsdk
  import opened Source
  import opened Target
  import opened Deltas
  import opened Healing
  import opened EndToEnd
  import opened Mirror
  import opened LossyLink
  import opened Replication
  import opened IbtFile
  import SourceRuns
  import W = IbtWriter
  import Z = IbtSession

  // ---------- the row the writer takes from a map ----------

  /** The layout of the file a frame goes to: that of the open file, unless the session changed. */
  function FileLayout(w: W.Writer, l: Layout): Layout {
    if w.current.Some? && w.current.value.layout.update == l.update then w.current.value.layout else l
  }

  /** The latest tick of that file. */
  function FileTick(w: W.Writer, l: Layout): i32 {
    if w.current.Some? && w.current.value.layout.update == l.update then w.current.value.lastTick else I32_MIN
  }

  /** The row that is appended for the map, if one is. */
  function RowTaken(w: W.Writer, m: seq<byte>): Option<seq<byte>>
    requires W.Usable(m)
  {
    match Parsed(m)
    case None => None
    case Some(l) =>
      if W.TickOf(m) == FileTick(w, l) || !Z.Inside(FileLayout(w, l), m) then None
      else Some(Z.RowOf(FileLayout(w, l), m))
  }

  /** The bytes of the file the frame goes to, before it. */
  function FileBefore(w: W.Writer, m: seq<byte>, l: Layout, now: word): seq<byte>
    requires Extracted(m, l)
  {
    if w.current.Some? && w.current.value.layout.update == l.update then w.current.value.file else Prefix(m, l, now)
  }

  /** That is what `Update` does: it appends exactly this row, and remembers the tick whether or not there is one. */
  lemma RowIsAppended(gt: W.Order, w: W.Writer, m: seq<byte>, now: word)
    requires W.ValidWriter(w) && W.Usable(m)
    ensures Parsed(m).None? ==> W.Update(gt, w, m, now) == w
    ensures Parsed(m).Some? ==>
              var o := W.Update(gt, w, m, now).current; var l := Parsed(m).value; var row := RowTaken(w, m);
              && o.Some? && o.value.layout == FileLayout(w, l) && o.value.lastTick == W.TickOf(m)
              && o.value.file == FileBefore(w, m, l, now) + (if row.Some? then row.value else [])
  {
    if Parsed(m).Some? {
      var l := Parsed(m).value;
      var o := W.Opened(W.Rolled(w, l), m, l, now);
      assert o.layout == FileLayout(w, l) && o.lastTick == FileTick(w, l) && o.file == FileBefore(w, m, l, now);
      AppendTaken(gt, o, m);
    }
  }

  lemma AppendTaken(gt: W.Order, o: W.Open, m: seq<byte>)
    requires Z.Readable(m)
    ensures var o1 := W.AppendRow(gt, o, m);
            && o1.layout == o.layout && o1.lastTick == W.TickOf(m)
            && o1.file
               == o.file + if W.TickOf(m) == o.lastTick || !Z.Inside(o.layout, m) then [] else Z.RowOf(o.layout, m)
  {
    Z.AppendCases(gt, o, m);
  }

  // ---------- maps whose header is a snapshot's ----------

  /** The header fields behind the status are the snapshot's. */
  predicate HeaderOf(m: seq<byte>, snap: seq<byte>) {
    |m| >= IRSDK_HEADER_SIZE && |snap| >= IRSDK_HEADER_SIZE && m[8..IRSDK_HEADER_SIZE] == snap[8..IRSDK_HEADER_SIZE]
  }

  lemma SameField(a: seq<byte>, b: seq<byte>, off: nat)
    requires HeaderOf(a, b) && 8 <= off && off + 4 <= IRSDK_HEADER_SIZE
    ensures I32At(a, off) == I32At(b, off)
  {
    SliceOfShifted(a, 8, IRSDK_HEADER_SIZE, off, off + 4);
    SliceOfShifted(b, 8, IRSDK_HEADER_SIZE, off, off + 4);
  }

  lemma SameSlots(a: seq<byte>, b: seq<byte>)
    requires HeaderOf(a, b)
    ensures forall i | 0 <= i < MAX_SLOTS :: SlotTick(a, i) == SlotTick(b, i) && SlotOffset(a, i) == SlotOffset(b, i)
  {
    forall i | 0 <= i < MAX_SLOTS ensures SlotTick(a, i) == SlotTick(b, i) && SlotOffset(a, i) == SlotOffset(b, i) {
      SameField(a, b, TickField(i));
      SameField(a, b, TickField(i) + 4);
    }
  }

  /** The writer finds the snapshot's newest row there. */
  lemma SameRow(a: seq<byte>, b: seq<byte>)
    requires HeaderOf(a, b)
    ensures NewestRow(a) == NewestRow(b)
  {
    SameField(a, b, 32);
    SameSlots(a, b);
    NewestSame(a, b, ClampedSlots(b));
  }

  /** A snapshot the writer can work with: no field wraps, one buffer length per session, slots behind the header. */
  predicate Recordable(snap: seq<byte>, lengthOf: i32 -> nat) {
    && |snap| >= IRSDK_HEADER_SIZE && FieldsNonNegative(snap) && BufLen(snap) == lengthOf(I32At(snap, 12))
    && (ActiveSlot(snap).Some? ==> ActiveSlot(snap).value.off > IRSDK_HEADER_SIZE)
  }

  lemma HeaderUsable(m: seq<byte>, snap: seq<byte>, lengthOf: i32 -> nat)
    requires HeaderOf(m, snap) && Recordable(snap, lengthOf) && |m| == MAX_TELEMETRY_SIZE
    ensures W.Usable(m) && I32At(m, 12) == I32At(snap, 12) && BufLen(m) == lengthOf(I32At(m, 12))
  {
    SameField(m, snap, 12);
    SameField(m, snap, 16);
    SameField(m, snap, 20);
    SameField(m, snap, 24);
    SameField(m, snap, 28);
    SameField(m, snap, 36);
    SameSlots(m, snap);
  }

  /** Every open file has the buffer length of its session. */
  predicate Filed(w: W.Writer, lengthOf: i32 -> nat) {
    && W.ValidWriter(w)
    && (w.current.Some? ==> w.current.value.layout.bufLen == lengthOf(w.current.value.layout.update))
  }

  lemma UpdateFiled(gt: W.Order, w: W.Writer, m: seq<byte>, now: word, lengthOf: i32 -> nat)
    requires Filed(w, lengthOf) && W.Usable(m)
    requires |m| >= IRSDK_HEADER_SIZE ==> BufLen(m) == lengthOf(I32At(m, 12))
    ensures Filed(W.Update(gt, w, m, now), lengthOf)
    ensures Parsed(m).Some? ==> FileLayout(w, Parsed(m).value).bufLen == BufLen(m)
  {
    RowIsAppended(gt, w, m, now);
  }

  /** The row the writer finds in a map with a snapshot's header: the snapshot's tick, and the map's own bytes at the
      snapshot's slot. It is taken exactly when the map parses and its tick is not the file's latest. */
  lemma RowOfHeader(w: W.Writer, m: seq<byte>, snap: seq<byte>, lengthOf: i32 -> nat)
    requires HeaderOf(m, snap) && Recordable(snap, lengthOf) && |snap| <= |m| == MAX_TELEMETRY_SIZE
    requires Filed(w, lengthOf) && ActiveSlot(snap).Some? && NumBuf(snap) >= 0
    ensures W.Usable(m) && W.TickOf(m) == ActiveSlot(snap).value.tick
    ensures var slot := ActiveSlot(snap).value;
            && (RowTaken(w, m).Some? <==> Parsed(m).Some? && slot.tick != FileTick(w, Parsed(m).value))
            && (RowTaken(w, m).Some? ==> RowTaken(w, m).value == m[slot.off..slot.off + slot.len])
  {
    HeaderUsable(m, snap, lengthOf);
    SameField(m, snap, 36);
    SameRow(m, snap);
    SearchesAgreeIff(snap);
  }

  // ---------- one event ----------

  /** The event's message is written to the map. */
  predicate Wrote(t: Tgt, f: Option<Frame>, fate: Fate)
    requires ValidTgt(t) && SmallEnough(f) && Fair(f, fate)
  {
    match fate.outcome
    case Lost => false
    case Arrives => f.Some? && WriteFor(Before(t, fate), f.value.bufOffset, Some(f.value.payload)).Some?
    case Garbled(off, dec) => WriteFor(Before(t, fate), off, dec).Some?
  }

  /** A stale reset closes the file. */
  function Closed(w: W.Writer, t: Tgt, fate: Fate): (r: W.Writer)
    requires W.ValidWriter(w)
    ensures W.ValidWriter(r)
  {
    if fate.stale && t.shared.Some? then W.Finish(w) else w
  }

  /** The writer after one event; `t1` is the target afterwards. */
  function Recorded(gt: W.Order, w: W.Writer, t: Tgt, t1: Tgt, f: Option<Frame>, fate: Fate, now: word): W.Writer
    requires W.ValidWriter(w) && ValidTgt(t) && SmallEnough(f) && Fair(f, fate)
    requires Wrote(t, f, fate) ==> t1.shared.Some? && W.Usable(t1.shared.value)
  {
    if Wrote(t, f, fate) then W.Update(gt, Closed(w, t, fate), t1.shared.value, now) else Closed(w, t, fate)
  }

  // ---------- runs ----------

  /** A calm run of the pipeline that loses nothing, with the writer behind it. */
  datatype Trace = Trace(
    link: Link, ws: seq<World>, es: seq<Event>, xs: seq<Weather>, fs: seq<Option<Frame>>, maxPayload: nat,
    fates: seq<Fate>, hs: seq<History>, lens: seq<nat>,
    nows: seq<word>, recs: seq<W.Writer>)

  predicate Sizes(r: Trace) {
    && |r.es| == |r.xs| == |r.fs| == |r.fates| == |r.nows|
    && |r.ws| == |r.hs| == |r.lens| == |r.recs| == |r.es| + 1
  }

  ghost predicate Lossless(r: Trace) {
    && Sizes(r) && CalmRun(r.link, r.ws, r.es, r.xs, r.fs, r.maxPayload, r.fates, r.hs) && Lengths(r.fs, r.lens)
    && NothingLost(r.fs, r.fates)
  }

  predicate WroteAt(r: Trace, k: nat)
    requires Sizes(r) && k < |r.es|
  {
    && ValidTgt(r.ws[k].target.t) && SmallEnough(r.fs[k]) && Fair(r.fs[k], r.fates[k])
    && Wrote(r.ws[k].target.t, r.fs[k], r.fates[k])
  }

  /** The writer when the event's message arrives, and the map it will write to. */
  function WriterBefore(r: Trace, k: nat): W.Writer
    requires Sizes(r) && k < |r.es| && W.ValidWriter(r.recs[k])
  {
    Closed(r.recs[k], r.ws[k].target.t, r.fates[k])
  }

  function OldMap(r: Trace, k: nat): seq<byte>
    requires Sizes(r) && k < |r.es| && ValidTgt(r.ws[k].target.t)
  {
    MapBefore(Before(r.ws[k].target.t, r.fates[k]))
  }

  /** The writer goes from `recs[k]` to `recs[k + 1]`. */
  predicate RecordsAt(gt: W.Order, r: Trace, k: nat)
    requires Sizes(r) && k < |r.es|
  {
    var t, t1 := r.ws[k].target.t, r.ws[k + 1].target.t;
    && ValidTgt(t) && SmallEnough(r.fs[k]) && Fair(r.fs[k], r.fates[k]) && W.ValidWriter(r.recs[k])
    && (WroteAt(r, k) ==> t1.shared.Some? && W.Usable(t1.shared.value))
    && r.recs[k + 1] == Recorded(gt, r.recs[k], t, t1, r.fs[k], r.fates[k], r.nows[k])
  }

  predicate RecordableAt(r: Trace, lengthOf: i32 -> nat, k: nat)
    requires Sizes(r) && k < |r.es|
  {
    r.es[k].Tick? ==> Recordable(r.es[k].rd.select, lengthOf)
  }

  ghost predicate RecordedRun(gt: W.Order, r: Trace, lengthOf: i32 -> nat) {
    && Lossless(r) && r.recs[0] == W.Writer(None, [])
    && (forall k | 0 <= k < |r.es| :: RecordsAt(gt, r, k))
    && (forall k | 0 <= k < |r.es| :: RecordableAt(r, lengthOf, k))
  }

  /** A message is written when it is a session-info frame, or a partial frame while the target writes those. */
  lemma WroteIff(cfg: Config, s: Src, e: Event, t: Tgt, fate: Fate)
    requires ValidSrc(s) && Possible(e) && ValidTgt(t) && Calm(e, Step(cfg, s, e).1)
    requires SmallEnough(Step(cfg, s, e).1) && Fair(Step(cfg, s, e).1, fate)
    requires Step(cfg, s, e).1.Some? ==> fate.outcome.Arrives?
    ensures var f := Step(cfg, s, e).1;
            Wrote(t, f, fate) <==> f.Some? && (IsSession(f.value) || Before(t, fate).hasFull)
  {
    var f := Step(cfg, s, e).1;
    FrameFacts(cfg, s, e);
    OnlyTicksSend(cfg, s, e);
    if f.Some? && IsSession(f.value) {
      SessionSent(cfg, s, e);
    }
  }

  /** The map's header after a session-info frame. */
  lemma PrefixHeader(m0: seq<byte>, m1: seq<byte>, snap: seq<byte>)
    requires TakesPrefix(m0, m1, snap) && |snap| >= IRSDK_HEADER_SIZE
    ensures HeaderOf(m1, snap)
  {
    var p := PrefixEnd(snap);
    SliceOfShifted(m1, 8, p, 8, IRSDK_HEADER_SIZE);
    SliceOfShifted(snap, 8, p, 8, IRSDK_HEADER_SIZE);
  }

  lemma SessionHeader(cfg: Config, s: Src, e: Event, t: Tgt, fate: Fate)
    requires ValidSrc(s) && Atomic(e) && ValidTgt(t) && SmallEnough(Step(cfg, s, e).1) && fate.outcome.Arrives?
    requires Step(cfg, s, e).1.Some? && IsSession(Step(cfg, s, e).1.value)
    ensures var t1 := Deliver(t, Step(cfg, s, e).1, fate);
            t1.shared.Some? && TakesPrefix(MapBefore(Before(t, fate)), t1.shared.value, e.rd.select)
  {
    SessionSent(cfg, s, e);
    SessionMirrors(cfg, s, e, Before(t, fate));
  }

  lemma MirrorHeader(m: seq<byte>, snap: seq<byte>, slot: Slot)
    requires Mirrors(m, snap, slot)
    ensures HeaderOf(m, snap)
  {
    SliceOfSlice(m, snap, 8, IRSDK_HEADER_SIZE, IRSDK_HEADER_SIZE);
  }

  /** What a written frame leaves in the map: a snapshot's header, and the prefix or the newest slot. */
  predicate Brings(m0: seq<byte>, m1: seq<byte>, snap: seq<byte>, session: bool) {
    && HeaderOf(m1, snap) && |snap| <= |m1| == MAX_TELEMETRY_SIZE
    && if session then TakesPrefix(m0, m1, snap)
       else ActiveSlot(snap).Some? && Mirrors(m1, snap, ActiveSlot(snap).value)
  }

  /** Event `k` and, if it writes, what it writes. */
  predicate Entered(gt: W.Order, r: Trace, lengthOf: i32 -> nat, k: nat)
    requires Sizes(r) && k < |r.es|
  {
    && RecordsAt(gt, r, k)
    && (WroteAt(r, k) ==>
          && r.fs[k].Some? && r.es[k].Tick? && OffsetsNonNegative(r.es[k].rd.select)
          && Recordable(r.es[k].rd.select, lengthOf) && NumBuf(r.es[k].rd.select) >= 0
          && Brings(OldMap(r, k), r.ws[k + 1].target.t.shared.value, r.es[k].rd.select, IsSession(r.fs[k].value)))
  }

  lemma SessionBrings(cfg: Config, s: Src, e: Event, t: Tgt, fate: Fate)
    requires ValidSrc(s) && Atomic(e) && ValidTgt(t) && SmallEnough(Step(cfg, s, e).1) && fate.outcome.Arrives?
    requires Step(cfg, s, e).1.Some? && IsSession(Step(cfg, s, e).1.value)
    ensures var t1 := Deliver(t, Step(cfg, s, e).1, fate);
            t1.shared.Some? && Brings(MapBefore(Before(t, fate)), t1.shared.value, e.rd.select, true)
  {
    SessionHeader(cfg, s, e, t, fate);
    PrefixHeader(MapBefore(Before(t, fate)), Deliver(t, Step(cfg, s, e).1, fate).shared.value, e.rd.select);
  }

  lemma ReplicatedBrings(m0: seq<byte>, t: Tgt, snap: seq<byte>)
    requires ValidTgt(t) && Replicated(t, snap)
    ensures Brings(m0, t.shared.value, snap, false)
  {
    MirrorHeader(t.shared.value, snap, ActiveSlot(snap).value);
  }

  /** A message is written at event `k` when it is a session-info frame, or a partial frame while the target writes
      those. */
  lemma WroteAtIff(gt: W.Order, r: Trace, lengthOf: i32 -> nat, k: nat)
    requires RecordedRun(gt, r, lengthOf) && k < |r.es|
    ensures WroteAt(r, k) <==> r.fs[k].Some? && (IsSession(r.fs[k].value) || FullAt(r.ws, r.fates, k))
    ensures r.fs[k].Some? ==> r.es[k].Tick? && Atomic(r.es[k]) && r.fates[k].outcome.Arrives?
  {
    assert RemembersAt(r.ws, r.es, r.fs, r.fates, r.hs, k) && KeptAt(r.fs, r.fates, k);
    assert FateAt(r.link, r.ws, r.es, r.xs, r.fs, r.fates, k);
    WroteIff(r.link.cfg, r.ws[k].src, r.es[k], r.ws[k].target.t, r.fates[k]);
  }

  lemma SessionEnters(r: Trace, k: nat)
    requires Lossless(r) && k < |r.es| && r.fs[k].Some? && IsSession(r.fs[k].value)
    requires Atomic(r.es[k]) && r.fates[k].outcome.Arrives?
    ensures ValidTgt(r.ws[k].target.t) && r.ws[k + 1].target.t.shared.Some?
    ensures Brings(OldMap(r, k), r.ws[k + 1].target.t.shared.value, r.es[k].rd.select, true)
  {
    assert FateAt(r.link, r.ws, r.es, r.xs, r.fs, r.fates, k);
    SessionBrings(r.link.cfg, r.ws[k].src, r.es[k], r.ws[k].target.t, r.fates[k]);
  }

  lemma PartialReplicated(r: Trace, j: nat, k: nat)
    requires Lossless(r) && j < |r.es| && k == j + 1 && IsPartial(r.fs[j]) && FullAt(r.ws, r.fates, j)
    ensures r.es[j].Tick? && Replicated(r.ws[k].target.t, r.es[j].rd.select)
  {
    TargetFollowsSource(r.link, r.ws, r.es, r.xs, r.fs, r.maxPayload, r.fates, r.hs, r.lens, j, k);
  }

  lemma TargetsValid(r: Trace, j: nat, k: nat)
    requires Lossless(r) && j < |r.es| && k == j + 1
    ensures ValidTgt(r.ws[j].target.t) && ValidTgt(r.ws[k].target.t)
  {
    assert FateAt(r.link, r.ws, r.es, r.xs, r.fs, r.fates, j);
  }

  lemma PartialEnters(r: Trace, k: nat)
    requires Lossless(r) && k < |r.es| && IsPartial(r.fs[k]) && FullAt(r.ws, r.fates, k)
    ensures r.es[k].Tick? && ValidTgt(r.ws[k].target.t) && r.ws[k + 1].target.t.shared.Some?
    ensures Brings(OldMap(r, k), r.ws[k + 1].target.t.shared.value, r.es[k].rd.select, false)
  {
    TargetsValid(r, k, k + 1);
    PartialReplicated(r, k, k + 1);
    ReplicatedBrings(OldMap(r, k), r.ws[k + 1].target.t, r.es[k].rd.select);
  }

  lemma EventEnters(gt: W.Order, r: Trace, lengthOf: i32 -> nat, k: nat)
    requires RecordedRun(gt, r, lengthOf) && k < |r.es|
    ensures Entered(gt, r, lengthOf, k)
  {
    WroteAtIff(gt, r, lengthOf, k);
    assert RecordsAt(gt, r, k) && RecordableAt(r, lengthOf, k);
    if WroteAt(r, k) {
      if IsSession(r.fs[k].value) {
        SessionEnters(r, k);
      } else {
        PartialEnters(r, k);
      }
    }
  }

  // ---------- the rows of a run ----------

  lemma FiledNext(gt: W.Order, r: Trace, lengthOf: i32 -> nat, j: nat, k: nat)
    requires Sizes(r) && j < |r.es| && k == j + 1
    requires Entered(gt, r, lengthOf, j) && Filed(r.recs[j], lengthOf)
    ensures Filed(r.recs[k], lengthOf)
  {
    if WroteAt(r, j) {
      var m := r.ws[k].target.t.shared.value;
      HeaderUsable(m, r.es[j].rd.select, lengthOf);
      UpdateFiled(gt, WriterBefore(r, j), m, r.nows[j], lengthOf);
    }
  }

  lemma {:induction false} FiledRun(gt: W.Order, r: Trace, lengthOf: i32 -> nat, k: nat)
    requires RecordedRun(gt, r, lengthOf) && k <= |r.es|
    ensures Filed(r.recs[k], lengthOf)
  {
    if k > 0 {
      FiledRun(gt, r, lengthOf, k - 1);
      EventEnters(gt, r, lengthOf, k - 1);
      FiledNext(gt, r, lengthOf, k - 1, k);
    }
  }

  /** What event `k` leaves to the file: nothing when the map does not parse, and else the bytes of the newest slot,
      unless its tick is the file's latest. */
  predicate RowIsSlot(w: W.Writer, w1: W.Writer, m: seq<byte>, slot: Slot, now: word)
    requires W.Usable(m) && slot.off + slot.len <= |m|
  {
    match Parsed(m)
    case None => w1 == w
    case Some(l) =>
      var row := if slot.tick == FileTick(w, l) then [] else m[slot.off..slot.off + slot.len];
      && w1.current.Some? && w1.current.value.layout == FileLayout(w, l)
      && w1.current.value.lastTick == slot.tick && w1.current.value.file == FileBefore(w, m, l, now) + row
  }

  lemma UpdateTakesSlot(gt: W.Order, w: W.Writer, m: seq<byte>, snap: seq<byte>, now: word, lengthOf: i32 -> nat)
    requires HeaderOf(m, snap) && Recordable(snap, lengthOf) && |snap| <= |m| == MAX_TELEMETRY_SIZE
    requires Filed(w, lengthOf) && ActiveSlot(snap).Some? && NumBuf(snap) >= 0
    ensures W.Usable(m) && ActiveSlot(snap).value.off + ActiveSlot(snap).value.len <= |snap|
    ensures RowIsSlot(w, W.Update(gt, w, m, now), m, ActiveSlot(snap).value, now)
  {
    RowOfHeader(w, m, snap, lengthOf);
    RowIsAppended(gt, w, m, now);
  }

  /** The prefix of a session-info frame stops before the newest slot. */
  lemma SlotBehind(m0: seq<byte>, m1: seq<byte>, snap: seq<byte>)
    requires TakesPrefix(m0, m1, snap) && OffsetsNonNegative(snap) && IRSDK_HEADER_SIZE <= |snap| <= |m1|
    requires ActiveSlot(snap).Some? && ActiveSlot(snap).value.off > IRSDK_HEADER_SIZE
    requires ActiveSlot(snap).value.off + ActiveSlot(snap).value.len <= |m1|
    ensures var slot := ActiveSlot(snap).value;
            m1[slot.off..slot.off + slot.len] == m0[slot.off..slot.off + slot.len]
  {
    var slot, e := ActiveSlot(snap).value, PrefixEnd(snap);
    SlotBehindPrefix(snap, snap);
    SliceOfShifted(m1, e, |m1|, slot.off, slot.off + slot.len);
    SliceOfShifted(m0, e, |m0|, slot.off, slot.off + slot.len);
  }

  /** After a partial frame the newest slot holds the snapshot's, after a session-info frame what it held before. */
  lemma BroughtSlot(m0: seq<byte>, m1: seq<byte>, snap: seq<byte>, session: bool)
    requires Brings(m0, m1, snap, session) && OffsetsNonNegative(snap) && ActiveSlot(snap).Some? && |m0| == |m1|
    requires ActiveSlot(snap).value.off > IRSDK_HEADER_SIZE
    requires ActiveSlot(snap).value.off + ActiveSlot(snap).value.len <= |snap|
    ensures var slot := ActiveSlot(snap).value;
            m1[slot.off..slot.off + slot.len] == (if session then m0 else snap)[slot.off..slot.off + slot.len]
  {
    if session {
      SlotBehind(m0, m1, snap);
    }
  }

  /** The row of a written frame: the newest slot of the target's map, which after a partial frame is the snapshot's
      slot, and after a session-info frame what the map held there before it. */
  predicate Row(w: W.Writer, w1: W.Writer, m0: seq<byte>, m1: seq<byte>, snap: seq<byte>, session: bool, now: word) {
    && ActiveSlot(snap).Some? && W.Usable(m1) && |snap| <= |m1| == |m0|
    && var slot := ActiveSlot(snap).value;
       && slot.off + slot.len <= |snap| && RowIsSlot(w, w1, m1, slot, now)
       && m1[slot.off..slot.off + slot.len] == (if session then m0 else snap)[slot.off..slot.off + slot.len]
  }

  lemma UpdateRow(gt: W.Order, w: W.Writer, m0: seq<byte>, m1: seq<byte>, snap: seq<byte>, session: bool, now: word,
                  lengthOf: i32 -> nat)
    requires Brings(m0, m1, snap, session) && OffsetsNonNegative(snap) && |m0| == |m1|
    requires Recordable(snap, lengthOf) && Filed(w, lengthOf) && ActiveSlot(snap).Some? && NumBuf(snap) >= 0
    ensures W.Usable(m1) && Row(w, W.Update(gt, w, m1, now), m0, m1, snap, session, now)
  {
    UpdateTakesSlot(gt, w, m1, snap, now, lengthOf);
    BroughtSlot(m0, m1, snap, session);
  }

  predicate RowAt(r: Trace, j: nat, k: nat)
    requires Sizes(r) && j < |r.es| && k == j + 1
  {
    && r.fs[j].Some? && r.es[j].Tick? && r.ws[k].target.t.shared.Some?
    && ValidTgt(r.ws[j].target.t) && W.ValidWriter(r.recs[j])
    && Row(WriterBefore(r, j), r.recs[k], OldMap(r, j), r.ws[k].target.t.shared.value, r.es[j].rd.select,
           IsSession(r.fs[j].value), r.nows[j])
  }

  lemma EnteredRow(gt: W.Order, r: Trace, lengthOf: i32 -> nat, j: nat, k: nat)
    requires Sizes(r) && j < |r.es| && k == j + 1
    requires Entered(gt, r, lengthOf, j) && Filed(r.recs[j], lengthOf) && WroteAt(r, j)
    requires ActiveSlot(r.es[j].rd.select).Some?
    ensures RowAt(r, j, k)
  {
    UpdateRow(gt, WriterBefore(r, j), OldMap(r, j), r.ws[k].target.t.shared.value, r.es[j].rd.select,
              IsSession(r.fs[j].value), r.nows[j], lengthOf);
  }

  /** The file over every run: a frame that is written adds a row exactly when the target's map parses and the newest
      tick is not the file's latest, and the row is the one of the event. */
  lemma RowsOfRun(gt: W.Order, r: Trace, lengthOf: i32 -> nat, j: nat, k: nat)
    requires RecordedRun(gt, r, lengthOf) && j < |r.es| && k == j + 1 && WroteAt(r, j)
    requires r.es[j].Tick? && ActiveSlot(r.es[j].rd.select).Some?
    ensures RowAt(r, j, k)
  {
    FiledRun(gt, r, lengthOf, j);
    EventEnters(gt, r, lengthOf, j);
    EnteredRow(gt, r, lengthOf, j, k);
  }

  lemma UpdateAfterFinish(gt: W.Order, w: W.Writer, m: seq<byte>, now: word)
    requires W.ValidWriter(w) && W.Usable(m) && w.current.None?
    ensures W.Update(gt, w, m, now).closed == w.closed
  {
  }

  /** A target that goes stale closes the file it has open: the finished file is the next closed one, whatever is
      written afterwards goes to a new file. */
  lemma StaleClosesFile(gt: W.Order, r: Trace, lengthOf: i32 -> nat, j: nat, k: nat)
    requires RecordedRun(gt, r, lengthOf) && j < |r.es| && k == j + 1
    requires r.fates[j].stale && r.ws[j].target.t.shared.Some? && r.recs[j].current.Some?
    ensures W.ValidWriter(r.recs[j])
    ensures r.recs[k].closed == r.recs[j].closed + [W.Finished(r.recs[j].current.value)]
  {
    assert RecordsAt(gt, r, j);
    if WroteAt(r, j) {
      UpdateAfterFinish(gt, WriterBefore(r, j), r.ws[k].target.t.shared.value, r.nows[j]);
    }
  }

  // ---------- the row of a session-info frame ----------

  /** Event `j` does not reach into the slot: no stale reset, no prefix up to it, no partial frame that overlaps it. */
  predicate Spares(r: Trace, slot: Slot, j: nat)
    requires Sizes(r) && j < |r.es|
  {
    && !r.fates[j].stale
    && (r.fs[j].Some? && r.es[j].Tick? ==>
          var snap := r.es[j].rd.select;
          if IsSession(r.fs[j].value) then PrefixEnd(snap) <= slot.off
          else FullAt(r.ws, r.fates, j) && ActiveSlot(snap).Some? ==> SlotsApart(ActiveSlot(snap).value, slot))
  }

  predicate SlotsApart(a: Slot, b: Slot) {
    b.off + b.len <= a.off || a.off + a.len <= b.off
  }

  /** The slot is known to hold what the snapshot has there. */
  predicate Holds(h: History, slot: Slot, snap: seq<byte>) {
    && slot.off + slot.len <= |snap| && slot.off in h.slots
    && h.slots[slot.off] == Left(slot.tick, snap[slot.off..slot.off + slot.len])
  }

  lemma FilledAt(r: Trace, i: nat, k: nat)
    requires Lossless(r) && i < |r.es| && k == i + 1 && IsPartial(r.fs[i]) && FullAt(r.ws, r.fates, i)
    ensures r.es[i].Tick? && ActiveSlot(r.es[i].rd.select).Some?
    ensures Holds(r.hs[k], ActiveSlot(r.es[i].rd.select).value, r.es[i].rd.select)
  {
    TargetFollowsSource(r.link, r.ws, r.es, r.xs, r.fs, r.maxPayload, r.fates, r.hs, r.lens, i, k);
    InStepRun(r.link, r.ws, r.es, r.xs, r.fs, r.maxPayload, r.fates, r.lens, i);
    assert RemembersAt(r.ws, r.es, r.fs, r.fates, r.hs, i) && KeptAt(r.fs, r.fates, i);
    LandsExactly(r.link, r.ws, r.es, r.xs, r.fs, r.maxPayload, r.fates, r.lens, i);
  }

  lemma SparedStep(r: Trace, slot: Slot, snap: seq<byte>, j: nat, k: nat)
    requires Sizes(r) && j < |r.es| && k == j + 1
    requires RemembersAt(r.ws, r.es, r.fs, r.fates, r.hs, j) && KeptAt(r.fs, r.fates, j)
    requires Holds(r.hs[j], slot, snap) && Spares(r, slot, j) && slot.len > 0
    ensures Holds(r.hs[k], slot, snap)
  {
  }

  lemma SparedEvent(r: Trace, slot: Slot, snap: seq<byte>, j: nat, k: nat)
    requires Lossless(r) && j < |r.es| && k == j + 1 && Holds(r.hs[j], slot, snap) && Spares(r, slot, j) && slot.len > 0
    ensures Holds(r.hs[k], slot, snap)
  {
    assert RemembersAt(r.ws, r.es, r.fs, r.fates, r.hs, j) && KeptAt(r.fs, r.fates, j);
    SparedStep(r, slot, snap, j, k);
  }

  lemma {:induction false} StaysHeld(r: Trace, slot: Slot, snap: seq<byte>, i: nat, k: nat)
    requires Lossless(r) && i <= k <= |r.es| && Holds(r.hs[i], slot, snap) && slot.len > 0
    requires forall j | i <= j < k :: Spares(r, slot, j)
    ensures Holds(r.hs[k], slot, snap)
    decreases k
  {
    if i < k {
      StaysHeld(r, slot, snap, i, k - 1);
      assert Spares(r, slot, k - 1);
      SparedEvent(r, slot, snap, k - 1, k);
    }
  }

  lemma HeldInMap(r: Trace, slot: Slot, snap: seq<byte>, k: nat)
    requires Lossless(r) && k < |r.es| && Holds(r.hs[k], slot, snap) && !r.fates[k].stale
    ensures ValidTgt(r.ws[k].target.t) && slot.off + slot.len <= |OldMap(r, k)|
    ensures OldMap(r, k)[slot.off..slot.off + slot.len] == snap[slot.off..slot.off + slot.len]
  {
    VouchedRun(r.link, r.ws, r.es, r.xs, r.fs, r.maxPayload, r.fates, r.hs, k);
    assert FateAt(r.link, r.ws, r.es, r.xs, r.fs, r.fates, k);
    assert SlotHeld(r.ws[k].target.t.shared.value, slot.off, r.hs[k].slots[slot.off]);
  }

  /** Event `i` fills the slot with a partial frame, and event `j` is a session-info frame about the same slot, with
      nothing reaching into the slot in between. */
  ghost predicate LeftBy(r: Trace, i: nat, j: nat)
    requires Sizes(r) && i < j < |r.es|
  {
    && IsPartial(r.fs[i]) && FullAt(r.ws, r.fates, i) && SourceRuns.SessionAt(r.fs, j) && !r.fates[j].stale
    && r.es[i].Tick? && ActiveSlot(r.es[i].rd.select).Some? && r.es[j].Tick? && ActiveSlot(r.es[j].rd.select).Some?
    && var a, b := ActiveSlot(r.es[i].rd.select).value, ActiveSlot(r.es[j].rd.select).value;
       a.off == b.off && a.len == b.len && forall x | i < x < j :: Spares(r, a, x)
  }

  lemma SlotStays(r: Trace, i: nat, j: nat)
    requires Lossless(r) && i < j < |r.es| && LeftBy(r, i, j)
    ensures ValidTgt(r.ws[j].target.t)
    ensures var slot := ActiveSlot(r.es[i].rd.select).value;
            && slot.off + slot.len <= |OldMap(r, j)| && slot.off + slot.len <= |r.es[i].rd.select|
            && OldMap(r, j)[slot.off..slot.off + slot.len] == r.es[i].rd.select[slot.off..slot.off + slot.len]
  {
    var slot := ActiveSlot(r.es[i].rd.select).value;
    FilledAt(r, i, i + 1);
    StaysHeld(r, slot, r.es[i].rd.select, i + 1, j);
    HeldInMap(r, slot, r.es[i].rd.select, j);
  }

  /** Which row a session-info frame adds: it carries the new tick, but holds what the latest partial frame left in
      that slot. */
  lemma SessionRowIsOld(gt: W.Order, r: Trace, lengthOf: i32 -> nat, i: nat, j: nat, k: nat)
    requires RecordedRun(gt, r, lengthOf) && i < j < |r.es| && k == j + 1 && LeftBy(r, i, j)
    ensures RowAt(r, j, k) && RowIsOld(r, i, j, k)
  {
    WroteAtIff(gt, r, lengthOf, j);
    RowsOfRun(gt, r, lengthOf, j, k);
    SlotStays(r, i, j);
    OldRow(r, i, j, k);
  }

  lemma OldRow(r: Trace, i: nat, j: nat, k: nat)
    requires Sizes(r) && i < j < |r.es| && k == j + 1 && LeftBy(r, i, j) && RowAt(r, j, k)
    requires var slot := ActiveSlot(r.es[i].rd.select).value;
             && slot.off + slot.len <= |OldMap(r, j)| && slot.off + slot.len <= |r.es[i].rd.select|
             && OldMap(r, j)[slot.off..slot.off + slot.len] == r.es[i].rd.select[slot.off..slot.off + slot.len]
    ensures RowIsOld(r, i, j, k)
  {
  }

  predicate RowIsOld(r: Trace, i: nat, j: nat, k: nat)
    requires Sizes(r) && i < j < |r.es| && k == j + 1 && RowAt(r, j, k) && r.es[i].Tick?
  {
    var before, m, slot := r.es[i].rd.select, r.ws[k].target.t.shared.value, ActiveSlot(r.es[j].rd.select).value;
    slot.off + slot.len <= |before| && m[slot.off..slot.off + slot.len] == before[slot.off..slot.off + slot.len]
  }

  // ---------- a tick is recorded once ----------

  /** Between two writes the writer keeps its file, or the target writes no partial frames. */
  predicate Untouched(w: W.Writer, r: Trace, k: nat)
    requires Sizes(r) && k <= |r.es|
  {
    r.ws[k].target.t.hasFull ==> r.recs[k] == w
  }

  lemma SilentStep(cfg: Config, s: Src, e: Event, t: Tgt, fate: Fate)
    requires ValidSrc(s) && Possible(e) && ValidTgt(t) && Calm(e, Step(cfg, s, e).1)
    requires SmallEnough(Step(cfg, s, e).1) && Fair(Step(cfg, s, e).1, fate)
    requires Step(cfg, s, e).1.Some? ==> fate.outcome.Arrives?
    requires !Wrote(t, Step(cfg, s, e).1, fate)
    ensures Deliver(t, Step(cfg, s, e).1, fate).hasFull ==> t.hasFull && !(fate.stale && t.shared.Some?)
  {
    WroteIff(cfg, s, e, t, fate);
    if IsPartial(Step(cfg, s, e).1) {
      IgnoredVouched(Before(t, fate), Step(cfg, s, e).1.value, NOTHING);
    }
  }

  lemma UntouchedNext(gt: W.Order, r: Trace, lengthOf: i32 -> nat, w: W.Writer, j: nat, k: nat)
    requires RecordedRun(gt, r, lengthOf) && j < |r.es| && k == j + 1 && !WroteAt(r, j) && Untouched(w, r, j)
    ensures Untouched(w, r, k)
  {
    assert RemembersAt(r.ws, r.es, r.fs, r.fates, r.hs, j) && KeptAt(r.fs, r.fates, j);
    assert FateAt(r.link, r.ws, r.es, r.xs, r.fs, r.fates, j);
    assert RecordsAt(gt, r, j);
    SilentStep(r.link.cfg, r.ws[j].src, r.es[j], r.ws[j].target.t, r.fates[j]);
  }

  /** Nothing is written from event `i` up to event `k`. */
  ghost predicate Silent(r: Trace, i: nat, k: nat)
    requires Sizes(r) && i <= k <= |r.es|
  {
    forall j | i <= j < k :: !WroteAt(r, j)
  }

  lemma {:induction false} UntouchedRun(gt: W.Order, r: Trace, lengthOf: i32 -> nat, i: nat, k: nat)
    requires RecordedRun(gt, r, lengthOf) && i <= k <= |r.es| && Silent(r, i, k)
    ensures Untouched(r.recs[i], r, k)
    decreases k
  {
    if i < k {
      UntouchedRun(gt, r, lengthOf, i, k - 1);
      assert !WroteAt(r, k - 1);
      UntouchedNext(gt, r, lengthOf, r.recs[i], k - 1, k);
    }
  }

  /** The file is one of the session, and its latest tick is this one. */
  predicate Latest(w: W.Writer, update: i32, tick: i32) {
    w.current.Some? && w.current.value.layout.update == update && w.current.value.lastTick == tick
  }

  lemma LatestAfter(r: Trace, j: nat, k: nat)
    requires Sizes(r) && j < |r.es| && k == j + 1 && RowAt(r, j, k) && Parsed(r.ws[k].target.t.shared.value).Some?
    requires HeaderOf(r.ws[k].target.t.shared.value, r.es[j].rd.select)
    ensures Latest(r.recs[k], SessionUpdate(r.es[j].rd.select), ActiveSlot(r.es[j].rd.select).value.tick)
  {
    SameField(r.ws[k].target.t.shared.value, r.es[j].rd.select, 12);
  }

  /** A map with the file's session and latest tick leaves the writer as it is. */
  lemma SameTickKeeps(gt: W.Order, w: W.Writer, m: seq<byte>, snap: seq<byte>, now: word, lengthOf: i32 -> nat)
    requires HeaderOf(m, snap) && Recordable(snap, lengthOf) && |snap| <= |m| == MAX_TELEMETRY_SIZE
    requires Filed(w, lengthOf) && ActiveSlot(snap).Some? && NumBuf(snap) >= 0
    requires Latest(w, SessionUpdate(snap), ActiveSlot(snap).value.tick)
    ensures W.Usable(m) && W.Update(gt, w, m, now) == w
  {
    RowOfHeader(w, m, snap, lengthOf);
    SameField(m, snap, 12);
  }

  lemma EnteredKeeps(gt: W.Order, r: Trace, lengthOf: i32 -> nat, j: nat, k: nat)
    requires Sizes(r) && j < |r.es| && k == j + 1
    requires Entered(gt, r, lengthOf, j) && Filed(r.recs[j], lengthOf) && WroteAt(r, j)
    requires ActiveSlot(r.es[j].rd.select).Some? && WriterBefore(r, j) == r.recs[j]
    requires Latest(r.recs[j], SessionUpdate(r.es[j].rd.select), ActiveSlot(r.es[j].rd.select).value.tick)
    ensures r.recs[k] == r.recs[j]
  {
    SameTickKeeps(gt, r.recs[j], r.ws[k].target.t.shared.value, r.es[j].rd.select, r.nows[j], lengthOf);
  }

  /** A target that writes a partial frame did not go stale before it. */
  lemma PartialIsNotStale(r: Trace, k: nat)
    requires Lossless(r) && k < |r.es| && IsPartial(r.fs[k]) && FullAt(r.ws, r.fates, k)
    ensures W.ValidWriter(r.recs[k]) ==> WriterBefore(r, k) == r.recs[k]
    ensures r.ws[k].target.t.hasFull
  {
    InStepRun(r.link, r.ws, r.es, r.xs, r.fs, r.maxPayload, r.fates, r.lens, k);
    FullMeansFresh(r.ws[k].target.t, r.fates[k]);
  }

  /** A partial frame that is the next one written belongs to the session of the session-info frame before it. */
  lemma SameSession(gt: W.Order, r: Trace, lengthOf: i32 -> nat, j: nat, k: nat)
    requires RecordedRun(gt, r, lengthOf) && j < k < |r.es| && SourceRuns.SessionAt(r.fs, j) && IsPartial(r.fs[k])
    requires Silent(r, j + 1, k)
    ensures r.es[j].Tick? && r.es[k].Tick? && SessionUpdate(r.es[k].rd.select) == SessionUpdate(r.es[j].rd.select)
  {
    LossyRunIsLinkRun(r.link, r.ws, r.es, r.xs, r.fs, r.maxPayload, r.fates, r.lens);
    forall i | j < i < k ensures !SourceRuns.SessionAt(r.fs, i) {
      WroteAtIff(gt, r, lengthOf, i);
    }
    SourceRuns.PartialKeepsUpdate(r.link.cfg, Sources(r.ws), r.es, r.fs, j, k);
  }

  /** Event `j` is a session-info frame, and event `k` the next frame that is written, a partial frame with the same
      tick. */
  ghost predicate SameTickFollows(r: Trace, j: nat, k: nat)
    requires Sizes(r) && j < k < |r.es|
  {
    && SourceRuns.SessionAt(r.fs, j) && IsPartial(r.fs[k]) && FullAt(r.ws, r.fates, k)
    && Silent(r, j + 1, k)
    && r.es[j].Tick? && ActiveSlot(r.es[j].rd.select).Some? && r.es[k].Tick? && ActiveSlot(r.es[k].rd.select).Some?
    && ActiveSlot(r.es[j].rd.select).value.tick == ActiveSlot(r.es[k].rd.select).value.tick
  }

  /** The target has a map that parses: connected and populated. */
  predicate ConnectedAt(r: Trace, k: nat)
    requires Sizes(r) && k <= |r.es|
  {
    && r.ws[k].target.t.shared.Some? && W.Usable(r.ws[k].target.t.shared.value)
    && Parsed(r.ws[k].target.t.shared.value).Some?
  }

  lemma SessionIsLatest(gt: W.Order, r: Trace, lengthOf: i32 -> nat, j: nat, k: nat)
    requires RecordedRun(gt, r, lengthOf) && j < |r.es| && k == j + 1 && SourceRuns.SessionAt(r.fs, j) && r.es[j].Tick?
    requires ActiveSlot(r.es[j].rd.select).Some? && ConnectedAt(r, k)
    ensures Latest(r.recs[k], SessionUpdate(r.es[j].rd.select), ActiveSlot(r.es[j].rd.select).value.tick)
  {
    WroteAtIff(gt, r, lengthOf, j);
    EventEnters(gt, r, lengthOf, j);
    RowsOfRun(gt, r, lengthOf, j, k);
    LatestAfter(r, j, k);
  }

  lemma KeptUntil(gt: W.Order, r: Trace, lengthOf: i32 -> nat, i: nat, j: nat, k: nat)
    requires RecordedRun(gt, r, lengthOf) && i < k < |r.es| && j == i + 1 && Silent(r, j, k)
    requires IsPartial(r.fs[k]) && FullAt(r.ws, r.fates, k)
    ensures r.recs[k] == r.recs[j]
  {
    UntouchedRun(gt, r, lengthOf, j, k);
    PartialIsNotStale(r, k);
  }

  lemma LatestIsKept(gt: W.Order, r: Trace, lengthOf: i32 -> nat, k: nat)
    requires RecordedRun(gt, r, lengthOf) && k < |r.es| && IsPartial(r.fs[k]) && FullAt(r.ws, r.fates, k)
    requires r.es[k].Tick? && ActiveSlot(r.es[k].rd.select).Some?
    requires Latest(r.recs[k], SessionUpdate(r.es[k].rd.select), ActiveSlot(r.es[k].rd.select).value.tick)
    ensures r.recs[k + 1] == r.recs[k]
  {
    WroteAtIff(gt, r, lengthOf, k);
    FiledRun(gt, r, lengthOf, k);
    PartialIsNotStale(r, k);
    EventEnters(gt, r, lengthOf, k);
    EnteredKeeps(gt, r, lengthOf, k, k + 1);
  }

  /** Once the file has a tick of the session, no partial frame with that tick changes it, until something else is
      written. */
  lemma NotRecordedAgain(gt: W.Order, r: Trace, lengthOf: i32 -> nat, i: nat, j: nat, k: nat)
    requires RecordedRun(gt, r, lengthOf) && i < k < |r.es| && SameTickFollows(r, i, k) && j == i + 1
    requires Latest(r.recs[j], SessionUpdate(r.es[i].rd.select), ActiveSlot(r.es[i].rd.select).value.tick)
    ensures r.recs[k + 1] == r.recs[k] == r.recs[j]
  {
    SameSession(gt, r, lengthOf, i, k);
    KeptUntil(gt, r, lengthOf, i, j, k);
    LatestIsKept(gt, r, lengthOf, k);
  }

  lemma LatestThere(gt: W.Order, r: Trace, lengthOf: i32 -> nat, i: nat, j: nat, k: nat)
    requires RecordedRun(gt, r, lengthOf) && i < k < |r.es| && SameTickFollows(r, i, k)
    requires j == i + 1 && ConnectedAt(r, j)
    ensures Latest(r.recs[j], SessionUpdate(r.es[i].rd.select), ActiveSlot(r.es[i].rd.select).value.tick)
  {
    SessionIsLatest(gt, r, lengthOf, i, j);
  }

  /** The right row never comes: when a session-info frame of a connected game has recorded its tick with the old row,
      a partial frame with that tick leaves the file as it is. */
  lemma TickIsNotRecordedAgain(gt: W.Order, r: Trace, lengthOf: i32 -> nat, i: nat, j: nat, k: nat)
    requires RecordedRun(gt, r, lengthOf) && i < k < |r.es| && SameTickFollows(r, i, k)
    requires j == i + 1 && ConnectedAt(r, j)
    ensures r.recs[k + 1] == r.recs[k] == r.recs[j]
  {
    LatestThere(gt, r, lengthOf, i, j, k);
    NotRecordedAgain(gt, r, lengthOf, i, j, k);
  }
}
