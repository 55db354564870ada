/** What a program polling the target's map can see while the target writes it (target.rs). Each copy into the
    map is a sequence of byte writes in any order, and the observer may look between any two of them. The
    property at stake is the activation rule: the connected status is not seen before the telemetry is there. */
module Visibility {
  import opened Options
  import opened Bytes
  import opened Wire
  import opened Irsdk
  import opened Target
  import S = Source

  /** `m` shows up while `c` is being copied onto `m0`: every byte is the old or the new one. */
  predicate Partly(m0: seq<byte>, c: Copy, m: seq<byte>)
    requires Fits(c, |m0|)
  {
    && |m| == |m0|
    && forall k | 0 <= k < |m| :: m[k] == m0[k] || (c.off <= k < c.off + |c.data| && m[k] == c.data[k - c.off])
  }

  predicate AllFit(cs: seq<Copy>, size: nat) {
    forall i | 0 <= i < |cs| :: Fits(cs[i], size)
  }

  /** `m` shows up during copy `i` of a sequence of copies, or directly before or after it. */
  predicate Seen(m0: seq<byte>, cs: seq<Copy>, i: nat, m: seq<byte>)
    requires AllFit(cs, |m0|) && i < |cs|
  {
    Partly(ApplyAll(m0, cs[..i]), cs[i], m)
  }

  /** The `IRSDK_ST_CONNECTED` bit. */
  predicate Connected(m: seq<byte>)
    requires |m| >= IRSDK_HEADER_SIZE
  {
    Status(m) % 2 == 1
  }

  lemma ConnectedIsByte4(m: seq<byte>)
    requires |m| >= IRSDK_HEADER_SIZE
    ensures Connected(m) <==> m[4] as int % 2 == 1
  {
    var s := m[4..8];
    assert LeNat(s) == s[0] as nat + 0x100 * LeNat(s[1..]);
  }

  lemma ZerosDisconnected()
    ensures !Connected(Zeros(MAX_TELEMETRY_SIZE))
  {
    ConnectedIsByte4(Zeros(MAX_TELEMETRY_SIZE));
  }

  lemma SeenFirst(m0: seq<byte>, cs: seq<Copy>, m: seq<byte>)
    requires AllFit(cs, |m0|) && |cs| > 0
    ensures Seen(m0, cs, 0, m) <==> Partly(m0, cs[0], m)
  {
    assert cs[..0] == [];
  }

  lemma SeenSecond(m0: seq<byte>, cs: seq<Copy>, m: seq<byte>)
    requires AllFit(cs, |m0|) && |cs| > 1
    ensures Seen(m0, cs, 1, m) <==> Partly(Splice(m0, cs[0].off, cs[0].data), cs[1], m)
  {
    assert cs[..1] == [cs[0]];
    assert ApplyAll(m0, [cs[0]]) == ApplyAll(Splice(m0, cs[0].off, cs[0].data), []);
  }

  // ---------- session-info frames ----------

  /** At no moment does a session-info frame touch the status field or anything behind its own end. */
  lemma SessionKeeps(m0: seq<byte>, d: seq<byte>, i: nat, m: seq<byte>)
    requires 8 <= |d| <= |m0| && AllFit(SessionCopies(d), |m0|)
    requires i < |SessionCopies(d)| && Seen(m0, SessionCopies(d), i, m)
    ensures |m| == |m0|
    ensures forall k | 0 <= k < |m| && (4 <= k < 8 || |d| <= k) :: m[k] == m0[k]
  {
    var cs := SessionCopies(d);
    if i == 0 {
      SeenFirst(m0, cs, m);
    } else {
      SeenSecond(m0, cs, m);
    }
  }

  /** The frame the source sends never reaches a slot: whatever part of it has been written, the status and
      every active slot with a valid offset are as before. */
  lemma SessionLeavesSlots(rd: S.Reading, m0: seq<byte>, i: nat, m: seq<byte>)
    requires S.Readable(rd) && |rd.copy| >= IRSDK_HEADER_SIZE && |m0| == MAX_TELEMETRY_SIZE
    requires AllFit(SessionCopies(S.SessionFrame(rd).payload), |m0|)
    requires i < |SessionCopies(S.SessionFrame(rd).payload)|
    requires Seen(m0, SessionCopies(S.SessionFrame(rd).payload), i, m)
    ensures |m| == |m0| && m[4..8] == m0[4..8]
    ensures forall s | 0 <= s < SlotCount(rd.select) && ValidOffset(rd.select, s) ::
              m[SlotOffset(rd.select, s)..] == m0[SlotOffset(rd.select, s)..]
  {
    var d := S.SessionFrame(rd).payload;
    SessionKeeps(m0, d, i, m);
    forall s | 0 <= s < SlotCount(rd.select) && ValidOffset(rd.select, s)
      ensures m[SlotOffset(rd.select, s)..] == m0[SlotOffset(rd.select, s)..]
    {
      PrefixStopsBeforeSlots(rd.select, |d|);
    }
  }

  // ---------- when the status turns on ----------

  /** The varBuf of `frame` is completely in place at `off`. */
  predicate VarBufInPlace(m: seq<byte>, off: nat, frame: seq<byte>)
    requires |frame| >= IRSDK_HEADER_SIZE && off + (|frame| - IRSDK_HEADER_SIZE) <= |m|
  {
    m[off..off + (|frame| - IRSDK_HEADER_SIZE)] == frame[IRSDK_HEADER_SIZE..]
  }

  lemma PartialSecond(m0: seq<byte>, off: nat, frame: seq<byte>, m: seq<byte>)
    requires |frame| >= IRSDK_HEADER_SIZE && AllFit(PartialCopies(off, frame), |m0|)
    requires IRSDK_HEADER_SIZE <= off && Seen(m0, PartialCopies(off, frame), 1, m)
    ensures |m| == |m0| && VarBufInPlace(m, off, frame)
  {
    SeenSecond(m0, PartialCopies(off, frame), m);
  }

  /** While the varBuf is being copied, the status can turn on in exactly one way: the offset points into the
      header so that the varBuf itself covers the status byte and is odd there. */
  lemma EarlyStatusIff(m0: seq<byte>, off: nat, frame: seq<byte>)
    requires |frame| >= IRSDK_HEADER_SIZE && |m0| >= IRSDK_HEADER_SIZE && AllFit(PartialCopies(off, frame), |m0|)
    requires !Connected(m0)
    ensures (exists m | |m| >= IRSDK_HEADER_SIZE && Seen(m0, PartialCopies(off, frame), 0, m) :: Connected(m))
            <==> off <= 4 < off + |frame| - IRSDK_HEADER_SIZE && frame[IRSDK_HEADER_SIZE + 4 - off] as int % 2 == 1
  {
    var cs := PartialCopies(off, frame);
    ConnectedIsByte4(m0);
    forall m | |m| >= IRSDK_HEADER_SIZE
      ensures Seen(m0, cs, 0, m) <==> Partly(m0, cs[0], m)
      ensures Connected(m) <==> m[4] as int % 2 == 1
    {
      SeenFirst(m0, cs, m);
      ConnectedIsByte4(m);
    }
    if off <= 4 < off + |frame| - IRSDK_HEADER_SIZE && frame[IRSDK_HEADER_SIZE + 4 - off] as int % 2 == 1 {
      var m := Splice(m0, off, cs[0].data);
      assert Partly(m0, cs[0], m);
      assert m[4] == cs[0].data[4 - off];
    }
  }

  /** The offset of a message that `write`s a partial frame. */
  predicate BehindHeader(off: u32) {
    off == U32_MAX || WithoutDeltaBit(off) >= IRSDK_HEADER_SIZE
  }

  lemma WriteIs(t: Tgt, off: u32, dec: Option<seq<byte>>)
    requires ValidTgt(t) && (dec.Some? ==> |dec.value| <= MAX_TELEMETRY_SIZE) && WriteFor(t, off, dec).Some?
    ensures dec.Some? && AllFit(WriteFor(t, off, dec).value.copies, MAX_TELEMETRY_SIZE)
    ensures off == U32_MAX ==> |dec.value| >= 8 && WriteFor(t, off, dec).value.copies == SessionCopies(dec.value)
    ensures off != U32_MAX ==>
              && |dec.value| >= IRSDK_HEADER_SIZE
              && WithoutDeltaBit(off) + (|dec.value| - IRSDK_HEADER_SIZE) <= MAX_TELEMETRY_SIZE
              && WriteFor(t, off, dec).value.copies == PartialCopies(WithoutDeltaBit(off), Reconstruct(t.prev, off,
                dec.value))
  {
  }

  /** Whenever a message turns the status on, it is a partial frame, its header is being written, and its
      varBuf is already completely in place. */
  lemma StatusTurnsOnLast(t: Tgt, off: u32, dec: Option<seq<byte>>, i: nat, m: seq<byte>)
    requires ValidTgt(t) && (dec.Some? ==> |dec.value| <= MAX_TELEMETRY_SIZE) && WriteFor(t, off, dec).Some?
    requires AllFit(WriteFor(t, off, dec).value.copies, MAX_TELEMETRY_SIZE) && i < |WriteFor(t, off, dec).value.copies|
    requires BehindHeader(off) && Seen(MapBefore(t), WriteFor(t, off, dec).value.copies, i, m)
    requires |m| == MAX_TELEMETRY_SIZE && !Connected(MapBefore(t)) && Connected(m)
    ensures off != U32_MAX && i == 1 && dec.Some? && |dec.value| >= IRSDK_HEADER_SIZE
    ensures WithoutDeltaBit(off) + (|dec.value| - IRSDK_HEADER_SIZE) <= MAX_TELEMETRY_SIZE
    ensures VarBufInPlace(m, WithoutDeltaBit(off), Reconstruct(t.prev, off, dec.value))
  {
    var m0 := MapBefore(t);
    WriteIs(t, off, dec);
    ConnectedIsByte4(m0);
    ConnectedIsByte4(m);
    if off == U32_MAX {
      SessionKeeps(m0, dec.value, i, m);
    } else {
      var frame := Reconstruct(t.prev, off, dec.value);
      if i == 0 {
        EarlyStatusIff(m0, WithoutDeltaBit(off), frame);
      } else {
        PartialSecond(m0, WithoutDeltaBit(off), frame, m);
      }
    }
  }

  // ---------- runs ----------

  /** What happens to the map: an assembled message arrives, or the stale timeout fires. */
  datatype Event = Arrive(off: u32, dec: Option<seq<byte>>) | Silence

  predicate Possible(e: Event) {
    e.Arrive? ==> BehindHeader(e.off) && (e.dec.Some? ==> |e.dec.value| <= MAX_TELEMETRY_SIZE)
  }

  function Next(t: Tgt, e: Event): (r: Tgt)
    requires ValidTgt(t) && Possible(e)
    ensures ValidTgt(r)
  {
    match e
    case Arrive(off, dec) => Message(t, off, dec)
    case Silence => Stale(t)
  }

  /** The copies onto `MapBefore(t)`; the stale timeout zeroes the map before dropping it. */
  function CopiesOf(t: Tgt, e: Event): (cs: seq<Copy>)
    requires ValidTgt(t) && Possible(e)
    ensures AllFit(cs, MAX_TELEMETRY_SIZE)
  {
    match e
    case Arrive(off, dec) => (match WriteFor(t, off, dec) case None => [] case Some(w) => w.copies)
    case Silence => if t.shared.None? then [] else [Copy(0, Zeros(MAX_TELEMETRY_SIZE))]
  }

  predicate Steps(ts: seq<Tgt>, es: seq<Event>, k: nat)
    requires k < |es| && |ts| == |es| + 1
  {
    ValidTgt(ts[k]) && Possible(es[k]) && ts[k + 1] == Next(ts[k], es[k])
  }

  ghost predicate Run(ts: seq<Tgt>, es: seq<Event>) {
    |ts| == |es| + 1 && ts[0] == InitialTgt() && forall k | 0 <= k < |es| :: Steps(ts, es, k)
  }

  /** Event `k` writes a partial frame. */
  predicate WritesPartial(ts: seq<Tgt>, es: seq<Event>, k: nat)
    requires k < |es| && |ts| == |es| + 1 && Steps(ts, es, k)
  {
    es[k].Arrive? && es[k].off != U32_MAX && WriteFor(ts[k], es[k].off, es[k].dec).Some?
  }

  /** Before event `k` some partial frame was completely written, and the map has not been dropped since. */
  ghost predicate Populated(ts: seq<Tgt>, es: seq<Event>, k: nat)
    requires |ts| == |es| + 1 && k <= |es|
  {
    exists j | 0 <= j < k :: Steps(ts, es, j) && WritesPartial(ts, es, j) && forall x | j < x < k :: !es[x].Silence?
  }

  ghost predicate OnlyWhenPopulated(ts: seq<Tgt>, es: seq<Event>, k: nat)
    requires |ts| == |es| + 1 && k <= |es|
  {
    ValidTgt(ts[k]) && (Connected(MapBefore(ts[k])) ==> Populated(ts, es, k))
  }

  /** A message that is not a partial frame leaves the status as it was. */
  lemma OtherMessagesKeepStatus(t: Tgt, off: u32, dec: Option<seq<byte>>)
    requires ValidTgt(t) && (dec.Some? ==> |dec.value| <= MAX_TELEMETRY_SIZE)
    requires off == U32_MAX || WriteFor(t, off, dec).None?
    ensures Connected(MapBefore(Message(t, off, dec))) <==> Connected(MapBefore(t))
  {
    ConnectedIsByte4(MapBefore(t));
    ConnectedIsByte4(MapBefore(Message(t, off, dec)));
    if WriteFor(t, off, dec).Some? {
      WriteIs(t, off, dec);
      var d := dec.value;
      if |d| > 8 {
        ApplyTwo(MapBefore(t), Copy(0, d[..4]), Copy(8, d[8..]));
      } else {
        ApplyOne(MapBefore(t), Copy(0, d[..4]));
      }
    }
  }

  lemma ApplyOne(m: seq<byte>, a: Copy)
    requires Fits(a, |m|)
    ensures ApplyAll(m, [a]) == Splice(m, a.off, a.data)
  {
    assert ApplyAll(m, [a]) == ApplyAll(Splice(m, a.off, a.data), []);
  }

  lemma PopulatedStep(ts: seq<Tgt>, es: seq<Event>, j: nat, k: nat)
    requires Run(ts, es) && j < |es| && k == j + 1 && OnlyWhenPopulated(ts, es, j)
    ensures OnlyWhenPopulated(ts, es, k)
  {
    assert Steps(ts, es, j);
    if WritesPartial(ts, es, j) {
      assert Populated(ts, es, k);
    } else if es[j].Silence? {
      ZerosDisconnected();
    } else {
      OtherMessagesKeepStatus(ts[j], es[j].off, es[j].dec);
      if Populated(ts, es, j) {
        var x :| 0 <= x < j && Steps(ts, es, x) && WritesPartial(ts, es, x) && forall y | x < y < j :: !es[y].Silence?;
        assert Populated(ts, es, k);
      }
    }
  }

  lemma {:induction false} PopulatedRun(ts: seq<Tgt>, es: seq<Event>, k: nat)
    requires Run(ts, es) && k <= |es|
    ensures OnlyWhenPopulated(ts, es, k)
  {
    if k == 0 {
      ZerosDisconnected();
    } else {
      PopulatedRun(ts, es, k - 1);
      PopulatedStep(ts, es, k - 1, k);
    }
  }

  /** Over every run of messages and stale timeouts, and at every moment in it: a map that shows the connected
      status has had some partial frame's varBuf completely written since it was created. It is an earlier
      partial frame, or the one being written, whose varBuf is then in place. */
  lemma ConnectedOnlyWithTelemetry(ts: seq<Tgt>, es: seq<Event>, k: nat, i: nat, m: seq<byte>)
    requires Run(ts, es) && k < |es| && Steps(ts, es, k)
    requires i < |CopiesOf(ts[k], es[k])| && |m| == MAX_TELEMETRY_SIZE && Connected(m)
    requires Seen(MapBefore(ts[k]), CopiesOf(ts[k], es[k]), i, m)
    ensures Populated(ts, es, k)
            || (&& WritesPartial(ts, es, k) && i == 1
                && var off, d := es[k].off, es[k].dec.value;
                   VarBufInPlace(m, WithoutDeltaBit(off), Reconstruct(ts[k].prev, off, d)))
  {
    PopulatedRun(ts, es, k);
    if !Connected(MapBefore(ts[k])) {
      if es[k].Arrive? {
        StatusTurnsOnLast(ts[k], es[k].off, es[k].dec, i, m);
      } else {
        SeenFirst(MapBefore(ts[k]), CopiesOf(ts[k], es[k]), m);
        ConnectedIsByte4(m);
        ConnectedIsByte4(MapBefore(ts[k]));
      }
    }
  }
}
