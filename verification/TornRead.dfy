/** The torn-read guard (source.rs): the source copies a slot while the game may be rewriting it, and drops the
    copy when the slot's tickCount has changed meanwhile. What the guard is worth depends on the order in
    which the game writes. */
module TornRead {
  import opened Options
  import opened Bytes
  import opened Irsdk
  import opened Source

  /** The contents and tickCounts the game gives a slot, version by version. */
  datatype Versions = Versions(contents: nat -> seq<byte>, tick: nat -> i32)

  function Contents(m: seq<byte>, slot: Slot): (r: seq<byte>)
    requires slot.off + slot.len <= |m|
    ensures |r| == slot.len
  {
    m[slot.off..slot.off + slot.len]
  }

  predicate InMap(m: seq<byte>, slot: Slot) {
    slot.off + slot.len <= |m| && slot.tickField + 4 <= |m|
  }

  /** The slot holds version `v` completely. */
  predicate Whole(vs: Versions, m: seq<byte>, slot: Slot, v: nat)
    requires InMap(m, slot)
  {
    Contents(m, slot) == vs.contents(v)
  }

  /** One step of a game that announces first: it stores the next version's tickCount while the contents stand, or
      it writes bytes of the announced version, or it does something outside the slot. */
  predicate Announces(vs: Versions, m: seq<byte>, v: nat, m1: seq<byte>, v1: nat, slot: Slot)
    requires InMap(m, slot) && InMap(m1, slot) && |vs.contents(v)| == slot.len
  {
    || (v1 == v + 1 && Contents(m1, slot) == Contents(m, slot))
    || (v1 == v && forall k | 0 <= k < slot.len ::
          Contents(m1, slot)[k] == Contents(m, slot)[k] || Contents(m1, slot)[k] == vs.contents(v)[k])
  }

  /** `hist[t]` is the live map at instant `t`, and `ver[t]` the version its slot announces. */
  predicate InstantOk(vs: Versions, hist: seq<seq<byte>>, ver: seq<nat>, slot: Slot, t: nat)
    requires t < |hist| == |ver|
  {
    InMap(hist[t], slot) && |vs.contents(ver[t])| == slot.len && I32At(hist[t], slot.tickField) == vs.tick(ver[t])
  }

  predicate StepOk(vs: Versions, hist: seq<seq<byte>>, ver: seq<nat>, slot: Slot, t: nat)
    requires t + 1 < |hist| == |ver|
  {
    && InstantOk(vs, hist, ver, slot, t) && InstantOk(vs, hist, ver, slot, t + 1)
    && Announces(vs, hist[t], ver[t], hist[t + 1], ver[t + 1], slot)
  }

  ghost predicate AnnouncesFirst(vs: Versions, hist: seq<seq<byte>>, ver: seq<nat>, slot: Slot) {
    && |hist| == |ver| > 0
    && (forall t | 0 <= t < |hist| :: InstantOk(vs, hist, ver, slot, t))
    && (forall t | 0 <= t < |hist| - 1 :: StepOk(vs, hist, ver, slot, t))
  }

  /** The tickCount announced at instant `a` is not used again for a later version. */
  ghost predicate NotReused(vs: Versions, ver: seq<nat>, a: nat)
    requires a < |ver|
  {
    forall t | a <= t < |ver| :: vs.tick(ver[t]) == vs.tick(ver[a]) ==> ver[t] == ver[a]
  }

  /** A read that finds the slot at instant `a`, copies byte `k` of it at instant `at[k]`, and looks at the
      tickCount again at instant `b`. */
  ghost predicate ReadDuring(rd: Reading, hist: seq<seq<byte>>, slot: Slot, a: nat, at: seq<nat>, b: nat) {
    && a <= b < |hist| && |at| == slot.len
    && Readable(rd) && ActiveSlot(rd.select) == Some(slot) && InMap(rd.copy, slot)
    && InMap(hist[a], slot) && I32At(hist[a], slot.tickField) == slot.tick
    && InMap(hist[b], slot) && I32At(rd.after, slot.tickField) == I32At(hist[b], slot.tickField)
    && forall k | 0 <= k < slot.len ::
         a <= at[k] <= b && InMap(hist[at[k]], slot) && Contents(rd.copy, slot)[k] == Contents(hist[at[k]], slot)[k]
  }

  /** The tick sends this slot. */
  predicate Sends(cfg: Config, s: Src, rd: Reading, slot: Slot) {
    ValidSrc(s) && Readable(rd) && ActiveSlot(rd.select) == Some(slot) && SendPartial(cfg, s, rd, slot).1.Some?
  }

  /** The varBuf in the frame that is sent. */
  function SentContents(cfg: Config, s: Src, rd: Reading, slot: Slot): (r: seq<byte>)
    requires Sends(cfg, s, rd, slot)
  {
    SendPartial(cfg, s, rd, slot).0.prev[IRSDK_HEADER_SIZE..IRSDK_HEADER_SIZE + slot.len]
  }

  lemma SentIsCopied(cfg: Config, s: Src, rd: Reading, slot: Slot)
    requires Sends(cfg, s, rd, slot)
    ensures SentContents(cfg, s, rd, slot) == Contents(rd.copy, slot)
    ensures I32At(rd.after, slot.tickField) == slot.tick
  {
    var staged := Staged(rd, slot);
    assert staged[IRSDK_HEADER_SIZE..] == Contents(rd.copy, slot);
    assert Splice(s.prev, 0, staged)[..|staged|] == staged;
  }

  // ---------- a game that announces first ----------

  lemma {:induction false} VersionsGrow(vs: Versions, hist: seq<seq<byte>>, ver: seq<nat>, slot: Slot, a: nat, b: nat)
    requires AnnouncesFirst(vs, hist, ver, slot) && a <= b < |hist|
    ensures ver[a] <= ver[b]
    decreases b
  {
    if a < b {
      VersionsGrow(vs, hist, ver, slot, a, b - 1);
      assert StepOk(vs, hist, ver, slot, b - 1);
    }
  }

  /** A complete slot stays complete as long as the same version is announced. */
  lemma {:induction false} StaysWhole(vs: Versions, hist: seq<seq<byte>>, ver: seq<nat>, slot: Slot, a: nat, b: nat)
    requires AnnouncesFirst(vs, hist, ver, slot) && a <= b < |hist| && ver[a] == ver[b]
    requires InMap(hist[a], slot) && Whole(vs, hist[a], slot, ver[a])
    ensures InMap(hist[b], slot) && Whole(vs, hist[b], slot, ver[a])
    decreases b
  {
    assert InstantOk(vs, hist, ver, slot, b);
    if a < b {
      VersionsGrow(vs, hist, ver, slot, a, b - 1);
      assert StepOk(vs, hist, ver, slot, b - 1);
      StaysWhole(vs, hist, ver, slot, a, b - 1);
    }
  }

  /** The guard works when the slot was complete when it was selected: whatever the interleaving, a varBuf that
      is sent is the announced version, whole. */
  lemma GuardedReadIsWhole(cfg: Config, s: Src, rd: Reading, slot: Slot, vs: Versions, hist: seq<seq<byte>>,
                           ver: seq<nat>,
                           a: nat, at: seq<nat>, b: nat)
    requires AnnouncesFirst(vs, hist, ver, slot) && ReadDuring(rd, hist, slot, a, at, b) && NotReused(vs, ver, a)
    requires Sends(cfg, s, rd, slot) && Whole(vs, hist[a], slot, ver[a])
    ensures SentContents(cfg, s, rd, slot) == vs.contents(ver[a])
  {
    SentIsCopied(cfg, s, rd, slot);
    assert InstantOk(vs, hist, ver, slot, a) && InstantOk(vs, hist, ver, slot, b);
    forall k | 0 <= k < slot.len ensures Contents(rd.copy, slot)[k] == vs.contents(ver[a])[k] {
      VersionsGrow(vs, hist, ver, slot, a, at[k]);
      VersionsGrow(vs, hist, ver, slot, at[k], b);
      StaysWhole(vs, hist, ver, slot, a, at[k]);
    }
  }

  /** The condition is exact. Every read that begins at instant `a` and is sent carries the announced version if
      and only if the slot was complete at `a`; a slot caught in the middle of being written passes the guard. */
  lemma GuardIsExact(cfg: Config, s: Src, slot: Slot, vs: Versions, hist: seq<seq<byte>>, ver: seq<nat>, a: nat)
    requires AnnouncesFirst(vs, hist, ver, slot) && a < |hist| && NotReused(vs, ver, a) && InMap(hist[a], slot)
    requires ValidSrc(s) && Readable(Reading(hist[a], hist[a], hist[a])) && ActiveSlot(hist[a]) == Some(slot)
    requires IRSDK_HEADER_SIZE + slot.len <= MAX_TELEMETRY_SIZE && slot.tick != s.lastTick
    ensures (forall rd, at, b | ReadDuring(rd, hist, slot, a, at, b) && Sends(cfg, s, rd, slot) ::
               SentContents(cfg, s, rd, slot) == vs.contents(ver[a]))
            <==> Whole(vs, hist[a], slot, ver[a])
  {
    TickFieldReads(hist[a]);
    if Whole(vs, hist[a], slot, ver[a]) {
      forall rd, at, b | ReadDuring(rd, hist, slot, a, at, b) && Sends(cfg, s, rd, slot)
        ensures SentContents(cfg, s, rd, slot) == vs.contents(ver[a])
      {
        GuardedReadIsWhole(cfg, s, rd, slot, vs, hist, ver, a, at, b);
      }
    } else {
      var rd := Reading(hist[a], hist[a], hist[a]);
      assert ReadDuring(rd, hist, slot, a, seq(slot.len, _ => a), a);
      UnchangedTickSends(cfg, s, slot, hist[a], hist[a]);
      SentIsCopied(cfg, s, rd, slot);
    }
  }

  // ---------- some whole version ----------

  /** Every byte of the slot is from one version or the other. */
  predicate OfTwo(c: seq<byte>, u: seq<byte>, v: seq<byte>) {
    |c| == |u| == |v| && forall k | 0 <= k < |c| :: c[k] == u[k] || c[k] == v[k]
  }

  predicate OneByteApart(u: seq<byte>, v: seq<byte>) {
    |u| == |v| && forall i, j | 0 <= i < j < |u| :: u[i] == v[i] || u[j] == v[j]
  }

  /** From instant `a` on nothing of the slot is rewritten while its version stays announced. */
  ghost predicate Frozen(hist: seq<seq<byte>>, ver: seq<nat>, slot: Slot, a: nat)
    requires a < |hist| == |ver| && InMap(hist[a], slot)
  {
    forall t | a <= t < |hist| && ver[t] == ver[a] ::
      InMap(hist[t], slot) && Contents(hist[t], slot) == Contents(hist[a], slot)
  }

  /** While version `v` is announced every byte is the one it was or that of `v`. */
  lemma {:induction false} StaysOfTwo(vs: Versions, hist: seq<seq<byte>>, ver: seq<nat>, slot: Slot, u: seq<byte>,
                                      a: nat, b: nat)
    requires AnnouncesFirst(vs, hist, ver, slot) && a <= b < |hist| && ver[a] == ver[b]
    requires InMap(hist[a], slot) && OfTwo(Contents(hist[a], slot), u, vs.contents(ver[a]))
    ensures InMap(hist[b], slot) && OfTwo(Contents(hist[b], slot), u, vs.contents(ver[a]))
    decreases b
  {
    if a < b {
      VersionsGrow(vs, hist, ver, slot, a, b - 1);
      assert StepOk(vs, hist, ver, slot, b - 1);
      StaysOfTwo(vs, hist, ver, slot, u, a, b - 1);
    }
  }

  /** Every byte of a read that is sent was copied while the version was announced. */
  lemma SentWhileAnnounced(cfg: Config, s: Src, rd: Reading, slot: Slot, vs: Versions, hist: seq<seq<byte>>,
                           ver: seq<nat>, a: nat, at: seq<nat>, b: nat, k: nat)
    requires AnnouncesFirst(vs, hist, ver, slot) && ReadDuring(rd, hist, slot, a, at, b) && NotReused(vs, ver, a)
    requires Sends(cfg, s, rd, slot) && k < slot.len
    ensures InMap(hist[at[k]], slot) && ver[at[k]] == ver[a]
    ensures SentContents(cfg, s, rd, slot)[k] == Contents(hist[at[k]], slot)[k]
  {
    SentIsCopied(cfg, s, rd, slot);
    assert InstantOk(vs, hist, ver, slot, a) && InstantOk(vs, hist, ver, slot, b);
    VersionsGrow(vs, hist, ver, slot, a, at[k]);
    VersionsGrow(vs, hist, ver, slot, at[k], b);
  }

  lemma OneOfTwo(c: seq<byte>, u: seq<byte>, v: seq<byte>)
    requires OfTwo(c, u, v) && OneByteApart(u, v)
    ensures c == u || c == v
  {
    if c != u {
      var i :| 0 <= i < |c| && c[i] != u[i];
      assert forall k | 0 <= k < |c| && k != i :: c[k] == v[k];
    }
  }

  /** The history allows only whole reads from instant `a` on. */
  ghost predicate Untearable(vs: Versions, hist: seq<seq<byte>>, ver: seq<nat>, slot: Slot, u: seq<byte>, a: nat)
    requires a < |hist| == |ver| && InMap(hist[a], slot)
  {
    var c, v := Contents(hist[a], slot), vs.contents(ver[a]);
    c == v || (c == u && Frozen(hist, ver, slot, a)) || OneByteApart(u, v)
  }

  lemma UntearableIsWhole(cfg: Config, s: Src, rd: Reading, slot: Slot, vs: Versions, hist: seq<seq<byte>>,
                          ver: seq<nat>, u: seq<byte>, a: nat, at: seq<nat>, b: nat)
    requires AnnouncesFirst(vs, hist, ver, slot) && ReadDuring(rd, hist, slot, a, at, b) && NotReused(vs, ver, a)
    requires Sends(cfg, s, rd, slot) && OfTwo(Contents(hist[a], slot), u, vs.contents(ver[a]))
    requires Untearable(vs, hist, ver, slot, u, a)
    ensures SentContents(cfg, s, rd, slot) == u || SentContents(cfg, s, rd, slot) == vs.contents(ver[a])
  {
    var c, v, d := Contents(hist[a], slot), vs.contents(ver[a]), SentContents(cfg, s, rd, slot);
    forall k | 0 <= k < slot.len
      ensures d[k] == u[k] || d[k] == v[k]
      ensures c == v || Frozen(hist, ver, slot, a) ==> d[k] == c[k]
    {
      SentWhileAnnounced(cfg, s, rd, slot, vs, hist, ver, a, at, b, k);
      StaysOfTwo(vs, hist, ver, slot, u, a, at[k]);
      if c == v {
        StaysWhole(vs, hist, ver, slot, a, at[k]);
      }
    }
    if OneByteApart(u, v) {
      OneOfTwo(d, u, v);
    }
  }

  /** A read that takes byte `i` at instant `t` and everything else at instant `a`. */
  lemma MixedRead(cfg: Config, s: Src, slot: Slot, vs: Versions, hist: seq<seq<byte>>, ver: seq<nat>, a: nat, t: nat,
                  i: nat)
    returns (rd: Reading, at: seq<nat>)
    requires AnnouncesFirst(vs, hist, ver, slot) && a <= t < |hist| && ver[t] == ver[a] && InMap(hist[a], slot)
    requires ValidSrc(s) && Readable(Reading(hist[a], hist[a], hist[a])) && ActiveSlot(hist[a]) == Some(slot)
    requires IRSDK_HEADER_SIZE + slot.len <= MAX_TELEMETRY_SIZE && slot.tick != s.lastTick
    requires i < slot.len && InMap(hist[t], slot)
    ensures ReadDuring(rd, hist, slot, a, at, t) && Sends(cfg, s, rd, slot)
    ensures SentContents(cfg, s, rd, slot) == Contents(hist[a], slot)[i := Contents(hist[t], slot)[i]]
  {
    TickFieldReads(hist[a]);
    var m, c := hist[a], Contents(hist[a], slot);
    assert InstantOk(vs, hist, ver, slot, a) && InstantOk(vs, hist, ver, slot, t);
    var copy := m[slot.off + i := Contents(hist[t], slot)[i]];
    rd := Reading(m, copy, m);
    at := seq(slot.len, _ => a)[i := t];
    assert Contents(copy, slot) == c[i := Contents(hist[t], slot)[i]];
    MixedIsRead(rd, hist, slot, a, at, t, i);
    UnchangedTickSends(cfg, s, slot, m, copy);
    SentIsCopied(cfg, s, rd, slot);
  }

  lemma MixedIsRead(rd: Reading, hist: seq<seq<byte>>, slot: Slot, a: nat, at: seq<nat>, t: nat, i: nat)
    requires a <= t < |hist| && InMap(hist[a], slot) && InMap(hist[t], slot) && i < slot.len
    requires Readable(rd) && ActiveSlot(rd.select) == Some(slot) && InMap(rd.copy, slot) && rd.after == hist[a]
    requires I32At(hist[a], slot.tickField) == slot.tick == I32At(hist[t], slot.tickField)
    requires at == seq(slot.len, _ => a)[i := t]
    requires Contents(rd.copy, slot) == Contents(hist[a], slot)[i := Contents(hist[t], slot)[i]]
    ensures ReadDuring(rd, hist, slot, a, at, t)
  {
  }

  lemma TearableIsTorn(cfg: Config, s: Src, slot: Slot, vs: Versions, hist: seq<seq<byte>>, ver: seq<nat>,
                       u: seq<byte>, a: nat)
    returns (rd: Reading, at: seq<nat>, b: nat)
    requires AnnouncesFirst(vs, hist, ver, slot) && a < |hist| && InMap(hist[a], slot)
    requires ValidSrc(s) && Readable(Reading(hist[a], hist[a], hist[a])) && ActiveSlot(hist[a]) == Some(slot)
    requires IRSDK_HEADER_SIZE + slot.len <= MAX_TELEMETRY_SIZE && slot.tick != s.lastTick
    requires OfTwo(Contents(hist[a], slot), u, vs.contents(ver[a])) && !Untearable(vs, hist, ver, slot, u, a)
    ensures ReadDuring(rd, hist, slot, a, at, b) && Sends(cfg, s, rd, slot)
    ensures SentContents(cfg, s, rd, slot) != u && SentContents(cfg, s, rd, slot) != vs.contents(ver[a])
  {
    var c, v := Contents(hist[a], slot), vs.contents(ver[a]);
    if c != u {
      rd, at := MixedRead(cfg, s, slot, vs, hist, ver, a, a, 0);
      b := a;
    } else {
      var t :| a <= t < |hist| && ver[t] == ver[a] && !(InMap(hist[t], slot) && Contents(hist[t], slot) == c);
      StaysOfTwo(vs, hist, ver, slot, u, a, t);
      var i :| 0 <= i < slot.len && Contents(hist[t], slot)[i] != c[i];
      rd, at := MixedRead(cfg, s, slot, vs, hist, ver, a, t, i);
      b := t;
    }
  }

  /** When every sent read is some whole version. Let each byte of the slot be, at the instant the read begins, from
      version `u` or from the announced one. Every read that is sent is then one of the two, whole, if and only if the
      slot was complete, or still held all of `u` and is not touched while the version stays announced, or the two
      versions differ in at most one byte. */
  lemma WholeReadsIff(cfg: Config, s: Src, slot: Slot, vs: Versions, hist: seq<seq<byte>>, ver: seq<nat>, u: seq<byte>,
                      a: nat)
    requires AnnouncesFirst(vs, hist, ver, slot) && a < |hist| && NotReused(vs, ver, a) && InMap(hist[a], slot)
    requires ValidSrc(s) && Readable(Reading(hist[a], hist[a], hist[a])) && ActiveSlot(hist[a]) == Some(slot)
    requires IRSDK_HEADER_SIZE + slot.len <= MAX_TELEMETRY_SIZE && slot.tick != s.lastTick
    requires OfTwo(Contents(hist[a], slot), u, vs.contents(ver[a]))
    ensures (forall rd, at, b | ReadDuring(rd, hist, slot, a, at, b) && Sends(cfg, s, rd, slot) ::
               SentContents(cfg, s, rd, slot) == u || SentContents(cfg, s, rd, slot) == vs.contents(ver[a]))
            <==> Untearable(vs, hist, ver, slot, u, a)
  {
    if Untearable(vs, hist, ver, slot, u, a) {
      forall rd, at, b | ReadDuring(rd, hist, slot, a, at, b) && Sends(cfg, s, rd, slot)
        ensures SentContents(cfg, s, rd, slot) == u || SentContents(cfg, s, rd, slot) == vs.contents(ver[a])
      {
        UntearableIsWhole(cfg, s, rd, slot, vs, hist, ver, u, a, at, b);
      }
    } else {
      var rd, at, b := TearableIsTorn(cfg, s, slot, vs, hist, ver, u, a);
    }
  }

  // ---------- a game that announces last ----------

  /** Copying a slot while it turns from `m` into `m1`: each byte is one or the other. */
  predicate CopiedBetween(copy: seq<byte>, m: seq<byte>, m1: seq<byte>, slot: Slot)
    requires InMap(m, slot) && InMap(m1, slot) && InMap(copy, slot)
  {
    forall k | 0 <= k < slot.len ::
      Contents(copy, slot)[k] == Contents(m, slot)[k] || Contents(copy, slot)[k] == Contents(m1, slot)[k]
  }

  /** A read between `m` and `m1` that passes the guard and sends neither slot. */
  predicate TornUnseen(cfg: Config, s: Src, slot: Slot, m: seq<byte>, m1: seq<byte>, rd: Reading) {
    && Sends(cfg, s, rd, slot) && rd.select == m && rd.after == m
    && InMap(m, slot) && InMap(m1, slot) && InMap(rd.copy, slot) && CopiedBetween(rd.copy, m, m1, slot)
    && SentContents(cfg, s, rd, slot) != Contents(m, slot)
    && SentContents(cfg, s, rd, slot) != Contents(m1, slot)
  }

  lemma UnchangedTickSends(cfg: Config, s: Src, slot: Slot, m: seq<byte>, copy: seq<byte>)
    requires ValidSrc(s) && Readable(Reading(m, m, m)) && ActiveSlot(m) == Some(slot) && |copy| == |m|
    requires IRSDK_HEADER_SIZE + slot.len <= MAX_TELEMETRY_SIZE && slot.tick != s.lastTick
    ensures Sends(cfg, s, Reading(m, copy, m), slot)
  {
    TickFieldReads(m);
  }

  lemma OneByteCopied(slot: Slot, m: seq<byte>, m1: seq<byte>, copy: seq<byte>, i: nat, j: nat)
    requires InMap(m, slot) && InMap(m1, slot) && |m1| == |m| && i < slot.len && j < slot.len && i != j
    requires copy == m[slot.off + i := m1[slot.off + i]]
    requires Contents(m, slot)[i] != Contents(m1, slot)[i] && Contents(m, slot)[j] != Contents(m1, slot)[j]
    ensures CopiedBetween(copy, m, m1, slot)
    ensures Contents(copy, slot) != Contents(m, slot) && Contents(copy, slot) != Contents(m1, slot)
  {
    assert Contents(copy, slot)[i] == Contents(m1, slot)[i] && Contents(copy, slot)[j] == Contents(m, slot)[j];
  }

  /** If the game writes the contents before the tickCount, the guard misses tears: whenever two contents differ
      in two bytes, some read between them passes the guard and sends a varBuf that is neither. */
  lemma ContentsFirstTears(cfg: Config, s: Src, slot: Slot, m: seq<byte>, m1: seq<byte>, i: nat, j: nat)
    requires ValidSrc(s) && Readable(Reading(m, m, m)) && ActiveSlot(m) == Some(slot)
    requires IRSDK_HEADER_SIZE + slot.len <= MAX_TELEMETRY_SIZE && slot.tick != s.lastTick
    requires |m1| == |m|
    requires i < slot.len && j < slot.len && i != j
    requires Contents(m, slot)[i] != Contents(m1, slot)[i] && Contents(m, slot)[j] != Contents(m1, slot)[j]
    ensures exists rd :: TornUnseen(cfg, s, slot, m, m1, rd)
  {
    var copy := m[slot.off + i := m1[slot.off + i]];
    UnchangedTickSends(cfg, s, slot, m, copy);
    SentIsCopied(cfg, s, Reading(m, copy, m), slot);
    OneByteCopied(slot, m, m1, copy, i, j);
    assert TornUnseen(cfg, s, slot, m, m1, Reading(m, copy, m));
  }
}
