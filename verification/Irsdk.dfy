/** The irsdk header at the start of a telemetry map, and the three places that read its slot table: the
    source's slot choice, the `.ibt` writer's slot choice, and the end of the static prefix. */
module Irsdk {
  import opened Options
  import opened Bytes

  const MAX_TELEMETRY_SIZE: nat := 2 * 1024 * 1024
  const IRSDK_HEADER_SIZE: nat := 112
  const MAX_SLOTS: nat := 4

  // ---------- header fields ----------

  function Status(d: seq<byte>): i32
    requires |d| >= IRSDK_HEADER_SIZE
  {
    I32At(d, 4)
  }

  function NumBuf(d: seq<byte>): i32
    requires |d| >= IRSDK_HEADER_SIZE
  {
    I32At(d, 32)
  }

  function BufLen(d: seq<byte>): i32
    requires |d| >= IRSDK_HEADER_SIZE
  {
    I32At(d, 36)
  }

  /** Header offset of slot `i`'s tickCount. */
  function TickField(i: nat): nat {
    48 + 16 * i
  }

  function SlotTick(d: seq<byte>, i: nat): i32
    requires |d| >= IRSDK_HEADER_SIZE && i < MAX_SLOTS
  {
    I32At(d, TickField(i))
  }

  function SlotOffset(d: seq<byte>, i: nat): i32
    requires |d| >= IRSDK_HEADER_SIZE && i < MAX_SLOTS
  {
    I32At(d, TickField(i) + 4)
  }

  /** Slices are never longer than that. */
  const MAX_SLICE: nat := 0x7FFF_FFFF_FFFF_FFFF

  /** A slot offset as the code uses it: converted with `as usize`. */
  function SlotStart(d: seq<byte>, i: nat): nat
    requires |d| >= IRSDK_HEADER_SIZE && i < MAX_SLOTS
  {
    AsUsize(SlotOffset(d, i))
  }

  /** No slot offset wraps in that conversion. */
  predicate OffsetsNonNegative(d: seq<byte>) {
    |d| >= IRSDK_HEADER_SIZE ==> forall i | 0 <= i < MAX_SLOTS :: SlotOffset(d, i) >= 0
  }

  /** Two maps with the same 112 header bytes have the same slot table. */
  lemma SameHeader(a: seq<byte>, b: seq<byte>)
    requires |a| >= IRSDK_HEADER_SIZE && |b| >= IRSDK_HEADER_SIZE
    requires a[..IRSDK_HEADER_SIZE] == b[..IRSDK_HEADER_SIZE]
    ensures Status(a) == Status(b) && NumBuf(a) == NumBuf(b) && BufLen(a) == BufLen(b)
    ensures forall i | 0 <= i < MAX_SLOTS :: SlotTick(a, i) == SlotTick(b, i) && SlotOffset(a, i) == SlotOffset(b, i)
  {
    SliceOfSlice(a, b, 4, 8, IRSDK_HEADER_SIZE);
    SliceOfSlice(a, b, 32, 36, IRSDK_HEADER_SIZE);
    SliceOfSlice(a, b, 36, 40, IRSDK_HEADER_SIZE);
    forall i | 0 <= i < MAX_SLOTS ensures SlotTick(a, i) == SlotTick(b, i) && SlotOffset(a, i) == SlotOffset(b, i) {
      SliceOfSlice(a, b, TickField(i), TickField(i) + 4, IRSDK_HEADER_SIZE);
      SliceOfSlice(a, b, TickField(i) + 4, TickField(i) + 8, IRSDK_HEADER_SIZE);
    }
  }

  // ---------- the newest slot ----------

  /** Slot `w` is the first one with the highest tickCount among the first `n`. */
  predicate IsNewest(d: seq<byte>, n: nat, w: nat)
    requires |d| >= IRSDK_HEADER_SIZE && n <= MAX_SLOTS
  {
    && w < n
    && (forall i | 0 <= i < n :: SlotTick(d, i) <= SlotTick(d, w))
    && (forall i | 0 <= i < w :: SlotTick(d, i) < SlotTick(d, w))
  }

  function Newest(d: seq<byte>, n: nat): (w: nat)
    requires |d| >= IRSDK_HEADER_SIZE && 0 < n <= MAX_SLOTS
    ensures w < n
  {
    if n == 1 then 0
    else
      var w := Newest(d, n - 1);
      if SlotTick(d, n - 1) > SlotTick(d, w) then n - 1 else w
  }

  lemma {:induction false} NewestIsNewest(d: seq<byte>, n: nat)
    requires |d| >= IRSDK_HEADER_SIZE && 0 < n <= MAX_SLOTS
    ensures IsNewest(d, n, Newest(d, n))
  {
    if n > 1 {
      NewestIsNewest(d, n - 1);
    }
  }

  lemma NewestStep(d: seq<byte>, i: nat)
    requires |d| >= IRSDK_HEADER_SIZE && i < MAX_SLOTS
    ensures Newest(d, i + 1) == if i == 0 || SlotTick(d, i) > SlotTick(d, Newest(d, i)) then i else Newest(d, i)
  {
  }

  lemma NewestUnique(d: seq<byte>, n: nat, v: nat, w: nat)
    requires |d| >= IRSDK_HEADER_SIZE && n <= MAX_SLOTS && IsNewest(d, n, v) && IsNewest(d, n, w)
    ensures v == w
  {
    assert SlotTick(d, v) == SlotTick(d, w);
  }

  /** Number of slots looked at: `numBuf as usize`, at most four. */
  function SlotCount(d: seq<byte>): (n: nat)
    requires |d| >= IRSDK_HEADER_SIZE
    ensures n <= MAX_SLOTS
  {
    Min(AsUsize(NumBuf(d)), MAX_SLOTS)
  }

  datatype Slot = Slot(off: nat, len: nat, tick: i32, tickField: nat)

  /** The slot table starts at byte 48 with 16 bytes a slot: tickCount, then offset. At most four slots are looked at,
      and all four when `numBuf` is negative, which is huge as a `usize`. */
  lemma SlotFields(d: seq<byte>, i: nat)
    requires |d| >= 112 && i < 4
    ensures SlotTick(d, i) == I32At(d, 48 + 16 * i) && SlotOffset(d, i) == I32At(d, 52 + 16 * i)
    ensures NumBuf(d) == I32At(d, 32) && BufLen(d) == I32At(d, 36) && Status(d) == I32At(d, 4)
    ensures SlotCount(d) == if 0 <= I32At(d, 32) <= 4 then I32At(d, 32) else 4
  {
  }

  /** What the search has after `n` slots: tickCount, offset and where the tickCount was read. */
  function BestSlot(d: seq<byte>, n: nat): (i32, nat, nat)
    requires |d| >= IRSDK_HEADER_SIZE && n <= MAX_SLOTS
  {
    if n == 0 || SlotTick(d, Newest(d, n)) == I32_MIN then (I32_MIN, 0, TickField(0))
    else (SlotTick(d, Newest(d, n)), SlotStart(d, Newest(d, n)), TickField(Newest(d, n)))
  }

  lemma BestStep(d: seq<byte>, i: nat, j: nat)
    requires |d| >= IRSDK_HEADER_SIZE && i < MAX_SLOTS && j == i + 1
    ensures BestSlot(d, j)
            == if SlotTick(d, i) > BestSlot(d, i).0 then (SlotTick(d, i), SlotStart(d, i), TickField(i))
               else BestSlot(d, i)
  {
    NewestStep(d, i);
  }

  /** `active_var_buf` (windows.rs), its 64-bit addition included. A slot whose tickCount is the least possible
      value is never selected: the search then ends with its initial values. */
  function ActiveSlot(d: seq<byte>): (r: Option<Slot>)
    ensures r.Some? && OffsetsNonNegative(d) && |d| <= MAX_SLICE ==> r.value.off + r.value.len <= |d|
    ensures r.Some? ==> r.value.len > 0 && r.value.tickField + 4 <= IRSDK_HEADER_SIZE <= |d|
  {
    if |d| < IRSDK_HEADER_SIZE then None
    else
      var len := AsUsize(BufLen(d));
      var n := SlotCount(d);
      if len == 0 || len > |d| || n == 0 then None
      else
        var (tick, off, tickField) := BestSlot(d, n);
        if WrappingSum(off, len) > |d| then None else Some(Slot(off, len, tick, tickField))
  }

  /** When a slot is found, and which: let `w` be the first slot with the highest tickCount. Then a slot is found
      exactly when the buffer length is positive and fits the map and the slot lies inside it; it has that slot's offset
      and tickCount, and its tickCount was read at byte 48 + 16 w. If all tickCounts are the least `i32`, the search
      ends with its initial values. */
  lemma ActiveSlotIs(d: seq<byte>, w: nat)
    requires 112 <= |d| <= MAX_SLICE && I32At(d, 32) != 0 && IsNewest(d, SlotCount(d), w)
    ensures var len, tick, off := I32At(d, 36), SlotTick(d, w), SlotOffset(d, w);
            if tick > -0x8000_0000 then
              && (ActiveSlot(d).Some? <==> 0 < len <= |d| && 0 <= off + len <= |d|)
              && (ActiveSlot(d).Some? ==>
                    ActiveSlot(d).value
                    == Slot(if off < 0 then 0x1_0000_0000_0000_0000 + off else off, len, tick, 48 + 16 * w))
            else
              && (ActiveSlot(d).Some? <==> 0 < len <= |d|)
              && (ActiveSlot(d).Some? ==> ActiveSlot(d).value == Slot(0, len, tick, 48))
  {
    var n, len, tick, off := SlotCount(d), I32At(d, 36), SlotTick(d, w), SlotOffset(d, w);
    NewestIsNewest(d, n);
    NewestUnique(d, n, Newest(d, n), w);
    if len > 0 {
      WrappedEnd(off, len, |d|);
      WrappedEnd(0, len, |d|);
    }
  }

  /** The 64-bit sum of a converted offset and a length is in bounds exactly when the true sum is. */
  lemma WrappedEnd(off: i32, len: i32, n: nat)
    requires n <= MAX_SLICE && 0 < len
    ensures WrappingSum(AsUsize(off), AsUsize(len)) <= n <==> 0 <= off + len <= n
  {
    var a := AsUsize(off) + AsUsize(len);
    if off < 0 && off + len >= 0 {
      assert a == 0x1_0000_0000_0000_0000 + (off + len);
    }
  }

  lemma NoActiveSlot(d: seq<byte>)
    requires |d| < 112 || I32At(d, 32) == 0
    ensures ActiveSlot(d).None?
  {
  }

  /** The guard reads the selected slot's own tickCount: on an unchanged map it finds the tick that was selected. */
  lemma TickFieldReads(d: seq<byte>)
    requires ActiveSlot(d).Some? && |d| <= MAX_SLICE
    ensures |d| >= 112 && ActiveSlot(d).value.tickField in [48, 64, 80, 96]
    ensures I32At(d, ActiveSlot(d).value.tickField) == ActiveSlot(d).value.tick
  {
    if I32At(d, 32) == 0 {
      NoActiveSlot(d);
    } else {
      var n := SlotCount(d);
      var w := Newest(d, n);
      NewestIsNewest(d, n);
      ActiveSlotIs(d, w);
      SlotFields(d, w);
      SlotFields(d, 0);
      assert SlotTick(d, 0) <= SlotTick(d, w);
    }
  }

  /** `a + b` on `usize`, without overflow checks. */
  function WrappingSum(a: nat, b: nat): nat {
    (a + b) % 0x1_0000_0000_0000_0000
  }

  /** The search loop: tickCount, offset and position of the first slot with the highest tickCount. */
  method FindBest(d: seq<byte>, numBuf: nat) returns (bestTick: i32, bestOff: nat, bestTickOff: nat)
    requires |d| >= IRSDK_HEADER_SIZE && numBuf <= MAX_SLOTS
    ensures (bestTick, bestOff, bestTickOff) == BestSlot(d, numBuf)
  {
    bestTick, bestOff, bestTickOff := I32_MIN, 0, 48;
    for i := 0 to numBuf
      invariant (bestTick, bestOff, bestTickOff) == BestSlot(d, i)
    {
      var b := 48 + i * 16;
      var tick := I32At(d, b);
      var off := AsUsize(I32At(d, b + 4));
      assert tick == SlotTick(d, i) && off == SlotStart(d, i);
      BestStep(d, i, i + 1);
      if tick > bestTick {
        bestTick := tick;
        bestOff := off;
        bestTickOff := b;
      }
    }
  }

  method ActiveVarBuf(d: seq<byte>) returns (r: Option<Slot>)
    ensures r == ActiveSlot(d)
  {
    if |d| < IRSDK_HEADER_SIZE {
      return None;
    }
    var bufLen := AsUsize(I32At(d, 36));
    if bufLen == 0 || bufLen > |d| {
      return None;
    }
    var numBuf := Min(AsUsize(I32At(d, 32)), 4);
    if numBuf == 0 {
      return None;
    }
    var bestTick, bestOff, bestTickOff := FindBest(d, numBuf);
    if WrappingSum(bestOff, bufLen) > |d| {
      return None;
    }
    r := Some(Slot(bestOff, bufLen, bestTick, bestTickOff));
  }

  /** Number of slots the `.ibt` writer looks at: `numBuf` clamped to 1..4. */
  function ClampedSlots(d: seq<byte>): (n: nat)
    requires |d| >= IRSDK_HEADER_SIZE
    ensures 1 <= n <= MAX_SLOTS
  {
    if NumBuf(d) < 1 then 1 else Min(NumBuf(d), MAX_SLOTS)
  }

  /** `active_varbuf` (ibt_writer.rs): tickCount and offset of the newest slot. */
  function NewestRow(d: seq<byte>): Option<(i32, nat)>
  {
    if |d| < IRSDK_HEADER_SIZE then None
    else
      var w := Newest(d, ClampedSlots(d));
      Some((SlotTick(d, w), SlotStart(d, w)))
  }

  method FindNewestRow(d: seq<byte>) returns (r: Option<(i32, nat)>)
    ensures r == NewestRow(d)
  {
    if |d| < IRSDK_HEADER_SIZE {
      return None;
    }
    var n := I32At(d, 32);
    var numBuf := if n < 1 then 1 else if n > 4 then 4 else n;
    var best: Option<(i32, nat)> := None;
    ghost var w := 0;
    for i := 0 to numBuf
      invariant i == 0 ==> best == None
      invariant i > 0 ==> w == Newest(d, i) && best == Some((SlotTick(d, w), SlotStart(d, w)))
    {
      var base := 48 + i * 16;
      var tc := I32At(d, base);
      var bo := AsUsize(I32At(d, base + 4));
      assert tc == SlotTick(d, i) && bo == SlotStart(d, i);
      NewestStep(d, i);
      if best.None? || tc > best.value.0 {
        best := Some((tc, bo));
        w := i;
      }
    }
    r := best;
  }

  /** The writer's row: the first slot with the highest tickCount, of `numBuf` clamped to 1..4. */
  lemma NewestRowIs(d: seq<byte>, w: nat)
    requires |d| >= 112
    requires IsNewest(d, if I32At(d, 32) < 1 then 1 else if I32At(d, 32) > 4 then 4 else I32At(d, 32), w)
    ensures NewestRow(d) == Some((SlotTick(d, w), AsUsize(SlotOffset(d, w))))
  {
    NewestIsNewest(d, ClampedSlots(d));
    NewestUnique(d, ClampedSlots(d), Newest(d, ClampedSlots(d)), w);
  }

  /** The two searches agree on every map the source sends a slot of, unless all its tickCounts are the
      least possible value and slot 0 does not start at 0. */
  lemma SearchesAgreeIff(d: seq<byte>)
    requires ActiveSlot(d).Some? && NumBuf(d) >= 1
    ensures var slot := ActiveSlot(d).value;
            NewestRow(d) == Some((slot.tick, slot.off)) <==> slot.tick > I32_MIN || SlotOffset(d, 0) == 0
  {
    var n := SlotCount(d);
    assert n == ClampedSlots(d);
    NewestIsNewest(d, n);
    assert SlotTick(d, Newest(d, n)) >= SlotTick(d, 0);
  }

  // ---------- the end of the static prefix ----------

  /** A slot offset that points behind the header and into the map. */
  predicate ValidOffset(d: seq<byte>, i: nat)
    requires |d| >= IRSDK_HEADER_SIZE && i < MAX_SLOTS
  {
    IRSDK_HEADER_SIZE < SlotOffset(d, i) < |d|
  }

  /** The least valid offset of the first `n` slots, or the length of the map. */
  function LeastOffset(d: seq<byte>, n: nat): (e: nat)
    requires |d| >= IRSDK_HEADER_SIZE && n <= MAX_SLOTS
    ensures IRSDK_HEADER_SIZE <= e <= |d|
    ensures forall i | 0 <= i < n && ValidOffset(d, i) :: e <= SlotOffset(d, i)
    ensures e == |d| || exists i | 0 <= i < n :: ValidOffset(d, i) && SlotOffset(d, i) == e
  {
    if n == 0 then |d|
    else
      var e := LeastOffset(d, n - 1);
      if ValidOffset(d, n - 1) then Min(e, SlotOffset(d, n - 1)) else e
  }

  /** `session_info_end` (source.rs). */
  function PrefixEnd(d: seq<byte>): (e: nat)
    ensures e <= |d|
    ensures |d| >= IRSDK_HEADER_SIZE ==> e >= IRSDK_HEADER_SIZE
  {
    if |d| < IRSDK_HEADER_SIZE then |d| else LeastOffset(d, SlotCount(d))
  }

  /** One more slot, by its offset as an index. */
  lemma LeastStep(d: seq<byte>, i: nat, j: nat)
    requires IRSDK_HEADER_SIZE <= |d| <= MAX_SLICE && i < MAX_SLOTS && j == i + 1
    ensures LeastOffset(d, j)
            == if IRSDK_HEADER_SIZE < SlotStart(d, i) < |d| then Min(LeastOffset(d, i), SlotStart(d, i))
               else LeastOffset(d, i)
  {
  }

  method SessionInfoEnd(d: seq<byte>) returns (minOff: nat)
    requires |d| <= MAX_SLICE
    ensures minOff == PrefixEnd(d)
  {
    if |d| < IRSDK_HEADER_SIZE {
      return |d|;
    }
    var numBuf := Min(AsUsize(I32At(d, 32)), 4);
    if numBuf == 0 {
      return |d|;
    }
    minOff := |d|;
    for i := 0 to numBuf
      invariant minOff == LeastOffset(d, i)
    {
      var b := 48 + i * 16;
      var off := AsUsize(I32At(d, b + 4));
      assert off == SlotStart(d, i);
      LeastStep(d, i, i + 1);
      if off > IRSDK_HEADER_SIZE && off < |d| {
        minOff := Min(minOff, off);
      }
    }
  }

  /** The prefix stops before every active slot with a valid offset, and it is the longest prefix that does. */
  lemma PrefixStopsBeforeSlots(d: seq<byte>, e: nat)
    requires |d| >= IRSDK_HEADER_SIZE && e <= |d|
    ensures (forall i | 0 <= i < SlotCount(d) && ValidOffset(d, i) :: e <= SlotOffset(d, i)) <==> e <= PrefixEnd(d)
  {
    var m := PrefixEnd(d);
    if m < |d| {
      var i :| 0 <= i < SlotCount(d) && ValidOffset(d, i) && SlotOffset(d, i) == m;
    }
  }

  lemma ShortPrefix(d: seq<byte>)
    requires |d| < 112
    ensures PrefixEnd(d) == |d|
  {
  }

  /** Where the prefix ends: at the least slot offset behind byte 112 and inside the map, or at its end. */
  lemma PrefixEndIs(d: seq<byte>, e: nat)
    requires |d| >= 112 && PrefixEnd(d) == e
    ensures forall i | 0 <= i < SlotCount(d) && 112 < SlotOffset(d, i) < |d| :: e <= SlotOffset(d, i)
    ensures e == |d| || exists i | 0 <= i < SlotCount(d) :: 112 < SlotOffset(d, i) < |d| && SlotOffset(d, i) == e
  {
    forall i | 0 <= i < SlotCount(d) && 112 < SlotOffset(d, i) < |d| ensures e <= SlotOffset(d, i) {
      assert ValidOffset(d, i);
    }
    if e != |d| {
      var i :| 0 <= i < SlotCount(d) && ValidOffset(d, i) && SlotOffset(d, i) == e;
    }
  }
}
