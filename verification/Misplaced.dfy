/** The receiver once a blind final fragment has been stored away from its place: it counts fragments as ever, and the
    message it hands over is right up to its final chunk. */
module Misplaced {
  import opened Options
  import opened Bytes
  import opened Wire
  import opened Fragmentation
  import opened Reassembly
  import opened Channel

  /** A final fragment that comes first is stored where it does not belong. */
  predicate Misplaces(m: Message, i: nat, got: set<nat>, maxPayload: nat)
    requires m.p > 0 && NumFrags(m) > 0
  {
    Blind(m, i, got) && !GuessOverflows(m, maxPayload)
  }

  /** The fragments that count as received after fragment `i`, in their place or not. */
  function Kept(m: Message, got: set<nat>, i: nat, maxPayload: nat): set<nat>
    requires m.p > 0 && NumFrags(m) > 0
  {
    if Blind(m, i, got) && GuessOverflows(m, maxPayload) then got else got + {i}
  }

  /** The receiver collects `m`, has the fragments `got`, and all but the final one are in their place. */
  ghost predicate Spoilt(m: Message, got: set<nat>, rx: Rx)
    requires Honest(m)
  {
    var n := NumFrags(m);
    && Sane(rx) && Acceptable(m, |rx.buf|)
    && n > 1 && m.p != MAX_PAYLOAD_PER_DATAGRAM && n - 1 in got && !Complete(m, got)
    && rx.currentSeq == Some(m.sequence)
    && rx.totalFrags == n && rx.payloadSize == |m.data| && rx.lastBufOffset == m.bufOffset
    && Counted(m, got, rx) && OthersPlaced(m, got, rx.buf)
  }

  ghost predicate OthersPlaced(m: Message, got: set<nat>, buf: seq<byte>)
    requires Honest(m)
  {
    forall i {:trigger Placed(m, i, buf)} | i in got && i < NumFrags(m) - 1 :: Placed(m, i, buf)
  }

  /** As long as `m`, and equal to it except perhaps in the final chunk. */
  predicate AllButFinal(m: Message, d: seq<byte>)
    requires Honest(m)
  {
    ChunkRange(m, NumFrags(m) - 1);
    |d| == |m.data| && d[..Offset(NumFrags(m) - 1, m.p)] == m.data[..Offset(NumFrags(m) - 1, m.p)]
  }

  lemma GuessStored(m: Message, rx: Rx)
    requires Honest(m) && Holds(m, {}, rx) && Acceptable(m, |rx.buf|)
    requires Misplaces(m, NumFrags(m) - 1, {}, |rx.buf|)
    ensures var n := NumFrags(m);
            var (rx1, stored) := Store(rx, n - 1, Chunk(m, n - 1));
            && stored && Counted(m, {n - 1}, rx1) && |rx1.buf| == |rx.buf|
            && rx1 == rx.(buf := rx1.buf, received := rx1.received, gotFrags := 1)
  {
  }

  lemma FinalAlone(m: Message)
    requires Honest(m) && NumFrags(m) > 1
    ensures !Complete(m, {NumFrags(m) - 1})
  {
    var alone: set<nat> := {NumFrags(m) - 1};
    assert 0 !in alone;
  }

  /** A blind final fragment that fits. */
  lemma MisplaceStep(m: Message, rx: Rx, i: nat)
    requires Honest(m) && i < NumFrags(m) && Ready(m, {}, rx) && Misplaces(m, i, {}, |rx.buf|)
    ensures var (rx1, r) := Ingest(rx, PacketOf(m, i));
            && Spoilt(m, {i}, rx1) && r.assembled == None && !r.heartbeat && |rx1.buf| == |rx.buf|
            && rx1.lastSourceUs == rx.lastSourceUs
  {
    var h := PacketOf(m, i).header;
    OpenedHolds(m, {}, rx, h, Chunk(m, i), i);
    GuessStored(m, Opened(rx, h));
    FinalAlone(m);
  }

  /** Every later fragment goes to its place, or is there already. */
  lemma SpoiltStore(m: Message, got: set<nat>, rx: Rx, i: nat)
    requires Honest(m) && Spoilt(m, got, rx) && i < NumFrags(m)
    ensures var (rx1, stored) := Store(rx, i, Chunk(m, i));
            && Counted(m, got + {i}, rx1) && OthersPlaced(m, got + {i}, rx1.buf) && |rx1.buf| == |rx.buf|
            && (stored <==> i !in got)
            && rx1 == rx.(buf := rx1.buf, received := rx1.received, detected := rx1.detected, gotFrags := rx1.gotFrags)
  {
    if i in got {
      assert got + {i} == got;
    } else {
      var rx1 := Store(rx, i, Chunk(m, i)).0;
      StoreNew(m, rx, i);
      CountedAfter(m, got, rx, rx1, i);
      forall j | j in got + {i} && j < NumFrags(m) - 1 ensures Placed(m, j, rx1.buf) {
        PlacedAfter(m, i, j, rx.buf);
      }
    }
  }

  lemma SpoiltDeliver(m: Message, got: set<nat>, rx: Rx, stored: bool, firstFrag: bool)
    requires Honest(m) && Counted(m, got, rx) && OthersPlaced(m, got, rx.buf)
    requires rx.totalFrags == NumFrags(m) && rx.payloadSize == |m.data| && rx.lastBufOffset == m.bufOffset
    requires !stored ==> !Complete(m, got)
    ensures var (rx1, r) := Deliver(rx, stored, firstFrag);
            if Complete(m, got) then
              && rx1.currentSeq == None && rx1.gotFrags == rx1.totalFrags && rx1.lastSourceUs == rx.lastSourceUs
              && r.assembled.Some? && AllButFinal(m, r.assembled.value) && r.bufOffset == m.bufOffset
            else rx1 == rx && r.assembled == None
  {
    FullSet(got, NumFrags(m));
    if Complete(m, got) {
      forall i | 0 <= i < NumFrags(m) - 1 ensures Placed(m, i, rx.buf) {
        assert i in got;
      }
      PlacedPrefix(m, NumFrags(m) - 1, rx.buf);
    }
  }

  /** A fragment of a message whose final fragment was misplaced. */
  lemma SpoiltStep(m: Message, got: set<nat>, rx: Rx, i: nat)
    requires Honest(m) && Spoilt(m, got, rx) && i < NumFrags(m) && (0 in got ==> rx.lastSourceUs == m.sourceUs)
    ensures var (rx1, r) := Ingest(rx, PacketOf(m, i));
            var got1 := got + {i};
            && !r.heartbeat && |rx1.buf| == |rx.buf|
            && (0 in got1 ==> rx1.lastSourceUs == m.sourceUs)
            && (Complete(m, got1) ==>
                  && rx1.currentSeq == None && rx1.gotFrags == rx1.totalFrags
                  && r.assembled.Some? && AllButFinal(m, r.assembled.value) && r.bufOffset == m.bufOffset)
            && (!Complete(m, got1) ==> Spoilt(m, got1, rx1) && r.assembled == None)
  {
    var open := if i == 0 then rx.(lastSourceUs := m.sourceUs) else rx;
    assert Opened(rx, PacketOf(m, i).header) == open;
    SpoiltStore(m, got, open, i);
    var (rx1, stored) := Store(open, i, Chunk(m, i));
    if !stored {
      assert got + {i} == got;
    }
    SpoiltDeliver(m, got + {i}, rx1, stored, i == 0);
  }
}
