/** Messages the receiver never completes: one of which a fragment does not come, wherever it puts the others, and one
    that it refuses. */
module Missing {
  import opened Options
  import opened Fragmentation
  import opened Reassembly
  import opened Channel

  lemma {:induction false} NotAllTrue(s: seq<bool>, i: nat)
    requires i < |s| && !s[i]
    ensures CountTrue(s) < |s|
  {
    if i > 0 {
      NotAllTrue(s[1..], i - 1);
    }
  }

  /** The receiver is on this message and fragment `miss` is not there, wherever it put the others. */
  ghost predicate Short(m: Message, miss: nat, rx: Rx)
    requires m.p > 0
  {
    && Sane(rx) && Counts(rx) && rx.currentSeq == Some(m.sequence)
    && miss < NumFrags(m) == rx.totalFrags && !rx.received[miss]
  }

  ghost predicate ShortOrOff(m: Message, miss: nat, rx: Rx)
    requires m.p > 0
  {
    Short(m, miss, rx) || (Sane(rx) && Counts(rx) && rx.currentSeq != Some(m.sequence))
  }

  lemma OpenedIsShort(m: Message, miss: nat, rx: Rx, i: nat)
    requires Honest(m) && Acceptable(m, |rx.buf|) && ShortOrOff(m, miss, rx)
    requires miss < NumFrags(m) && i < NumFrags(m)
    ensures var o := Opened(rx, PacketOf(m, i).header);
            && Receiving(o) && o.currentSeq == Some(m.sequence) && |o.buf| == |rx.buf|
            && NumFrags(m) == o.totalFrags && !o.received[miss]
  {
    OpenedReceives(rx, PacketOf(m, i).header);
  }

  /** Any other fragment of the message leaves it incomplete. */
  lemma ShortStep(m: Message, miss: nat, rx: Rx, i: nat)
    requires Honest(m) && Acceptable(m, |rx.buf|) && ShortOrOff(m, miss, rx)
    requires miss < NumFrags(m) && i < NumFrags(m) && i != miss
    ensures var (rx1, r) := Ingest(rx, PacketOf(m, i));
            Short(m, miss, rx1) && r.assembled == None && |rx1.buf| == |rx.buf|
  {
    var packet := PacketOf(m, i);
    OpenedIsShort(m, miss, rx, i);
    var o := Opened(rx, packet.header);
    StoreCounts(o, i, packet.payload);
    IngestKeepsCounts(rx, packet);
    var (o1, stored) := Store(o, i, packet.payload);
    NotAllTrue(o1.received[..o1.totalFrags], miss);
  }

  /** The receiver ignores the message: it has refused its header. */
  predicate Refusing(m: Message, rx: Rx) {
    Sane(rx) && rx.currentSeq == Some(m.sequence) && rx.totalFrags == 0
  }

  lemma RefusedStays(m: Message, rx: Rx, i: nat)
    requires Honest(m) && i < NumFrags(m)
    requires Refusing(m, rx) || (Sane(rx) && !Acceptable(m, |rx.buf|) && rx.currentSeq != Some(m.sequence))
    ensures var (rx1, r) := Ingest(rx, PacketOf(m, i)); Refusing(m, rx1) && r.assembled == None
  {
  }

  /** An assembly of `m` that has begun behind its fragment 0, or has been refused. */
  ghost predicate LeftOpen(m: Message, rx: Rx, maxPayload: nat)
    requires m.p > 0 && NumFrags(m) > 0
  {
    if Acceptable(m, maxPayload) then Short(m, 0, rx) else Refusing(m, rx)
  }

  lemma RestStaysOpen(m: Message, rx: Rx, i: nat)
    requires Honest(m) && 0 < i < NumFrags(m) && Sane(rx) && Counts(rx)
    requires LeftOpen(m, rx, |rx.buf|) || rx.currentSeq == None
    ensures var (rx1, r) := Ingest(rx, PacketOf(m, i)); LeftOpen(m, rx1, |rx.buf|) && r.assembled == None
  {
    if Acceptable(m, |rx.buf|) {
      ShortStep(m, 0, rx, i);
    } else {
      RefusedStays(m, rx, i);
    }
  }
}
