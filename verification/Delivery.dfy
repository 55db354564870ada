/** Exactly when a message is delivered, and the two ways in which a payload comes out wrong. */
module Delivery {
  import opened Options
  import opened Bytes
  import opened Wire
  import opened Fragmentation
  import opened Reassembly
  import opened Channel

  /** An arrival order of the fragments of one message, repeats allowed. */
  predicate Order(m: Message, order: seq<nat>) {
    m.p > 0 && forall k | 0 <= k < |order| :: order[k] < NumFrags(m)
  }

  /** The datagrams of an order; `DatagramParses` says they are what the bytes parse to. */
  function WireOf(m: Message, order: seq<nat>): (ds: seq<Packet>)
    requires Honest(m) && Order(m, order)
    ensures |ds| == |order|
  {
    seq(|order|, k requires 0 <= k < |order| => PacketOf(m, order[k]))
  }

  predicate Covers(order: seq<nat>, n: nat) {
    forall i | 0 <= i < n :: i in order
  }

  /** The fragments held after an order, blind ones not counted. */
  function Got(m: Message, order: seq<nat>, k: nat): set<nat>
    requires m.p > 0 && k <= |order|
  {
    if k == 0 then {} else GotAfter(m, Got(m, order, k - 1), order[k - 1])
  }

  /** No fragment of the order is placed by a wrong guess. */
  ghost predicate Safe(m: Message, order: seq<nat>, maxPayload: nat)
    requires m.p > 0 && NumFrags(m) > 0
  {
    forall k | 0 <= k < |order| :: SafeAt(m, order, maxPayload, k)
  }

  predicate SafeAt(m: Message, order: seq<nat>, maxPayload: nat, k: nat)
    requires m.p > 0 && NumFrags(m) > 0 && k < |order|
  {
    Blind(m, order[k], Got(m, order, k)) ==> GuessOverflows(m, maxPayload)
  }

  predicate CompleteAt(m: Message, order: seq<nat>, k: nat)
    requires m.p > 0 && k <= |order|
  {
    Complete(m, Got(m, order, k))
  }

  lemma {:induction false} GotWithin(m: Message, order: seq<nat>, k: nat)
    requires m.p > 0 && k <= |order|
    ensures forall i | i in Got(m, order, k) :: i in order[..k]
  {
    if k != 0 {
      GotWithin(m, order, k - 1);
      assert order[..k] == order[..k - 1] + [order[k - 1]];
    }
  }

  lemma GotStep(m: Message, order: seq<nat>, j: nat, k: nat)
    requires m.p > 0 && j < |order| && k == j + 1
    ensures Got(m, order, k) == GotAfter(m, Got(m, order, j), order[j])
  {
  }

  /** `rs` are the states of the receiver while the order arrives, starting from any state that is not
      already on this sequence number. */
  ghost predicate Feeding(m: Message, order: seq<nat>, rs: seq<Rx>, maxPayload: nat)
    requires Honest(m) && Order(m, order)
  {
    && Run(rs, WireOf(m, order))
    && |rs[0].buf| == maxPayload && Acceptable(m, maxPayload) && rs[0].currentSeq != Some(m.sequence)
  }

  ghost predicate Fed(m: Message, got: set<nat>, rx: Rx, maxPayload: nat)
    requires Honest(m)
  {
    Ready(m, got, rx) && |rx.buf| == maxPayload && (0 in got ==> rx.lastSourceUs == m.sourceUs)
  }

  /** The outcome of a datagram that leaves the fragments `got`. */
  ghost predicate Answers(m: Message, got: set<nat>, rx: Rx, r: Ingested)
    requires m.p > 0
  {
    && (Complete(m, got) ==> r.assembled == Some(m.data) && r.bufOffset == m.bufOffset && rx.lastSourceUs == m.sourceUs)
    && (!Complete(m, got) ==> r.assembled == None)
  }

  lemma FeedStep(m: Message, got: set<nat>, rx: Rx, i: nat, maxPayload: nat)
    requires Honest(m) && i < NumFrags(m) && Fed(m, got, rx, maxPayload)
    requires Blind(m, i, got) ==> GuessOverflows(m, maxPayload)
    ensures var (rx1, r) := Ingest(rx, PacketOf(m, i));
            && Answers(m, GotAfter(m, got, i), rx1, r)
            && (!Complete(m, GotAfter(m, got, i)) ==> Fed(m, GotAfter(m, got, i), rx1, maxPayload))
  {
    CollectStep(m, got, rx, i);
  }

  lemma FeedNext(m: Message, order: seq<nat>, rs: seq<Rx>, maxPayload: nat, j: nat, k: nat)
    requires Honest(m) && Order(m, order) && Feeding(m, order, rs, maxPayload) && Safe(m, order, maxPayload)
    requires j < |order| && k == j + 1 && Fed(m, Got(m, order, j), rs[j], maxPayload)
    ensures Takes(rs, WireOf(m, order), j)
    ensures Answers(m, Got(m, order, k), rs[k], Result(rs, WireOf(m, order), j))
    ensures !CompleteAt(m, order, k) ==> Fed(m, Got(m, order, k), rs[k], maxPayload)
  {
    assert Takes(rs, WireOf(m, order), j) && SafeAt(m, order, maxPayload, j);
    FeedStep(m, Got(m, order, j), rs[j], order[j], maxPayload);
    GotStep(m, order, j, k);
  }

  lemma {:induction false} Feed(m: Message, order: seq<nat>, rs: seq<Rx>, maxPayload: nat, k: nat)
    requires Honest(m) && Order(m, order) && Feeding(m, order, rs, maxPayload)
    requires Safe(m, order, maxPayload)
    requires k <= |order| && forall j | 0 <= j <= k :: !CompleteAt(m, order, j)
    ensures Fed(m, Got(m, order, k), rs[k], maxPayload)
  {
    if k != 0 {
      Feed(m, order, rs, maxPayload, k - 1);
      FeedNext(m, order, rs, maxPayload, k - 1, k);
      assert !CompleteAt(m, order, k);
    }
  }

  /** The outcome of datagram `k`, when no earlier one completed the message. */
  lemma Outcome(m: Message, order: seq<nat>, rs: seq<Rx>, maxPayload: nat, j: nat, k: nat)
    requires Honest(m) && Order(m, order) && Feeding(m, order, rs, maxPayload)
    requires Safe(m, order, maxPayload)
    requires j < |order| && k == j + 1 && forall i | 0 <= i <= j :: !CompleteAt(m, order, i)
    ensures Takes(rs, WireOf(m, order), j)
    ensures Answers(m, Got(m, order, k), rs[k], Result(rs, WireOf(m, order), j))
  {
    Feed(m, order, rs, maxPayload, j);
    FeedNext(m, order, rs, maxPayload, j, k);
  }

  /** Unless the first fragment is blind, the fragments held are those that arrived. */
  lemma {:induction false} GotAll(m: Message, order: seq<nat>, k: nat)
    requires m.p > 0 && 0 < k <= |order| && !Blind(m, order[0], {})
    ensures forall i :: i in Got(m, order, k) <==> i in order[..k]
  {
    assert order[..k] == order[..k - 1] + [order[k - 1]];
    if k > 1 {
      GotAll(m, order, k - 1);
      assert order[0] in order[..k - 1];
      assert Got(m, order, k - 1) != {};
    }
  }

  lemma SafeWhenFirstIsKnown(m: Message, order: seq<nat>, maxPayload: nat)
    requires m.p > 0 && NumFrags(m) > 0 && order != [] && !Blind(m, order[0], {})
    ensures Safe(m, order, maxPayload)
  {
    forall k | 0 <= k < |order| ensures SafeAt(m, order, maxPayload, k) {
      if k > 0 {
        GotAll(m, order, k);
        assert order[0] in order[..k];
      }
    }
  }

  lemma CoversIff(m: Message, order: seq<nat>, k: nat)
    requires Order(m, order) && 0 < k <= |order| && !Blind(m, order[0], {})
    ensures CompleteAt(m, order, k) <==> Covers(order[..k], NumFrags(m))
  {
    GotAll(m, order, k);
  }

  lemma InPrefix(order: seq<nat>, j: nat, k: nat, i: nat)
    requires j <= k <= |order|
    ensures i in order[..j] ==> i in order[..k]
  {
    if i in order[..j] {
      var q :| 0 <= q < j && order[..j][q] == i;
      assert order[..k][q] == i;
    }
  }

  lemma CoversMonotone(order: seq<nat>, j: nat, k: nat, n: nat)
    requires j <= k <= |order| && Covers(order[..j], n)
    ensures Covers(order[..k], n)
  {
    forall i | 0 <= i < n ensures i in order[..k] {
      InPrefix(order, j, k, i);
    }
  }

  lemma NotYet(m: Message, order: seq<nat>, j: nat, k: nat)
    requires Order(m, order) && j <= k < |order| && !Blind(m, order[0], {}) && NumFrags(m) > 0
    requires !Covers(order[..k], NumFrags(m))
    ensures !CompleteAt(m, order, j)
  {
    if j > 0 {
      CoversIff(m, order, j);
      if Covers(order[..j], NumFrags(m)) {
        CoversMonotone(order, j, k, NumFrags(m));
      }
    } else {
      assert 0 !in Got(m, order, 0);
    }
  }

  /** Completeness: for every arrival order with repeats in which the first fragment's place is known, and
      from every state of the receiver, the message is delivered by the datagram that supplies the last
      missing fragment, never earlier, byte for byte and with its own offset. */
  lemma DeliveredExactlyWhenComplete(m: Message, order: seq<nat>, rs: seq<Rx>, maxPayload: nat, j: nat, k: nat)
    requires Honest(m) && Order(m, order) && Feeding(m, order, rs, maxPayload)
    requires j < |order| && k == j + 1 && !Blind(m, order[0], {})
    requires !Covers(order[..j], NumFrags(m))
    ensures Takes(rs, WireOf(m, order), j)
    ensures var r := Result(rs, WireOf(m, order), j);
            && (Covers(order[..k], NumFrags(m)) ==>
                  r.assembled == Some(m.data) && r.bufOffset == m.bufOffset && rs[k].lastSourceUs == m.sourceUs)
            && (!Covers(order[..k], NumFrags(m)) ==> r.assembled == None)
  {
    SafeWhenFirstIsKnown(m, order, maxPayload);
    forall i | 0 <= i <= j ensures !CompleteAt(m, order, i) {
      NotYet(m, order, i, j);
    }
    Outcome(m, order, rs, maxPayload, j, k);
    CoversIff(m, order, k);
  }

  // ---------- the blind final fragment ----------

  /** The position of the first element other than `f`. */
  function FirstOther(order: seq<nat>, f: nat): (r: nat)
    ensures r <= |order|
    ensures forall j | 0 <= j < r :: order[j] == f
    ensures r < |order| ==> order[r] != f
  {
    if order == [] || order[0] != f then 0 else 1 + FirstOther(order[1..], f)
  }

  /** The final fragment comes again after some other fragment has arrived. */
  predicate FinalAfterOther(m: Message, order: seq<nat>)
    requires m.p > 0 && NumFrags(m) > 0
  {
    NumFrags(m) - 1 in order[FirstOther(order, NumFrags(m) - 1)..]
  }

  /** What the receiver reports for the last datagram of an order. */
  ghost predicate LastDelivers(m: Message, order: seq<nat>, rs: seq<Rx>)
    requires Honest(m) && Order(m, order) && order != [] && Run(rs, WireOf(m, order))
  {
    assert Takes(rs, WireOf(m, order), |order| - 1);
    Result(rs, WireOf(m, order), |order| - 1).assembled == Some(m.data)
  }

  /** The order ends with the datagram that supplies the last missing fragment. */
  predicate JustCovers(m: Message, order: seq<nat>)
    requires m.p > 0
  {
    order != [] && Covers(order, NumFrags(m)) && !Covers(order[..|order| - 1], NumFrags(m))
  }

  /** Condition C, exactly. Take any message and any order that ends with its last missing fragment. The
      receiver then returns the message for every stale buffer it may hold if and only if the first
      fragment's place is known, or the wrong guess falls outside the buffer and the final fragment
      comes again later. The documentation promises delivery for every order. */
  lemma DeliveredForEveryBufferIff(m: Message, order: seq<nat>, maxPayload: nat)
    requires Honest(m) && Order(m, order) && Acceptable(m, maxPayload) && JustCovers(m, order)
    ensures (forall rs | Feeding(m, order, rs, maxPayload) :: LastDelivers(m, order, rs))
            <==> !Blind(m, order[0], {}) || (GuessOverflows(m, maxPayload) && FinalAfterOther(m, order))
  {
    if !Blind(m, order[0], {}) {
      forall rs | Feeding(m, order, rs, maxPayload) ensures LastDelivers(m, order, rs) {
        assert order[..|order|] == order;
        DeliveredExactlyWhenComplete(m, order, rs, maxPayload, |order| - 1, |order|);
      }
    } else if GuessOverflows(m, maxPayload) {
      forall rs | Feeding(m, order, rs, maxPayload)
        ensures LastDelivers(m, order, rs) <==> FinalAfterOther(m, order)
      {
        RejectedThenResent(m, order, rs, maxPayload);
      }
      var rs := RunFrom(Initial(maxPayload), WireOf(m, order));
      assert Feeding(m, order, rs, maxPayload);
    } else {
      StaleWitness(m, order, maxPayload);
    }
  }

  function SetOf(order: seq<nat>): (s: set<nat>)
    ensures forall i :: i in s <==> i in order
  {
    set i | i in order
  }

  lemma SetOfAppend(order: seq<nat>, f: nat, k: nat)
    requires f <= k < |order|
    ensures SetOf(order[f..k + 1]) == SetOf(order[f..k]) + {order[k]}
  {
    assert order[f..k + 1] == order[f..k] + [order[k]];
  }

  /** One more fragment after a blind start. */
  lemma BlindStep(m: Message, got: set<nat>, order: seq<nat>, f: nat, k: nat)
    requires m.p > 0 && NumFrags(m) > 1 && m.p != MAX_PAYLOAD_PER_DATAGRAM && f <= |order| && k < |order|
    requires k < f ==> order[k] == NumFrags(m) - 1
    requires k == f ==> order[k] != NumFrags(m) - 1
    requires got == if k <= f then {} else SetOf(order[f..k])
    ensures GotAfter(m, got, order[k]) == if k + 1 <= f then {} else SetOf(order[f..k + 1])
  {
    if k >= f {
      SetOfAppend(order, f, k);
      assert k > f ==> order[f..k][0] in got;
      assert order[f..f] == [];
    }
  }

  /** After a blind start the held fragments are those from the first other fragment on. */
  lemma {:induction false} GotAfterBlind(m: Message, order: seq<nat>, f: nat, k: nat)
    requires Order(m, order) && order != [] && k <= |order| && Blind(m, order[0], {})
    requires f == FirstOther(order, NumFrags(m) - 1)
    ensures Got(m, order, k) == if k <= f then {} else SetOf(order[f..k])
  {
    if k > 0 {
      GotAfterBlind(m, order, f, k - 1);
      BlindStep(m, Got(m, order, k - 1), order, f, k - 1);
    }
  }

  lemma BlindIncomplete(m: Message, order: seq<nat>, j: nat)
    requires Order(m, order) && JustCovers(m, order) && Blind(m, order[0], {}) && j < |order|
    ensures !CompleteAt(m, order, j)
  {
    var miss :| 0 <= miss < NumFrags(m) && miss !in order[..|order| - 1];
    GotWithin(m, order, j);
    InPrefix(order, j, |order| - 1, miss);
  }

  lemma OthersFollow(order: seq<nat>, f: nat, i: nat)
    requires i in order && i != f
    ensures i in order[FirstOther(order, f)..]
  {
    var q :| 0 <= q < |order| && order[q] == i;
    assert order[FirstOther(order, f)..][q - FirstOther(order, f)] == i;
  }

  lemma BlindCompleteIff(m: Message, order: seq<nat>)
    requires Order(m, order) && JustCovers(m, order) && Blind(m, order[0], {})
    ensures CompleteAt(m, order, |order|) <==> FinalAfterOther(m, order)
  {
    var f := FirstOther(order, NumFrags(m) - 1);
    GotAfterBlind(m, order, f, |order|);
    assert order[f..|order|] == order[f..];
    OthersFollow(order, NumFrags(m) - 1, 0);
    SuffixIsAll(order, f, NumFrags(m));
  }

  lemma SuffixIsAll(order: seq<nat>, f: nat, n: nat)
    requires n > 0 && f == FirstOther(order, n - 1) && Covers(order, n)
    ensures (forall i | 0 <= i < n :: i in order[f..]) <==> n - 1 in order[f..]
  {
    forall i | 0 <= i < n - 1 ensures i in order[f..] {
      OthersFollow(order, n - 1, i);
    }
  }

  lemma RejectedThenResent(m: Message, order: seq<nat>, rs: seq<Rx>, maxPayload: nat)
    requires Honest(m) && Order(m, order) && JustCovers(m, order) && Blind(m, order[0], {})
    requires Feeding(m, order, rs, maxPayload) && GuessOverflows(m, maxPayload)
    ensures LastDelivers(m, order, rs) <==> FinalAfterOther(m, order)
  {
    forall i | 0 <= i <= |order| - 1 ensures !CompleteAt(m, order, i) {
      BlindIncomplete(m, order, i);
    }
    assert Safe(m, order, maxPayload) by {
      forall i | 0 <= i < |order| ensures SafeAt(m, order, maxPayload, i) {
      }
    }
    Outcome(m, order, rs, maxPayload, |order| - 1, |order|);
    BlindCompleteIff(m, order);
  }

  /** The receiver collects `m`, the misplaced final fragment counts as received, and the first byte of the
      place it belongs to still holds the stale value `b`. */
  ghost predicate Stuck(m: Message, got: set<nat>, rx: Rx, b: byte)
    requires Honest(m)
  {
    var n := NumFrags(m);
    && n > 1
    && Sane(rx) && rx.currentSeq == Some(m.sequence)
    && rx.totalFrags == n && rx.payloadSize == |m.data|
    && Counted(m, got, rx) && n - 1 in got
    && StaleAt(m, rx, b)
  }

  predicate StaleAt(m: Message, rx: Rx, b: byte)
    requires Honest(m)
  {
    Offset(NumFrags(m) - 1, m.p) < |rx.buf| && rx.buf[Offset(NumFrags(m) - 1, m.p)] == b
  }

  lemma OffsetGrows(i: nat, p: nat, q: nat)
    requires i > 0 && p < q
    ensures Offset(i, p) < Offset(i, q)
  {
    OffsetIsProduct(i, p);
    OffsetIsProduct(i, q);
  }

  /** A blind final fragment that fits is stored away from its place. */
  lemma GuessIsWrong(m: Message, rx: Rx, b: byte)
    requires Honest(m) && Sane(rx) && Acceptable(m, |rx.buf|) && rx.currentSeq != Some(m.sequence)
    requires Blind(m, NumFrags(m) - 1, {}) && !GuessOverflows(m, |rx.buf|) && StaleAt(m, rx, b)
    ensures var (rx1, r) := Ingest(rx, PacketOf(m, NumFrags(m) - 1));
            Stuck(m, {NumFrags(m) - 1}, rx1, b) && r.assembled == None && |rx1.buf| == |rx.buf|
  {
    var n := NumFrags(m);
    var h := PacketOf(m, n - 1).header;
    OpenedHolds(m, {}, rx, h, Chunk(m, n - 1), n - 1);
    GuessStored(m, Opened(rx, h), b);
  }

  lemma GuessStored(m: Message, rx: Rx, b: byte)
    requires Honest(m) && Holds(m, {}, rx) && Acceptable(m, |rx.buf|)
    requires Blind(m, NumFrags(m) - 1, {}) && !GuessOverflows(m, |rx.buf|) && StaleAt(m, rx, b)
    ensures var n := NumFrags(m);
            var (rx1, stored) := Store(rx, n - 1, Chunk(m, n - 1));
            stored && Counted(m, {n - 1}, rx1) && StaleAt(m, rx1, b)
  {
    OffsetGrows(NumFrags(m) - 1, m.p, MAX_PAYLOAD_PER_DATAGRAM);
  }

  /** Nothing that arrives later reaches the stale byte. */
  lemma StuckStore(m: Message, got: set<nat>, rx: Rx, i: nat, b: byte)
    requires Honest(m) && Acceptable(m, |rx.buf|) && Stuck(m, got, rx, b) && i < NumFrags(m)
    ensures var (rx1, stored) := Store(rx, i, Chunk(m, i));
            && Counted(m, got + {i}, rx1) && StaleAt(m, rx1, b)
            && (stored <==> i !in got)
  {
    if i in got {
      assert got + {i} == got;
    } else {
      StoreNew(m, rx, i);
      CountedAfter(m, got, rx, Store(rx, i, Chunk(m, i)).0, i);
      OffsetMonotone(i, NumFrags(m) - 1, m.p);
    }
  }

  /** A payload that still has the stale byte in it. */
  predicate Spoilt(m: Message, r: Ingested, b: byte)
    requires Honest(m)
  {
    r.assembled.Some? ==>
      var q := Offset(NumFrags(m) - 1, m.p);
      q < |r.assembled.value| && r.assembled.value[q] == b
  }

  lemma StuckDeliver(m: Message, got: set<nat>, rx: Rx, stored: bool, firstFrag: bool, b: byte)
    requires Honest(m) && Counted(m, got, rx) && StaleAt(m, rx, b)
    requires rx.totalFrags == NumFrags(m) && rx.payloadSize == |m.data|
    ensures var (rx1, r) := Deliver(rx, stored, firstFrag);
            && Spoilt(m, r, b)
            && (!Complete(m, got) ==> rx1 == rx && r.assembled == None)
  {
    FullSet(got, NumFrags(m));
    ChunkRange(m, NumFrags(m) - 1);
  }

  lemma StuckStep(m: Message, got: set<nat>, rx: Rx, i: nat, b: byte)
    requires Honest(m) && Acceptable(m, |rx.buf|) && Stuck(m, got, rx, b) && i < NumFrags(m)
    ensures var (rx1, r) := Ingest(rx, PacketOf(m, i));
            && |rx1.buf| == |rx.buf| && Spoilt(m, r, b)
            && (!Complete(m, got + {i}) ==> Stuck(m, got + {i}, rx1, b) && r.assembled == None)
  {
    var open := if i == 0 then rx.(lastSourceUs := m.sourceUs) else rx;
    assert Opened(rx, PacketOf(m, i).header) == open;
    StuckStore(m, got, open, i, b);
    var (rx1, stored) := Store(open, i, Chunk(m, i));
    StuckDeliver(m, got + {i}, rx1, stored, i == 0, b);
  }

  lemma {:induction false} StuckRun(m: Message, order: seq<nat>, rs: seq<Rx>, maxPayload: nat, b: byte, k: nat)
    requires Honest(m) && Order(m, order) && JustCovers(m, order) && Feeding(m, order, rs, maxPayload)
    requires Blind(m, order[0], {}) && !GuessOverflows(m, maxPayload) && StaleAt(m, rs[0], b)
    requires 0 < k < |order|
    ensures Stuck(m, SetOf(order[..k]), rs[k], b) && |rs[k].buf| == maxPayload
  {
    assert Takes(rs, WireOf(m, order), k - 1);
    if k == 1 {
      GuessIsWrong(m, rs[0], b);
      assert SetOf(order[..1]) == {NumFrags(m) - 1};
    } else {
      StuckRun(m, order, rs, maxPayload, b, k - 1);
      StuckStep(m, SetOf(order[..k - 1]), rs[k - 1], order[k - 1], b);
      SetOfAppend(order, 0, k - 1);
      NotAllYet(m, order, k);
    }
  }

  lemma NotAllYet(m: Message, order: seq<nat>, k: nat)
    requires m.p > 0 && JustCovers(m, order) && k < |order|
    ensures !Complete(m, SetOf(order[..k]))
  {
    var i :| 0 <= i < NumFrags(m) && i !in order[..|order| - 1];
    InPrefix(order, k, |order| - 1, i);
  }

  /** Some stale buffer makes the reassembled payload wrong. */
  lemma StaleWitness(m: Message, order: seq<nat>, maxPayload: nat)
    requires Honest(m) && Order(m, order) && Acceptable(m, maxPayload) && JustCovers(m, order)
    requires Blind(m, order[0], {}) && !GuessOverflows(m, maxPayload)
    ensures exists rs | Feeding(m, order, rs, maxPayload) :: !LastDelivers(m, order, rs)
  {
    var last := |order| - 1;
    var q := Offset(NumFrags(m) - 1, m.p);
    ChunkRange(m, NumFrags(m) - 1);
    var b: byte := if m.data[q] == 0 then 1 else 0;
    var rs := RunFrom(Initial(maxPayload).(buf := Zeros(maxPayload)[q := b]), WireOf(m, order));
    assert Feeding(m, order, rs, maxPayload);
    assert 0 in order;
    StuckRun(m, order, rs, maxPayload, b, last);
    assert Takes(rs, WireOf(m, order), last);
    StuckStep(m, SetOf(order[..last]), rs[last], order[last], b);
    assert !LastDelivers(m, order, rs);
  }
}
