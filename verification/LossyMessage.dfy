/** One message over a link that drops any of its datagrams: on a receiver that is elsewhere it is applied as a whole
    or not at all, on any receiver at most one message is applied. */
module LossyMessage {
  import opened Options
  import opened Bytes
  import opened Wire
  import opened Irsdk
  import opened Codec
  import opened Target
  import opened EndToEnd
  import opened Missing
  import F = Fragmentation
  import R = Reassembly
  import C = Channel
  import N = Accounting

  /** Datagram `k` takes the target from `states[k]` to `states[k + 1]` if it arrives. */
  ghost predicate FedAt(codec: Codec, states: seq<TargetState>, m: F.Message, arrived: seq<bool>, k: nat)
    requires Bounded(codec) && m.p > 0 && |arrived| <= F.NumFrags(m) && k < |arrived| && |states| == |arrived| + 1
  {
    && ValidState(states[k])
    && states[k + 1] == if arrived[k] then OnPacket(codec, states[k], Parse(F.Datagram(m, k))).0 else states[k]
  }

  ghost predicate Feeds(codec: Codec, states: seq<TargetState>, m: F.Message, arrived: seq<bool>)
    requires Bounded(codec) && m.p > 0 && |arrived| <= F.NumFrags(m)
  {
    && |states| == |arrived| + 1 && ValidState(states[0])
    && forall k | 0 <= k < |arrived| :: FedAt(codec, states, m, arrived, k)
  }

  lemma LastIsValid(codec: Codec, states: seq<TargetState>, m: F.Message, arrived: seq<bool>)
    requires Bounded(codec) && m.p > 0 && |arrived| <= F.NumFrags(m) && Feeds(codec, states, m, arrived)
    ensures ValidState(states[|arrived|])
  {
    if arrived != [] {
      assert FedAt(codec, states, m, arrived, |arrived| - 1);
    }
  }

  lemma FeedsExtend(codec: Codec, front: seq<TargetState>, m: F.Message, arrived: seq<bool>, next: TargetState)
    requires Bounded(codec) && m.p > 0 && 0 < |arrived| <= F.NumFrags(m)
    requires Feeds(codec, front, m, arrived[..|arrived| - 1]) && ValidState(front[|arrived| - 1])
    requires var last := |arrived| - 1;
             next == if arrived[last] then OnPacket(codec, front[last], Parse(F.Datagram(m, last))).0 else front[last]
    ensures Feeds(codec, front + [next], m, arrived)
  {
    var last, states := |arrived| - 1, front + [next];
    forall k | 0 <= k < |arrived| ensures FedAt(codec, states, m, arrived, k) {
      if k < last {
        assert FedAt(codec, front, m, arrived[..last], k);
      }
    }
  }

  /** The states of the target while those datagrams of the message that arrive come in. */
  ghost function FeedStates(codec: Codec, s: TargetState, m: F.Message, arrived: seq<bool>): (states: seq<TargetState>)
    requires ValidState(s) && Bounded(codec) && m.p > 0 && |arrived| <= F.NumFrags(m)
    ensures Feeds(codec, states, m, arrived) && states[0] == s
    decreases |arrived|
  {
    if arrived == [] then [s]
    else
      var last := |arrived| - 1;
      var front := FeedStates(codec, s, m, arrived[..last]);
      LastIsValid(codec, front, m, arrived[..last]);
      var next := if arrived[last] then OnPacket(codec, front[last], Parse(F.Datagram(m, last))).0 else front[last];
      FeedsExtend(codec, front, m, arrived, next);
      front + [next]
  }

  /** The target after them. */
  ghost function FeedSome(codec: Codec, s: TargetState, m: F.Message, arrived: seq<bool>): (r: TargetState)
    requires ValidState(s) && Bounded(codec) && m.p > 0 && |arrived| <= F.NumFrags(m)
    ensures ValidState(r)
  {
    var states := FeedStates(codec, s, m, arrived);
    LastIsValid(codec, states, m, arrived);
    states[|arrived|]
  }

  predicate AllArrive(arrived: seq<bool>) {
    forall i | 0 <= i < |arrived| :: arrived[i]
  }

  /** The receiver may be anywhere but on this sequence number. */
  ghost predicate OffSequence(m: F.Message, s: TargetState)
    requires m.p > 0
  {
    ValidState(s) && R.Counts(s.rx) && s.rx.currentSeq != Some(m.sequence)
  }

  lemma StartsCollecting(m: F.Message, s: TargetState)
    requires C.Honest(m) && OffSequence(m, s) && C.Acceptable(m, |s.rx.buf|)
    ensures Collecting(m, 0, s.rx, |s.rx.buf|)
  {
    assert C.Indices(0) == {};
  }

  /** Fragment `k` is next and nothing has been applied since `s`. */
  ghost predicate Halfway(m: F.Message, s: TargetState, s1: TargetState, k: nat)
    requires C.Honest(m)
  {
    ValidState(s1) && s1.t == s.t && |s1.rx.buf| == |s.rx.buf| && Collecting(m, k, s1.rx, |s.rx.buf|)
  }

  lemma FrontNext(codec: Codec, s: TargetState, states: seq<TargetState>, m: F.Message, arrived: seq<bool>, j: nat,
                  k: nat)
    requires Bounded(codec) && C.Honest(m) && |arrived| == F.NumFrags(m) && Feeds(codec, states, m, arrived)
    requires k == j + 1 && k < |arrived| && arrived[j] && Halfway(m, s, states[j], j)
    ensures Halfway(m, s, states[k], k)
  {
    assert FedAt(codec, states, m, arrived, j);
    FeedOne(codec, states[j], m, j);
  }

  lemma {:induction false} FeedFront(codec: Codec, s: TargetState, states: seq<TargetState>, m: F.Message,
                                     arrived: seq<bool>, k: nat)
    requires Bounded(codec) && C.Honest(m) && OffSequence(m, s) && |arrived| == F.NumFrags(m) && AllArrive(arrived)
    requires Feeds(codec, states, m, arrived) && states[0] == s && k < |arrived| && C.Acceptable(m, |s.rx.buf|)
    ensures Halfway(m, s, states[k], k)
  {
    if k == 0 {
      StartsCollecting(m, s);
    } else {
      FeedFront(codec, s, states, m, arrived, k - 1);
      FrontNext(codec, s, states, m, arrived, k - 1, k);
    }
  }

  lemma FeedEvery(codec: Codec, s: TargetState, m: F.Message, arrived: seq<bool>)
    requires Bounded(codec) && C.Honest(m) && OffSequence(m, s) && |arrived| == F.NumFrags(m) && AllArrive(arrived)
    requires C.Acceptable(m, |s.rx.buf|)
    ensures var s1 := FeedSome(codec, s, m, arrived);
            && s1.t == Message(s.t, m.bufOffset, codec.decompress(m.data))
            && s1.rx.currentSeq == None && |s1.rx.buf| == |s.rx.buf|
  {
    var states := FeedStates(codec, s, m, arrived);
    var last := |arrived| - 1;
    FeedFront(codec, s, states, m, arrived, last);
    assert FedAt(codec, states, m, arrived, last);
    FeedOne(codec, states[last], m, last);
  }

  // ---------- a message that misses a datagram ----------

  lemma FeedShort(codec: Codec, s: TargetState, m: F.Message, miss: nat, i: nat)
    requires ValidState(s) && Bounded(codec) && C.Honest(m) && C.Acceptable(m, |s.rx.buf|)
    requires ShortOrOff(m, miss, s.rx) && miss < F.NumFrags(m) && i < F.NumFrags(m) && i != miss
    ensures var s1 := OnPacket(codec, s, Parse(F.Datagram(m, i))).0;
            s1.t == s.t && |s1.rx.buf| == |s.rx.buf| && Short(m, miss, s1.rx)
  {
    C.DatagramParses(m, i);
    ShortStep(m, miss, s.rx, i);
  }

  /** `s1` has applied nothing since `s`, and its receiver is on this message at most. */
  ghost predicate Incomplete(m: F.Message, miss: nat, s: TargetState, s1: TargetState)
    requires m.p > 0
  {
    && ValidState(s1) && s1.t == s.t && |s1.rx.buf| == |s.rx.buf| && R.Counts(s1.rx)
    && (Short(m, miss, s1.rx) || s1.rx.currentSeq == s.rx.currentSeq)
  }

  lemma IncompleteNext(codec: Codec, s: TargetState, states: seq<TargetState>, m: F.Message, arrived: seq<bool>,
                       miss: nat, j: nat, k: nat)
    requires Bounded(codec) && C.Honest(m) && OffSequence(m, s) && |arrived| == F.NumFrags(m)
    requires C.Acceptable(m, |s.rx.buf|)
    requires Feeds(codec, states, m, arrived) && miss < |arrived| && !arrived[miss] && k == j + 1 && k <= |arrived|
    requires Incomplete(m, miss, s, states[j])
    ensures Incomplete(m, miss, s, states[k])
  {
    assert FedAt(codec, states, m, arrived, j);
    if arrived[j] {
      FeedShort(codec, states[j], m, miss, j);
    }
  }

  /** Nothing is applied when a datagram is missing, whichever of the others arrive. */
  lemma {:induction false} FeedIncomplete(codec: Codec, s: TargetState, states: seq<TargetState>, m: F.Message,
                                          arrived: seq<bool>, miss: nat, k: nat)
    requires Bounded(codec) && C.Honest(m) && OffSequence(m, s) && |arrived| == F.NumFrags(m)
    requires C.Acceptable(m, |s.rx.buf|)
    requires Feeds(codec, states, m, arrived) && states[0] == s
    requires miss < |arrived| && !arrived[miss] && k <= |arrived|
    ensures Incomplete(m, miss, s, states[k])
  {
    if k > 0 {
      FeedIncomplete(codec, s, states, m, arrived, miss, k - 1);
      IncompleteNext(codec, s, states, m, arrived, miss, k - 1, k);
    }
  }

  lemma CountsNext(codec: Codec, states: seq<TargetState>, m: F.Message, arrived: seq<bool>, j: nat, k: nat)
    requires Bounded(codec) && m.p > 0 && |arrived| <= F.NumFrags(m) && Feeds(codec, states, m, arrived)
    requires k == j + 1 && k <= |arrived| && ValidState(states[j]) && R.Counts(states[j].rx)
    ensures ValidState(states[k]) && R.Counts(states[k].rx)
  {
    assert FedAt(codec, states, m, arrived, j);
    N.EventAccounting(codec, states[j], N.Datagram(Parse(F.Datagram(m, j))));
  }

  lemma {:induction false} FeedKeepsCounts(codec: Codec, states: seq<TargetState>, m: F.Message, arrived: seq<bool>,
                              k: nat)
    requires Bounded(codec) && m.p > 0 && |arrived| <= F.NumFrags(m) && Feeds(codec, states, m, arrived)
    requires R.Counts(states[0].rx) && k <= |arrived|
    ensures ValidState(states[k]) && R.Counts(states[k].rx)
  {
    if k > 0 {
      FeedKeepsCounts(codec, states, m, arrived, k - 1);
      CountsNext(codec, states, m, arrived, k - 1, k);
    }
  }

  // ---------- a message the receiver refuses ----------

  /** `s1` has applied nothing since `s`, and its receiver has refused this message at most. */
  ghost predicate Unmoved(m: F.Message, s: TargetState, s1: TargetState)
    requires m.p > 0
  {
    && ValidState(s1) && s1.t == s.t && |s1.rx.buf| == |s.rx.buf|
    && (Refusing(m, s1.rx) || s1.rx.currentSeq == s.rx.currentSeq)
  }

  lemma UnmovedNext(codec: Codec, s: TargetState, states: seq<TargetState>, m: F.Message, arrived: seq<bool>, j: nat,
                    k: nat)
    requires Bounded(codec) && C.Honest(m) && OffSequence(m, s) && |arrived| == F.NumFrags(m)
    requires Feeds(codec, states, m, arrived) && !C.Acceptable(m, |s.rx.buf|) && k == j + 1 && k <= |arrived|
    requires Unmoved(m, s, states[j])
    ensures Unmoved(m, s, states[k])
  {
    assert FedAt(codec, states, m, arrived, j);
    if arrived[j] {
      C.DatagramParses(m, j);
      RefusedStays(m, states[j].rx, j);
    }
  }

  lemma {:induction false} FeedRefused(codec: Codec, s: TargetState, states: seq<TargetState>, m: F.Message,
                                       arrived: seq<bool>, k: nat)
    requires Bounded(codec) && C.Honest(m) && OffSequence(m, s) && |arrived| == F.NumFrags(m)
    requires Feeds(codec, states, m, arrived) && !C.Acceptable(m, |s.rx.buf|) && states[0] == s && k <= |arrived|
    ensures Unmoved(m, s, states[k])
  {
    if k > 0 {
      FeedRefused(codec, s, states, m, arrived, k - 1);
      UnmovedNext(codec, s, states, m, arrived, k - 1, k);
    }
  }

  /** A message over a link that drops datagrams is applied as a whole or not at all: it is when the receiver accepts it
      and all its datagrams arrive. */
  lemma AllOrNothing(codec: Codec, s: TargetState, m: F.Message, arrived: seq<bool>)
    requires Bounded(codec) && C.Honest(m) && OffSequence(m, s) && |arrived| == F.NumFrags(m)
    ensures var s1 := FeedSome(codec, s, m, arrived);
            && s1.t == (if AllArrive(arrived) && C.Acceptable(m, |s.rx.buf|) then
                          Message(s.t, m.bufOffset, codec.decompress(m.data))
                        else s.t)
            && |s1.rx.buf| == |s.rx.buf| && R.Counts(s1.rx)
            && (s1.rx.currentSeq == None || s1.rx.currentSeq == Some(m.sequence) || s1.rx.currentSeq == s.rx.currentSeq)
  {
    var states := FeedStates(codec, s, m, arrived);
    FeedKeepsCounts(codec, states, m, arrived, |arrived|);
    if !C.Acceptable(m, |s.rx.buf|) {
      FeedRefused(codec, s, states, m, arrived, |arrived|);
    } else if AllArrive(arrived) {
      FeedEvery(codec, s, m, arrived);
    } else {
      var miss :| 0 <= miss < |arrived| && !arrived[miss];
      FeedIncomplete(codec, s, states, m, arrived, miss, |arrived|);
    }
  }

  // ---------- a receiver that is already on the sequence number ----------

  /** The target has applied one more message, whatever it was. */
  ghost predicate AppliedOne(t: Tgt, t1: Tgt)
    requires ValidTgt(t)
  {
    exists off: u32, dec: Option<seq<byte>> :: Applies(t, off, dec, t1)
  }

  ghost predicate Applies(t: Tgt, off: u32, dec: Option<seq<byte>>, t1: Tgt)
    requires ValidTgt(t)
  {
    (dec.Some? ==> |dec.value| <= MAX_TELEMETRY_SIZE) && t1 == Message(t, off, dec)
  }

  /** Where the target can be after the first `k` datagrams of `m`: nothing applied yet, or one message applied and
      the first fragment of `m` missing from what the receiver has since, or `m` refused. */
  ghost predicate AtMostOne(m: F.Message, s: TargetState, s1: TargetState, k: nat)
    requires m.p > 0 && F.NumFrags(m) > 0
  {
    && ValidState(s) && ValidState(s1) && |s1.rx.buf| == |s.rx.buf| && R.Counts(s1.rx)
    && if s1.t == s.t && (s1.rx.currentSeq == s.rx.currentSeq || s1.rx.currentSeq == Some(m.sequence)) then true
       else k > 0 && AppliedOne(s.t, s1.t) && (LeftOpen(m, s1.rx, |s1.rx.buf|) || s1.rx.currentSeq == None)
  }

  /** A fragment of the message whatever the receiver holds. */
  lemma AnyFragment(m: F.Message, rx: R.Rx, i: nat)
    requires C.Honest(m) && R.Sane(rx) && R.Counts(rx) && i < F.NumFrags(m)
    ensures var (rx1, r) := R.Ingest(rx, C.PacketOf(m, i));
            && R.Counts(rx1) && |rx1.buf| == |rx.buf|
            && (r.assembled.None? ==> rx1.currentSeq == Some(m.sequence))
            && (r.assembled.Some? ==> rx1.currentSeq == None)
  {
    R.IngestKeepsCounts(rx, C.PacketOf(m, i));
  }

  lemma FeedAny(codec: Codec, s: TargetState, m: F.Message, i: nat)
    requires ValidState(s) && R.Counts(s.rx) && Bounded(codec) && C.Honest(m) && i < F.NumFrags(m)
    ensures var s1 := OnPacket(codec, s, Parse(F.Datagram(m, i))).0;
            && |s1.rx.buf| == |s.rx.buf| && R.Counts(s1.rx)
            && ((s1.t == s.t && s1.rx.currentSeq == Some(m.sequence))
                || (AppliedOne(s.t, s1.t) && s1.rx.currentSeq == None))
  {
    C.DatagramParses(m, i);
    AnyFragment(m, s.rx, i);
    var r := R.Ingest(s.rx, C.PacketOf(m, i)).1;
    var s1 := OnPacket(codec, s, Parse(F.Datagram(m, i))).0;
    if r.assembled.Some? {
      assert Applies(s.t, r.bufOffset, codec.decompress(r.assembled.value), s1.t);
    }
  }

  lemma FeedRest(codec: Codec, s: TargetState, m: F.Message, i: nat)
    requires ValidState(s) && R.Counts(s.rx) && Bounded(codec) && C.Honest(m) && 0 < i < F.NumFrags(m)
    requires LeftOpen(m, s.rx, |s.rx.buf|) || s.rx.currentSeq == None
    ensures var s1 := OnPacket(codec, s, Parse(F.Datagram(m, i))).0;
            s1.t == s.t && |s1.rx.buf| == |s.rx.buf| && LeftOpen(m, s1.rx, |s1.rx.buf|) && R.Counts(s1.rx)
  {
    C.DatagramParses(m, i);
    RestStaysOpen(m, s.rx, i);
    R.IngestKeepsCounts(s.rx, C.PacketOf(m, i));
  }

  lemma OneNext(codec: Codec, s: TargetState, states: seq<TargetState>, m: F.Message, arrived: seq<bool>, j: nat,
                k: nat)
    requires Bounded(codec) && C.Honest(m) && |arrived| == F.NumFrags(m)
    requires Feeds(codec, states, m, arrived) && k == j + 1 && k <= |arrived| && AtMostOne(m, s, states[j], j)
    ensures AtMostOne(m, s, states[k], k)
  {
    assert FedAt(codec, states, m, arrived, j);
    if arrived[j] {
      var s1 := states[j];
      if s1.t == s.t && (s1.rx.currentSeq == s.rx.currentSeq || s1.rx.currentSeq == Some(m.sequence)) {
        FeedAny(codec, s1, m, j);
      } else {
        FeedRest(codec, s1, m, j);
      }
    }
  }

  lemma {:induction false} FeedOnce(codec: Codec, s: TargetState, states: seq<TargetState>, m: F.Message,
                                    arrived: seq<bool>, k: nat)
    requires Bounded(codec) && C.Honest(m) && |arrived| == F.NumFrags(m)
    requires Feeds(codec, states, m, arrived) && states[0] == s && R.Counts(s.rx) && k <= |arrived|
    ensures AtMostOne(m, s, states[k], k)
  {
    if k > 0 {
      FeedOnce(codec, s, states, m, arrived, k - 1);
      OneNext(codec, s, states, m, arrived, k - 1, k);
    }
  }

  /** In whatever state the receiver is, the datagrams of one message apply at most one message, possibly one put
      together from this and earlier ones. */
  lemma AtMostOneApplied(codec: Codec, s: TargetState, m: F.Message, arrived: seq<bool>)
    requires ValidState(s) && R.Counts(s.rx) && Bounded(codec) && C.Honest(m) && |arrived| == F.NumFrags(m)
    ensures var s1 := FeedSome(codec, s, m, arrived);
            && (s1.t == s.t || AppliedOne(s.t, s1.t))
            && |s1.rx.buf| == |s.rx.buf| && R.Counts(s1.rx)
            && (s1.rx.currentSeq == None || s1.rx.currentSeq == Some(m.sequence) || s1.rx.currentSeq == s.rx.currentSeq)
  {
    FeedOnce(codec, s, FeedStates(codec, s, m, arrived), m, arrived, |arrived|);
  }

  lemma {:induction false} NothingFed(codec: Codec, states: seq<TargetState>, m: F.Message, arrived: seq<bool>, k: nat)
    requires Bounded(codec) && m.p > 0 && |arrived| <= F.NumFrags(m) && Feeds(codec, states, m, arrived)
    requires k <= |arrived| && forall i | 0 <= i < |arrived| :: !arrived[i]
    ensures states[k] == states[0]
  {
    if k > 0 {
      NothingFed(codec, states, m, arrived, k - 1);
      assert FedAt(codec, states, m, arrived, k - 1);
    }
  }
}
