/** Counting abandoned sequences across the receiver and the target's statistics. */
module Accounting {
  import opened Wire
  import opened Codec
  import opened Target
  import R = Reassembly

  /** What the target's loop sees: a datagram, or silence long enough for the stale reset. */
  datatype Event = Datagram(packet: Packet) | Silence

  function Next(codec: Codec, s: TargetState, e: Event): (r: TargetState)
    requires ValidState(s) && Bounded(codec)
    ensures ValidState(r)
  {
    match e
    case Datagram(packet) => OnPacket(codec, s, packet).0
    case Silence => s.(t := Stale(s.t))
  }

  ghost predicate Steps(codec: Codec, ss: seq<TargetState>, es: seq<Event>, k: nat)
    requires k < |es| && |ss| == |es| + 1
  {
    Bounded(codec) && ValidState(ss[k]) && ss[k + 1] == Next(codec, ss[k], es[k])
  }

  ghost predicate Run(codec: Codec, ss: seq<TargetState>, es: seq<Event>) {
    && |ss| == |es| + 1 && ValidState(ss[0])
    && forall k | 0 <= k < |es| :: Steps(codec, ss, es, k)
  }

  /** The event brings the first stored fragment of a sequence. */
  predicate Begins(s: TargetState, e: Event) {
    ValidState(s) && e.Datagram? && R.Begins(s.rx, e.packet)
  }

  /** The event completes a sequence. */
  predicate Completes(s: TargetState, e: Event) {
    ValidState(s) && e.Datagram? && R.Ingest(s.rx, e.packet).1.assembled.Some?
  }

  ghost function Begun(ss: seq<TargetState>, es: seq<Event>, k: nat): nat
    requires k <= |es| < |ss|
  {
    if k == 0 then 0 else Begun(ss, es, k - 1) + if Begins(ss[k - 1], es[k - 1]) then 1 else 0
  }

  ghost function Completed(ss: seq<TargetState>, es: seq<Event>, k: nat): nat
    requires k <= |es| < |ss|
  {
    if k == 0 then 0 else Completed(ss, es, k - 1) + if Completes(ss[k - 1], es[k - 1]) then 1 else 0
  }

  /** Sequences given up so far, whether the statistics have taken them over yet or not. */
  function Abandoned(s: TargetState): nat {
    s.statsDropped + s.rx.dropped
  }

  lemma EventAccounting(codec: Codec, s: TargetState, e: Event)
    requires ValidState(s) && Bounded(codec) && R.Counts(s.rx)
    ensures var s1 := Next(codec, s, e);
            && R.Counts(s1.rx)
            && (if Begins(s, e) then 1 else 0) + R.InProgress(s.rx) + Abandoned(s)
               == (if Completes(s, e) then 1 else 0) + R.InProgress(s1.rx) + Abandoned(s1)
  {
    if e.Datagram? {
      R.StepAccounting(s.rx, e.packet);
      R.IngestKeepsCounts(s.rx, e.packet);
      DropsConserved(codec, s, e.packet);
      OnlyDropsDiffer(codec, s, e.packet);
    }
  }

  lemma OnlyDropsDiffer(codec: Codec, s: TargetState, packet: Packet)
    requires ValidState(s) && Bounded(codec)
    ensures var rx1 := R.Ingest(s.rx, packet).0;
            OnPacket(codec, s, packet).0.rx == rx1.(dropped := OnPacket(codec, s, packet).0.rx.dropped)
  {
  }

  lemma {:induction false} RunAccounting(codec: Codec, ss: seq<TargetState>, es: seq<Event>, k: nat)
    requires Run(codec, ss, es) && R.Counts(ss[0].rx) && k <= |es|
    ensures ValidState(ss[k]) && R.Counts(ss[k].rx)
    ensures Begun(ss, es, k) + R.InProgress(ss[0].rx) + Abandoned(ss[0])
            == Completed(ss, es, k) + R.InProgress(ss[k].rx) + Abandoned(ss[k])
  {
    if k > 0 {
      RunAccounting(codec, ss, es, k - 1);
      assert Steps(codec, ss, es, k - 1);
      EventAccounting(codec, ss[k - 1], es[k - 1]);
    }
  }

  /** Over every run of the target from its start: every sequence that had a fragment stored was completed, is
      still open, or is counted as dropped, by the receiver or in the statistics it was moved to. */
  lemma NothingUncounted(codec: Codec, ss: seq<TargetState>, es: seq<Event>, maxPayload: nat, k: nat)
    requires Run(codec, ss, es) && k <= |es|
    requires ss[0] == TargetState(InitialTgt(), R.Initial(maxPayload), false, 0)
    ensures Begun(ss, es, k) == Completed(ss, es, k) + R.InProgress(ss[k].rx) + ss[k].rx.dropped + ss[k].statsDropped
  {
    RunAccounting(codec, ss, es, k);
  }
}
