/** Datagrams that arrive more than once, as the receiver treats them: exactly when a repeated fragment is discarded,
    what one does that comes while another message is being collected, and how often a message is handed over. */
module Repeats {
  import opened Options
  import opened Bytes
  import opened Wire
  import opened Fragmentation
  import opened Reassembly
  import opened Channel
  import opened Misplaced
  import opened Assembler
  import opened Assemblies

  // ---------- repeats ----------

  /** The arrival leaves the receiver exactly as it was and hands over nothing. */
  predicate Discarded(rs: seq<Rx>, run: seq<Arrival>, k: nat)
    requires k < |run| && |rs| == |run| + 1 && forall j | 0 <= j < |run| :: Arrives(run[j])
  {
    Takes(rs, WireRun(run), k) && rs[k + 1] == rs[k] && Result(rs, WireRun(run), k).assembled == None
  }

  /** The receiver has opened `m` but holds nothing of it, and the fragment is one whose place it cannot know and whose
      guessed place lies outside the buffer. */
  predicate BlindAgain(rx: Rx, m: Message, i: nat)
    requires m.p > 0 && NumFrags(m) > 0
  {
    rx.currentSeq == Some(m.sequence) && rx.gotFrags == 0 && Blind(m, i, {}) && GuessOverflows(m, |rx.buf|)
  }

  /** A fragment that is not stored changes nothing when its message is already open. */
  lemma NotStoredKeeps(m: Message, rx: Rx, i: nat)
    requires Honest(m) && i < NumFrags(m) && Sane(rx) && Counts(rx) && rx.currentSeq == Some(m.sequence)
    requires i == 0 ==> rx.lastSourceUs == m.sourceUs
    requires !Stores(rx, PacketOf(m, i)) && i < MAX_FRAGMENTS && (rx.received[i] || i + 1 == rx.totalFrags)
    ensures Ingest(rx, PacketOf(m, i)) == (rx, Ingested(None, i == 0, false, 0))
  {
    assert Opened(rx, PacketOf(m, i).header) == rx;
    assert Store(rx, i, Chunk(m, i)) == (rx, false);
  }

  /** A fragment that opens its message or is stored changes the receiver. */
  lemma StoredChanges(m: Message, rx: Rx, i: nat)
    requires Honest(m) && i < NumFrags(m) && Sane(rx)
    requires rx.currentSeq != Some(m.sequence) || Stores(rx, PacketOf(m, i))
    ensures var (rx1, r) := Ingest(rx, PacketOf(m, i)); rx1 != rx || r.assembled.Some?
  {
  }

  /** In a given state, in terms of what is held. */
  lemma DiscardedWhenHeld(a: State, rx: Rx, m: Message, i: nat)
    requires Related(a, rx) && Counts(rx) && Honest(m) && Acceptable(m, |rx.buf|) && i < NumFrags(m)
    requires !a.phase.Idle? && a.phase.m.sequence == m.sequence ==> a.phase.Collecting? && a.phase.m == m
    ensures Ingest(rx, PacketOf(m, i)).0 == rx && Ingest(rx, PacketOf(m, i)).1.assembled == None
            <==> i in Held(a, m) || BlindAgain(rx, m, i)
  {
    StoresIff(a, rx, m, i);
    if rx.currentSeq == Some(m.sequence) && !Stores(rx, PacketOf(m, i)) {
      assert a.phase.Collecting? && Held(a, m) == a.phase.got;
      assert i == 0 ==> !Blind(m, i, Held(a, m));
      NotStoredKeeps(m, rx, i);
      if i !in Held(a, m) {
        assert Held(a, m) == {} && rx.gotFrags == 0;
      }
    } else {
      StoredChanges(m, rx, i);
    }
  }

  /** When a duplicate is discarded: let fragment `i` of `m` have been stored by arrival `y`, for the last time before
      arrival `k` repeats it. Over every honest run with loss, reordering and repeats the repeat leaves the receiver as
      it is if and only if no arrival from `y` on has completed `m` and no fragment of another sequence has come in
      between; or it is the final fragment of a message that has been opened again by that very fragment, too far
      behind to be stored. */
  lemma DuplicateDiscardedIff(sent: map<u32, Message>, run: seq<Arrival>, rs: seq<Rx>, maxPayload: nat, m: Message,
                              i: nat, y: nat, k: nat)
    requires Receives(sent, run, rs, maxPayload) && SentAs(sent, m) && Honest(m) && Acceptable(m, maxPayload)
    requires y < k < |run| && run[k] == run[y] && StoredAt(rs, run, m, i, y)
    requires forall x | y < x < k :: !StoredAt(rs, run, m, i, x)
    ensures Discarded(rs, run, k) <==> Calm(rs, run, m, y, k) || BlindAgain(rs[k], m, i)
  {
    var states := StatesOf(run, maxPayload);
    StateAt(sent, run, states, rs, maxPayload, m, k);
    DiscardedWhenHeld(states[k], rs[k], m, i);
    if Calm(rs, run, m, y, k) {
      StaysHeld(sent, run, states, rs, maxPayload, m, i, y, k);
    }
    if i in Held(states[k], m) {
      var x := HeldSince(sent, run, states, rs, maxPayload, m, i, k);
      assert x <= y;
    }
  }

  /** Receiver and assembler at arrival `k`. */
  lemma StateAt(sent: map<u32, Message>, run: seq<Arrival>, states: seq<State>, rs: seq<Rx>, maxPayload: nat,
                m: Message, k: nat)
    requires Heard(sent, run, states, rs, maxPayload, m) && k < |run|
    ensures Takes(rs, WireRun(run), k) && Arrives(run[k]) && WireRun(run)[k] == Seen(run[k])
    ensures Related(states[k], rs[k]) && Counts(rs[k]) && |rs[k].buf| == maxPayload
    ensures var a := states[k];
            !a.phase.Idle? && a.phase.m.sequence == m.sequence ==> a.phase.Collecting? && a.phase.m == m
  {
    RunRefines(sent, run, states, rs, maxPayload, k);
    SettledRun(sent, run, states, maxPayload, k);
    TogetherAt(sent, run, states, rs, maxPayload, k, k + 1);
    RunKeepsCounts(rs, WireRun(run), k);
  }

  /** The receiver is collecting `m` and has some of it. */
  predicate Underway(rx: Rx, m: Message) {
    rx.currentSeq == Some(m.sequence) && rx.gotFrags > 0
  }

  /** A late duplicate of another message gives up the message being collected: it counts as dropped, and is handed over
      later only if every one of its fragments arrives again. */
  lemma LateDuplicateAbandons(sent: map<u32, Message>, run: seq<Arrival>, rs: seq<Rx>, maxPayload: nat, m: Message,
                              j: nat, k: nat)
    requires Receives(sent, run, rs, maxPayload) && SentAs(sent, m) && Honest(m) && Acceptable(m, maxPayload)
    requires j < k < |run| && Underway(rs[j], m) && run[j].Frag? && run[j].m.sequence != m.sequence
    ensures rs[j + 1].dropped == rs[j].dropped + 1
    ensures HandsOver(rs, run, m, k) ==> ArrivesWhole(run, m, j + 1, k + 1)
  {
    var states := StatesOf(run, maxPayload);
    StateAt(sent, run, states, rs, maxPayload, m, j);
    DropsAgree(states[j], rs[j], run[j].m, run[j].i);
    HeldStep(sent, run, states, rs, maxPayload, m, j, j + 1);
    if HandsOver(rs, run, m, k) {
      HandedArrived(sent, run, states, rs, maxPayload, m, j + 1, k, k + 1);
    }
  }

  /** A message that the receiver refuses is never handed over. */
  lemma RefusedIsSilent(sent: map<u32, Message>, run: seq<Arrival>, rs: seq<Rx>, maxPayload: nat, m: Message, k: nat)
    requires Receives(sent, run, rs, maxPayload) && SentAs(sent, m) && k < |run|
    requires Honest(m) && !Acceptable(m, maxPayload)
    ensures !HandsOver(rs, run, m, k)
  {
    var states := StatesOf(run, maxPayload);
    SettledRun(sent, run, states, maxPayload, k);
    HandsOverAlike(sent, run, states, rs, maxPayload, k, k + 1);
  }

  // ---------- how often a message is handed over ----------

  /** How many of the first `k` arrivals hand over `m`. */
  function Deliveries(rs: seq<Rx>, run: seq<Arrival>, m: Message, k: nat): nat
    requires k <= |run| && |rs| == |run| + 1 && forall j | 0 <= j < |run| :: Arrives(run[j])
  {
    if k == 0 then 0 else Deliveries(rs, run, m, k - 1) + if HandsOver(rs, run, m, k - 1) then 1 else 0
  }

  /** Fragments of a message, and whether the final one among them is misplaced. */
  datatype Pile = Pile(got: set<nat>, spoilt: bool)

  const NO_PILE := Pile({}, false)

  /** The fragments of `m` that are there when `pile` was and `x` arrives: another sequence takes them all away. */
  function Taken(m: Message, pile: Pile, x: Arrival, maxPayload: nat): Pile
    requires m.p > 0 && NumFrags(m) > 0
  {
    match x
    case Beat => pile
    case Frag(m1, i) =>
      if m1.sequence == m.sequence then
        Pile(Kept(m, pile.got, i, maxPayload), pile.spoilt || Misplaces(m, i, pile.got, maxPayload))
      else NO_PILE
  }

  /** What the arrivals from `lo` up to `k` leave of `m`, by themselves. */
  function Gathered(m: Message, run: seq<Arrival>, maxPayload: nat, lo: nat, k: nat): Pile
    requires m.p > 0 && NumFrags(m) > 0 && lo <= k <= |run|
    decreases k
  {
    if lo == k then NO_PILE else Taken(m, Gathered(m, run, maxPayload, lo, k - 1), run[k - 1], maxPayload)
  }

  /** The arrivals from `lo` up to `hi` bring every fragment of `m`. */
  predicate Whole(m: Message, run: seq<Arrival>, maxPayload: nat, lo: nat, hi: nat)
    requires m.p > 0 && NumFrags(m) > 0 && lo <= hi <= |run|
  {
    Complete(m, Gathered(m, run, maxPayload, lo, hi).got)
  }

  /** The first `k` arrivals have `n` disjoint intervals each of which brings every fragment of `m`. */
  ghost predicate Splits(m: Message, run: seq<Arrival>, maxPayload: nat, k: nat, n: nat)
    requires m.p > 0 && NumFrags(m) > 0 && k <= |run|
    decreases n
  {
    n == 0
    || exists lo, hi | 0 <= lo <= hi <= k ::
         Whole(m, run, maxPayload, lo, hi) && Splits(m, run, maxPayload, lo, n - 1)
  }

  lemma TakenMonotone(m: Message, s: Pile, t: Pile, x: Arrival, maxPayload: nat)
    requires m.p > 0 && NumFrags(m) > 0 && s.got <= t.got
    ensures Taken(m, s, x, maxPayload).got <= Taken(m, t, x, maxPayload).got
  {
  }

  /** Starting earlier gathers no less. */
  lemma {:induction false} GatheredMonotone(m: Message, run: seq<Arrival>, maxPayload: nat, lo: nat, mid: nat, k: nat)
    requires m.p > 0 && NumFrags(m) > 0 && lo <= mid <= k <= |run|
    ensures Gathered(m, run, maxPayload, mid, k).got <= Gathered(m, run, maxPayload, lo, k).got
    decreases k
  {
    if mid < k {
      GatheredMonotone(m, run, maxPayload, lo, mid, k - 1);
      TakenMonotone(m, Gathered(m, run, maxPayload, mid, k - 1), Gathered(m, run, maxPayload, lo, k - 1), run[k - 1],
                    maxPayload);
    }
  }

  lemma CountStep(rs: seq<Rx>, run: seq<Arrival>, m: Message, j: nat, k: nat)
    requires j < |run| && k == j + 1 && |rs| == |run| + 1 && forall j | 0 <= j < |run| :: Arrives(run[j])
    ensures Deliveries(rs, run, m, k) == Deliveries(rs, run, m, j) + if HandsOver(rs, run, m, j) then 1 else 0
  {
  }

  lemma {:induction false} CountGrows(rs: seq<Rx>, run: seq<Arrival>, m: Message, j: nat, k: nat)
    requires j <= k <= |run| && |rs| == |run| + 1 && forall j | 0 <= j < |run| :: Arrives(run[j])
    ensures Deliveries(rs, run, m, j) <= Deliveries(rs, run, m, k)
    decreases k
  {
    if j < k {
      CountGrows(rs, run, m, j, k - 1);
      CountStep(rs, run, m, k - 1, k);
    }
  }

  /** The fragments of `m` that are held are those gathered since `s`, where it was handed over for the last time. */
  ghost predicate Since(run: seq<Arrival>, states: seq<State>, rs: seq<Rx>, maxPayload: nat, m: Message, s: nat, k: nat)
    requires m.p > 0 && NumFrags(m) > 0 && s <= k <= |run| && |rs| == |states| == |run| + 1
    requires forall j | 0 <= j < |run| :: Arrives(run[j])
  {
    && (s > 0 ==> HandsOver(rs, run, m, s - 1))
    && Pile(Held(states[k], m), SpoiltNow(states[k], m)) == Gathered(m, run, maxPayload, s, k)
    && !Complete(m, Held(states[k], m))
    && Deliveries(rs, run, m, s) == Deliveries(rs, run, m, k)
    && Splits(m, run, maxPayload, s, Deliveries(rs, run, m, k))
  }

  lemma EmptyIncomplete(m: Message)
    requires Honest(m)
    ensures !Complete(m, {})
  {
    var none: set<nat> := {};
    assert 0 !in none && NumFrags(m) > 0;
  }

  lemma GatheredStep(m: Message, run: seq<Arrival>, maxPayload: nat, s: nat, j: nat, k: nat)
    requires m.p > 0 && NumFrags(m) > 0 && s <= j < |run| && k == j + 1
    ensures Gathered(m, run, maxPayload, s, k) == Taken(m, Gathered(m, run, maxPayload, s, j), run[j], maxPayload)
  {
  }

  /** What is held grows as what is gathered, and a payload is handed over when that is whole. */
  lemma PileStep(sent: map<u32, Message>, run: seq<Arrival>, states: seq<State>, rs: seq<Rx>, maxPayload: nat,
                 m: Message, s: nat, j: nat, k: nat)
    requires Heard(sent, run, states, rs, maxPayload, m) && s <= j < |run| && k == j + 1
    requires Since(run, states, rs, maxPayload, m, s, j)
    ensures HandsOver(rs, run, m, j) <==> Whole(m, run, maxPayload, s, k)
    ensures Pile(Held(states[k], m), SpoiltNow(states[k], m))
            == if HandsOver(rs, run, m, j) then NO_PILE else Gathered(m, run, maxPayload, s, k)
  {
    HeldStep(sent, run, states, rs, maxPayload, m, j, k);
    TogetherAt(sent, run, states, rs, maxPayload, j, k);
    EmptyIncomplete(m);
    GatheredStep(m, run, maxPayload, s, j, k);
  }

  lemma SinceNext(sent: map<u32, Message>, run: seq<Arrival>, states: seq<State>, rs: seq<Rx>, maxPayload: nat,
                  m: Message, s: nat, j: nat, k: nat)
    returns (s1: nat)
    requires Heard(sent, run, states, rs, maxPayload, m) && s <= j < |run| && k == j + 1
    requires Since(run, states, rs, maxPayload, m, s, j)
    ensures s1 <= k && Since(run, states, rs, maxPayload, m, s1, k)
  {
    PileStep(sent, run, states, rs, maxPayload, m, s, j, k);
    CountStep(rs, run, m, j, k);
    EmptyIncomplete(m);
    s1 := if HandsOver(rs, run, m, j) then k else s;
  }

  lemma {:induction false} SinceSome(sent: map<u32, Message>, run: seq<Arrival>, states: seq<State>, rs: seq<Rx>,
                                     maxPayload: nat, m: Message, k: nat)
    returns (s: nat)
    requires Heard(sent, run, states, rs, maxPayload, m) && k <= |run|
    ensures s <= k && Since(run, states, rs, maxPayload, m, s, k)
  {
    if k == 0 {
      s := 0;
      EmptyIncomplete(m);
    } else {
      s := SinceSome(sent, run, states, rs, maxPayload, m, k - 1);
      s := SinceNext(sent, run, states, rs, maxPayload, m, s, k - 1, k);
    }
  }

  /** In every interval that brings all fragments the message is handed over at least once. */
  lemma WholeDelivers(sent: map<u32, Message>, run: seq<Arrival>, states: seq<State>, rs: seq<Rx>, maxPayload: nat,
                      m: Message, lo: nat, hi: nat)
    requires Heard(sent, run, states, rs, maxPayload, m) && lo <= hi <= |run| && Whole(m, run, maxPayload, lo, hi)
    ensures Deliveries(rs, run, m, lo) < Deliveries(rs, run, m, hi)
  {
    var s := SinceSome(sent, run, states, rs, maxPayload, m, hi);
    if s <= lo {
      GatheredMonotone(m, run, maxPayload, s, lo, hi);
    } else {
      CountStep(rs, run, m, s - 1, s);
      CountGrows(rs, run, m, lo, s - 1);
    }
  }

  lemma SplitsLater(m: Message, run: seq<Arrival>, maxPayload: nat, j: nat, k: nat, n: nat)
    requires m.p > 0 && NumFrags(m) > 0 && j <= k <= |run| && Splits(m, run, maxPayload, j, n)
    ensures Splits(m, run, maxPayload, k, n)
  {
  }

  lemma {:induction false} SplitsFewer(m: Message, run: seq<Arrival>, maxPayload: nat, k: nat, n: nat, c: nat)
    requires m.p > 0 && NumFrags(m) > 0 && k <= |run| && n <= c && Splits(m, run, maxPayload, k, c)
    ensures Splits(m, run, maxPayload, k, n)
    decreases c
  {
    if n < c {
      var lo, hi :| 0 <= lo <= hi <= k && Whole(m, run, maxPayload, lo, hi) && Splits(m, run, maxPayload, lo, c - 1);
      SplitsLater(m, run, maxPayload, lo, k, c - 1);
      SplitsFewer(m, run, maxPayload, k, n, c - 1);
    }
  }

  lemma {:induction false} SplitsBound(sent: map<u32, Message>, run: seq<Arrival>, states: seq<State>, rs: seq<Rx>,
                                       maxPayload: nat, m: Message, k: nat, n: nat)
    requires Heard(sent, run, states, rs, maxPayload, m) && k <= |run| && Splits(m, run, maxPayload, k, n)
    ensures n <= Deliveries(rs, run, m, k)
    decreases n
  {
    if n > 0 {
      var lo, hi :| 0 <= lo <= hi <= k && Whole(m, run, maxPayload, lo, hi) && Splits(m, run, maxPayload, lo, n - 1);
      SplitsBound(sent, run, states, rs, maxPayload, m, lo, n - 1);
      WholeDelivers(sent, run, states, rs, maxPayload, m, lo, hi);
      CountGrows(rs, run, m, hi, k);
    }
  }

  /** How often a message is handed over: over every honest run with loss, reordering and repeats, exactly as often as
      the greatest number of disjoint intervals of the run that each bring all its fragments. An order with repeats
      hands it over again with every further complete set. */
  lemma DeliveriesAreDisjointSets(sent: map<u32, Message>, run: seq<Arrival>, rs: seq<Rx>, maxPayload: nat, m: Message,
                                  k: nat, n: nat)
    requires Receives(sent, run, rs, maxPayload) && SentAs(sent, m) && Honest(m) && Acceptable(m, maxPayload)
    requires k <= |run|
    ensures n <= Deliveries(rs, run, m, k) <==> Splits(m, run, maxPayload, k, n)
  {
    var states := StatesOf(run, maxPayload);
    var c := Deliveries(rs, run, m, k);
    if n <= c {
      var s := SinceSome(sent, run, states, rs, maxPayload, m, k);
      SplitsLater(m, run, maxPayload, s, k, c);
      SplitsFewer(m, run, maxPayload, k, n, c);
    }
    if Splits(m, run, maxPayload, k, n) {
      SplitsBound(sent, run, states, rs, maxPayload, m, k, n);
    }
  }

  /** The interval that ends with arrival `j` begins behind the previous time the message was handed over. */
  ghost predicate Interval(rs: seq<Rx>, run: seq<Arrival>, m: Message, s: nat, j: nat)
    requires s <= j < |run| && |rs| == |run| + 1 && forall j | 0 <= j < |run| :: Arrives(run[j])
  {
    && (s > 0 ==> HandsOver(rs, run, m, s - 1))
    && Deliveries(rs, run, m, s) == Deliveries(rs, run, m, j)
  }

  /** Which payloads are whole: what is handed over comes from the arrivals since the message was handed over before,
      and is the message itself unless those left its final fragment misplaced. */
  lemma DeliveredWhole(sent: map<u32, Message>, run: seq<Arrival>, rs: seq<Rx>, maxPayload: nat, m: Message, j: nat,
                       k: nat)
    returns (s: nat)
    requires Receives(sent, run, rs, maxPayload) && SentAs(sent, m) && Honest(m) && Acceptable(m, maxPayload)
    requires j < |run| && k == j + 1 && HandsOver(rs, run, m, j)
    ensures s <= j && Interval(rs, run, m, s, j) && Whole(m, run, maxPayload, s, k)
    ensures AllButFinal(m, Result(rs, WireRun(run), j).assembled.value)
    ensures !Gathered(m, run, maxPayload, s, k).spoilt ==> Result(rs, WireRun(run), j).assembled == Some(m.data)
  {
    var states := StatesOf(run, maxPayload);
    s := SinceSome(sent, run, states, rs, maxPayload, m, j);
    HeldStep(sent, run, states, rs, maxPayload, m, j, k);
    HandsOverAlike(sent, run, states, rs, maxPayload, j, k);
    SettledRun(sent, run, states, maxPayload, j);
    OwnStep(sent, states[j], m, run[j].i, maxPayload);
    assert Gathered(m, run, maxPayload, s, k) == Taken(m, Gathered(m, run, maxPayload, s, j), run[j], maxPayload);
  }
}
