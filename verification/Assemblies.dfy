/** What the receiver makes of one message over a whole run: which of its fragments it holds, where an assembly began,
    and that whatever it hands over is one sent message. */
module Assemblies {
  import opened Options
  import opened Bytes
  import opened Wire
  import opened Fragmentation
  import opened Reassembly
  import opened Channel
  import opened Misplaced
  import opened Assembler

  // ---------- the assembler's view of one message ----------

  /** The fragments of `m` that count as received. */
  function Held(a: State, m: Message): set<nat> {
    if a.phase.Collecting? && a.phase.m.sequence == m.sequence then a.phase.got else {}
  }

  predicate SpoiltNow(a: State, m: Message) {
    a.phase.Collecting? && a.phase.m.sequence == m.sequence && a.phase.spoilt
  }

  /** What holds of the assembler throughout an honest run. */
  ghost predicate Settled(sent: map<u32, Message>, a: State, maxPayload: nat) {
    match a.phase
    case Idle => true
    case Ignoring(m) => SentAs(sent, m) && Honest(m) && !Acceptable(m, maxPayload)
    case Collecting(m, got, spoilt) =>
      SentAs(sent, m) && Honest(m) && Acceptable(m, maxPayload) && !Complete(m, got) && (spoilt ==> got != {})
  }

  lemma StepSettled(sent: map<u32, Message>, a: State, x: Arrival, maxPayload: nat)
    requires Settled(sent, a, maxPayload) && Arrives(x) && (x.Frag? ==> SentAs(sent, x.m))
    ensures Settled(sent, Step(a, x, maxPayload).0, maxPayload)
  {
  }

  lemma {:induction false} SettledRun(sent: map<u32, Message>, run: seq<Arrival>, states: seq<State>, maxPayload: nat,
                                      k: nat)
    requires HonestRun(sent, run) && AssemblerRun(states, run, maxPayload) && k <= |run|
    ensures Settled(sent, states[k], maxPayload)
  {
    if k > 0 {
      SettledRun(sent, run, states, maxPayload, k - 1);
      assert Moves(states, run, maxPayload, k - 1);
      StepSettled(sent, states[k - 1], run[k - 1], maxPayload);
    }
  }

  /** A fragment of `m` arrives. */
  lemma OwnStep(sent: map<u32, Message>, a: State, m: Message, i: nat, maxPayload: nat)
    requires Settled(sent, a, maxPayload) && SentAs(sent, m) && Honest(m)
    requires i < NumFrags(m) && Acceptable(m, maxPayload)
    ensures var (a1, out) := Step(a, Frag(m, i), maxPayload);
            var got := Kept(m, Held(a, m), i, maxPayload);
            var spoilt := SpoiltNow(a, m) || Misplaces(m, i, Held(a, m), maxPayload);
            if Complete(m, got) then a1.phase == Idle && out == Some(Handed(m, spoilt))
            else a1.phase == Collecting(m, got, spoilt) && out == None
  {
  }

  /** Anything else arrives: a heartbeat changes nothing, and a fragment of another sequence lets go of `m`. */
  lemma OtherStep(sent: map<u32, Message>, a: State, x: Arrival, m: Message, maxPayload: nat)
    requires Settled(sent, a, maxPayload) && Arrives(x)
    requires x.Frag? ==> SentAs(sent, x.m) && x.m.sequence != m.sequence
    ensures var (a1, out) := Step(a, x, maxPayload);
            && (out.Some? ==> out.value.m != m)
            && (x.Beat? ==> a1 == a && out == None)
            && (x.Frag? ==> Held(a1, m) == {} && !SpoiltNow(a1, m))
  {
  }

  // ---------- the receiver's view of it ----------

  /** The receiver stores the fragment of this datagram. */
  predicate Stores(rx: Rx, packet: Packet)
    requires Sane(rx)
  {
    packet.Packet? && packet.header.fragments != 0
    && Store(Opened(rx, packet.header), packet.header.fragment, packet.payload).1
  }

  /** What a receiver that has the fragments `got` of `m` does with fragment `i`. */
  ghost predicate StoresNew(m: Message, got: set<nat>, rx: Rx, i: nat)
    requires Honest(m) && i < NumFrags(m) && Sane(rx)
  {
    var o := Opened(rx, PacketOf(m, i).header);
    && (Stores(rx, PacketOf(m, i)) <==> i !in got && !(Blind(m, i, got) && GuessOverflows(m, |rx.buf|)))
    && o.gotFrags == |got|
    && (Stores(rx, PacketOf(m, i)) ==> Store(o, i, Chunk(m, i)).0.gotFrags == |got| + 1)
  }

  lemma SpoiltStores(m: Message, got: set<nat>, rx: Rx, i: nat)
    requires Honest(m) && i < NumFrags(m) && Spoilt(m, got, rx)
    ensures StoresNew(m, got, rx, i)
  {
    var open := if i == 0 then rx.(lastSourceUs := m.sourceUs) else rx;
    assert Opened(rx, PacketOf(m, i).header) == open;
    SpoiltStore(m, got, open, i);
    if i !in got {
      assert |got + {i}| == |got| + 1;
    }
  }

  lemma MisplacedStores(m: Message, got: set<nat>, rx: Rx, i: nat)
    requires Honest(m) && i < NumFrags(m) && Ready(m, got, rx) && Misplaces(m, i, got, |rx.buf|)
    ensures StoresNew(m, got, rx, i)
  {
    var h := PacketOf(m, i).header;
    OpenedHolds(m, got, rx, h, Chunk(m, i), i);
    GuessStored(m, Opened(rx, h));
  }

  lemma CleanStores(m: Message, got: set<nat>, rx: Rx, i: nat)
    requires Honest(m) && i < NumFrags(m) && Ready(m, got, rx) && !Misplaces(m, i, got, |rx.buf|)
    ensures StoresNew(m, got, rx, i)
  {
    var h := PacketOf(m, i).header;
    OpenedHolds(m, got, rx, h, Chunk(m, i), i);
    StoreHolds(m, got, Opened(rx, h), Chunk(m, i), i);
    if i !in got {
      assert |got + {i}| == |got| + 1;
    }
  }

  /** In the place it belongs to or not, a fragment is stored exactly when it is not there yet, unless its place has to
      be guessed and the guess lies outside the buffer. */
  lemma StoresIff(a: State, rx: Rx, m: Message, i: nat)
    requires Related(a, rx) && Honest(m) && Acceptable(m, |rx.buf|) && i < NumFrags(m)
    requires !a.phase.Idle? && a.phase.m.sequence == m.sequence ==> a.phase.Collecting? && a.phase.m == m
    ensures StoresNew(m, Held(a, m), rx, i)
  {
    if SpoiltNow(a, m) {
      SpoiltStores(m, Held(a, m), rx, i);
    } else if Misplaces(m, i, Held(a, m), |rx.buf|) {
      MisplacedStores(m, Held(a, m), rx, i);
    } else {
      CleanStores(m, Held(a, m), rx, i);
    }
  }

  /** The assembler's states over any run of arrivals. */
  function StatesOf(run: seq<Arrival>, maxPayload: nat): (states: seq<State>)
    requires forall k | 0 <= k < |run| :: Arrives(run[k])
    ensures AssemblerRun(states, run, maxPayload)
  {
    if run == [] then [State(Idle, 0)]
    else
      var last := |run| - 1;
      var states := StatesOf(run[..last], maxPayload);
      var states1 := states + [Step(states[last], run[last], maxPayload).0];
      assert forall k | 0 <= k < |run| :: Moves(states1, run, maxPayload, k) by {
        forall k | 0 <= k < |run| ensures Moves(states1, run, maxPayload, k) {
          if k < last {
            assert Moves(states, run[..last], maxPayload, k);
          }
        }
      }
      states1
  }

  /** The receiver's states over an honest run, from its start. */
  ghost predicate Receives(sent: map<u32, Message>, run: seq<Arrival>, rs: seq<Rx>, maxPayload: nat) {
    HonestRun(sent, run) && Run(rs, WireRun(run)) && rs[0] == Initial(maxPayload)
  }

  /** A fragment of `m` arrives and the receiver hands over a payload. */
  predicate HandsOver(rs: seq<Rx>, run: seq<Arrival>, m: Message, k: nat)
    requires k < |run| && |rs| == |run| + 1 && forall j | 0 <= j < |run| :: Arrives(run[j])
  {
    && Takes(rs, WireRun(run), k) && run[k].Frag? && run[k].m == m
    && Result(rs, WireRun(run), k).assembled.Some?
  }

  /** Arrival `j` makes the receiver forget the fragments of `m`: it completes `m`, or belongs to another sequence. */
  predicate Disturbs(rs: seq<Rx>, run: seq<Arrival>, m: Message, j: nat)
    requires j < |run| && |rs| == |run| + 1 && forall j | 0 <= j < |run| :: Arrives(run[j])
  {
    HandsOver(rs, run, m, j) || (run[j].Frag? && run[j].m.sequence != m.sequence)
  }

  ghost predicate Calm(rs: seq<Rx>, run: seq<Arrival>, m: Message, y: nat, k: nat)
    requires k <= |run| && |rs| == |run| + 1 && forall j | 0 <= j < |run| :: Arrives(run[j])
  {
    forall j | y <= j < k :: !Disturbs(rs, run, m, j)
  }

  predicate StoredAt(rs: seq<Rx>, run: seq<Arrival>, m: Message, i: nat, y: nat)
    requires y < |run| && |rs| == |run| + 1 && Arrives(run[y])
  {
    run[y] == Frag(m, i) && Sane(rs[y]) && Stores(rs[y], Seen(run[y]))
  }

  /** An honest run in which `m` was sent and is not refused, with the assembler beside the receiver. */
  ghost predicate Heard(sent: map<u32, Message>, run: seq<Arrival>, states: seq<State>, rs: seq<Rx>, maxPayload: nat,
                        m: Message) {
    && Together(sent, run, states, rs, maxPayload)
    && SentAs(sent, m) && Honest(m) && Acceptable(m, maxPayload)
  }

  /** What the assembler has of `m` before arrival `j`, from receiver and arrival alone. */
  lemma HeldStep(sent: map<u32, Message>, run: seq<Arrival>, states: seq<State>, rs: seq<Rx>, maxPayload: nat,
                 m: Message, j: nat, k: nat)
    requires Heard(sent, run, states, rs, maxPayload, m) && j < |run| && k == j + 1
    ensures Held(states[k], m)
            == if Disturbs(rs, run, m, j) then {}
               else if run[j].Frag? then Kept(m, Held(states[j], m), run[j].i, maxPayload)
               else Held(states[j], m)
    ensures SpoiltNow(states[k], m)
            <==> !Disturbs(rs, run, m, j)
                 && (SpoiltNow(states[j], m)
                     || (run[j].Frag? && Misplaces(m, run[j].i, Held(states[j], m), maxPayload)))
    ensures HandsOver(rs, run, m, j)
            <==> run[j].Frag? && run[j].m == m && Complete(m, Kept(m, Held(states[j], m), run[j].i, maxPayload))
  {
    SettledRun(sent, run, states, maxPayload, j);
    HandsOverAlike(sent, run, states, rs, maxPayload, j, k);
    TogetherAt(sent, run, states, rs, maxPayload, j, k);
    if run[j].Frag? && run[j].m.sequence == m.sequence {
      OwnStep(sent, states[j], m, run[j].i, maxPayload);
    } else {
      OtherStep(sent, states[j], run[j], m, maxPayload);
    }
  }

  /** A fragment of `m` is stored in terms of what is held; and it begins an assembly when nothing was. */
  lemma StoredStep(sent: map<u32, Message>, run: seq<Arrival>, states: seq<State>, rs: seq<Rx>, maxPayload: nat,
                   m: Message, i: nat, j: nat)
    requires Heard(sent, run, states, rs, maxPayload, m) && j < |run| && run[j] == Frag(m, i)
    ensures Arrives(run[j]) && Sane(rs[j])
    ensures var got := Held(states[j], m);
            && (StoredAt(rs, run, m, i, j) <==> i !in got && !(Blind(m, i, got) && GuessOverflows(m, maxPayload)))
            && (Begins(rs[j], Seen(run[j])) <==> StoredAt(rs, run, m, i, j) && got == {})
  {
    SettledRun(sent, run, states, maxPayload, j);
    RunRefines(sent, run, states, rs, maxPayload, j);
    TogetherAt(sent, run, states, rs, maxPayload, j, j + 1);
    StoresIff(states[j], rs[j], m, i);
  }

  /** A fragment that is held from arrival `j` on was stored there. */
  lemma HeldNow(sent: map<u32, Message>, run: seq<Arrival>, states: seq<State>, rs: seq<Rx>, maxPayload: nat,
                m: Message, i: nat, j: nat, k: nat)
    requires Heard(sent, run, states, rs, maxPayload, m) && j < |run| && k == j + 1
    requires i in Held(states[k], m)
    ensures Arrives(run[j]) && !Disturbs(rs, run, m, j)
    ensures i !in Held(states[j], m) ==> StoredAt(rs, run, m, i, j)
  {
    HeldStep(sent, run, states, rs, maxPayload, m, j, k);
    TogetherAt(sent, run, states, rs, maxPayload, j, k);
    if i !in Held(states[j], m) {
      assert run[j].Frag? && run[j].i == i;
      assert run[j].m == m;
      StoredStep(sent, run, states, rs, maxPayload, m, i, j);
    }
  }

  /** A fragment that is held was stored, and nothing has disturbed it since. */
  lemma {:induction false} HeldSince(sent: map<u32, Message>, run: seq<Arrival>, states: seq<State>, rs: seq<Rx>,
                                     maxPayload: nat, m: Message, i: nat, k: nat)
    returns (x: nat)
    requires Heard(sent, run, states, rs, maxPayload, m) && k <= |run| && i in Held(states[k], m)
    ensures x < k && Arrives(run[x]) && StoredAt(rs, run, m, i, x) && Calm(rs, run, m, x, k)
  {
    var j := k - 1;
    HeldNow(sent, run, states, rs, maxPayload, m, i, j, k);
    if i in Held(states[j], m) {
      x := HeldSince(sent, run, states, rs, maxPayload, m, i, j);
    } else {
      x := j;
    }
  }

  lemma {:induction false} StaysHeld(sent: map<u32, Message>, run: seq<Arrival>, states: seq<State>, rs: seq<Rx>,
                                     maxPayload: nat, m: Message, i: nat, y: nat, k: nat)
    requires Heard(sent, run, states, rs, maxPayload, m) && y < k <= |run|
    requires Arrives(run[y]) && StoredAt(rs, run, m, i, y) && Calm(rs, run, m, y, k)
    ensures i in Held(states[k], m)
    decreases k
  {
    HeldStep(sent, run, states, rs, maxPayload, m, k - 1, k);
    assert !Disturbs(rs, run, m, k - 1);
    if y < k - 1 {
      StaysHeld(sent, run, states, rs, maxPayload, m, i, y, k - 1);
    } else {
      StoredStep(sent, run, states, rs, maxPayload, m, i, y);
    }
  }

  // ---------- where an assembly began ----------

  predicate BeginsAt(rs: seq<Rx>, run: seq<Arrival>, y: nat)
    requires y < |run| && |rs| == |run| + 1 && Arrives(run[y])
  {
    Sane(rs[y]) && Begins(rs[y], Seen(run[y]))
  }

  /** Arrival `x` stored the first fragment of `m`, and none before arrival `k` has begun another assembly. */
  ghost predicate LatestBegin(rs: seq<Rx>, run: seq<Arrival>, m: Message, x: nat, k: nat)
    requires x < k <= |run| && |rs| == |run| + 1 && forall j | 0 <= j < |run| :: Arrives(run[j])
  {
    && BeginsAt(rs, run, x) && run[x].Frag? && run[x].m == m
    && forall y | x < y < k :: !BeginsAt(rs, run, y)
  }

  lemma BeatBeginsNothing(rx: Rx)
    requires Sane(rx)
    ensures !Begins(rx, Seen(Beat))
  {
  }

  /** An assembly in progress is spoilt exactly when it began with a blind final fragment. */
  lemma {:induction false} AssemblyBegan(sent: map<u32, Message>, run: seq<Arrival>, states: seq<State>, rs: seq<Rx>,
                                         maxPayload: nat, m: Message, k: nat)
    returns (x: nat)
    requires Heard(sent, run, states, rs, maxPayload, m) && k <= |run| && Held(states[k], m) != {}
    ensures x < k && LatestBegin(rs, run, m, x, k) && (SpoiltNow(states[k], m) <==> Blind(m, run[x].i, {}))
  {
    var j := k - 1;
    HeldStep(sent, run, states, rs, maxPayload, m, j, k);
    if run[j].Frag? {
      StoredStep(sent, run, states, rs, maxPayload, m, run[j].i, j);
    } else {
      TogetherAt(sent, run, states, rs, maxPayload, j, k);
      BeatBeginsNothing(rs[j]);
    }
    if Held(states[j], m) != {} {
      x := AssemblyBegan(sent, run, states, rs, maxPayload, m, j);
    } else {
      x := j;
      SettledRun(sent, run, states, maxPayload, j);
    }
  }

  /** The payload `d` is the message, except that its final chunk may be wrong when the assembly began with fragment
      `first` and the place of that one had to be guessed. */
  predicate Sound(m: Message, first: nat, d: seq<byte>)
    requires Honest(m)
  {
    AllButFinal(m, d) && (!Blind(m, first, {}) ==> d == m.data)
  }

  /** What arrival `j` hands over is one sent message, assembled from arrival `x` on. */
  ghost predicate HandsOverSound(rs: seq<Rx>, run: seq<Arrival>, x: nat, j: nat)
    requires x <= j < |run| && |rs| == |run| + 1 && (forall j | 0 <= j < |run| :: Arrives(run[j]))
    requires run[j].Frag? && HandsOver(rs, run, run[j].m, j)
  {
    var m, r := run[j].m, Result(rs, WireRun(run), j);
    && LatestBegin(rs, run, m, x, j + 1)
    && Sound(m, run[x].i, r.assembled.value) && r.bufOffset == m.bufOffset && rs[j + 1].lastSourceUs == m.sourceUs
  }

  lemma HandedIsHeard(sent: map<u32, Message>, run: seq<Arrival>, states: seq<State>, rs: seq<Rx>, maxPayload: nat,
                      j: nat, k: nat)
    requires Together(sent, run, states, rs, maxPayload) && j < |run| && k == j + 1
    requires Takes(rs, WireRun(run), j) && Result(rs, WireRun(run), j).assembled.Some?
    ensures run[j].Frag? && HandsOver(rs, run, run[j].m, j)
    ensures Heard(sent, run, states, rs, maxPayload, run[j].m)
  {
    HandsOverAlike(sent, run, states, rs, maxPayload, j, k);
    SettledRun(sent, run, states, maxPayload, j);
    assert Moves(states, run, maxPayload, j);
  }

  lemma HandedBegan(sent: map<u32, Message>, run: seq<Arrival>, states: seq<State>, rs: seq<Rx>, maxPayload: nat,
                    j: nat, k: nat)
    returns (x: nat)
    requires Together(sent, run, states, rs, maxPayload) && j < |run| && k == j + 1
    requires run[j].Frag? && HandsOver(rs, run, run[j].m, j)
    requires Heard(sent, run, states, rs, maxPayload, run[j].m)
    ensures x <= j && LatestBegin(rs, run, run[j].m, x, k)
    ensures Moves(states, run, maxPayload, j) && Delivered(states, run, maxPayload, j).Some?
    ensures Delivered(states, run, maxPayload, j).value.spoilt <==> Blind(run[j].m, run[x].i, {})
  {
    var m := run[j].m;
    HandsOverAlike(sent, run, states, rs, maxPayload, j, k);
    HeldStep(sent, run, states, rs, maxPayload, m, j, k);
    StoredStep(sent, run, states, rs, maxPayload, m, run[j].i, j);
    SettledRun(sent, run, states, maxPayload, j);
    OwnStep(sent, states[j], m, run[j].i, maxPayload);
    if Held(states[j], m) != {} {
      x := AssemblyBegan(sent, run, states, rs, maxPayload, m, j);
    } else {
      x := j;
      FirstCompletes(m, run[j].i, maxPayload);
    }
  }

  /** A message that its first fragment completes has no other. */
  lemma FirstCompletes(m: Message, i: nat, maxPayload: nat)
    requires Honest(m) && i < NumFrags(m) && Complete(m, Kept(m, {}, i, maxPayload))
    ensures NumFrags(m) == 1 && Kept(m, {}, i, maxPayload) == {i}
  {
    var none: set<nat> := {};
    var got := Kept(m, none, i, maxPayload);
    assert none + {i} == {i};
    assert 0 in got && NumFrags(m) - 1 in got;
  }

  /** No mixing, over every honest run with loss, reordering, repeats and heartbeats: whatever the receiver hands over
      is the message whose fragment has just arrived, with its own write offset and source time; it is that message byte
      for byte unless its own assembly began with a blind final fragment, and then it can differ in the final chunk
      only. What happened to other messages does not matter. */
  lemma NoMixing(sent: map<u32, Message>, run: seq<Arrival>, rs: seq<Rx>, maxPayload: nat, j: nat)
    requires Receives(sent, run, rs, maxPayload) && j < |run|
    ensures Takes(rs, WireRun(run), j)
    ensures Result(rs, WireRun(run), j).assembled.Some? ==>
              && run[j].Frag? && HandsOver(rs, run, run[j].m, j)
              && exists x | 0 <= x <= j :: HandsOverSound(rs, run, x, j)
  {
    var states := StatesOf(run, maxPayload);
    assert Takes(rs, WireRun(run), j);
    if Result(rs, WireRun(run), j).assembled.Some? {
      HandedIsHeard(sent, run, states, rs, maxPayload, j, j + 1);
      var x := HandedBegan(sent, run, states, rs, maxPayload, j, j + 1);
      HandsOverAlike(sent, run, states, rs, maxPayload, j, j + 1);
      assert HandsOverSound(rs, run, x, j);
    }
  }

  // ---------- what it is made of ----------

  /** Fragment `i` of `m` arrives between arrivals `lo` and `k`. */
  ghost predicate ArrivesWithin(run: seq<Arrival>, m: Message, i: nat, lo: nat, k: nat)
    requires k <= |run|
  {
    exists x | lo <= x < k :: run[x] == Frag(m, i)
  }

  ghost predicate ArrivesWhole(run: seq<Arrival>, m: Message, lo: nat, k: nat)
    requires m.p > 0 && k <= |run|
  {
    forall i | 0 <= i < NumFrags(m) :: ArrivesWithin(run, m, i, lo, k)
  }

  /** What is held after a moment at which nothing was held has arrived since. */
  lemma HeldArrived(sent: map<u32, Message>, run: seq<Arrival>, states: seq<State>, rs: seq<Rx>, maxPayload: nat,
                    m: Message, i: nat, lo: nat, k: nat)
    requires Heard(sent, run, states, rs, maxPayload, m) && lo <= k <= |run|
    requires Held(states[lo], m) == {} && i in Held(states[k], m)
    ensures ArrivesWithin(run, m, i, lo, k)
  {
    var x := HeldSince(sent, run, states, rs, maxPayload, m, i, k);
    if x < lo {
      StaysHeld(sent, run, states, rs, maxPayload, m, i, x, lo);
    }
  }

  /** A payload is only handed over when every fragment of its message has arrived since the last moment at which none
      was held. */
  lemma HandedArrived(sent: map<u32, Message>, run: seq<Arrival>, states: seq<State>, rs: seq<Rx>, maxPayload: nat,
                      m: Message, lo: nat, j: nat, k: nat)
    requires Heard(sent, run, states, rs, maxPayload, m) && lo <= j < |run| && k == j + 1
    requires Held(states[lo], m) == {} && HandsOver(rs, run, m, j)
    ensures ArrivesWhole(run, m, lo, k)
  {
    HeldStep(sent, run, states, rs, maxPayload, m, j, k);
    forall i | 0 <= i < NumFrags(m) ensures ArrivesWithin(run, m, i, lo, k) {
      if i in Held(states[j], m) {
        HeldArrived(sent, run, states, rs, maxPayload, m, i, lo, j);
      } else {
        assert i in Kept(m, Held(states[j], m), run[j].i, maxPayload);
        assert run[j] == Frag(m, i);
      }
    }
  }

  /** The receiver never invents a fragment: when it hands over a payload, every fragment of the message just arriving
      has arrived by then. */
  lemma HandedIsComplete(sent: map<u32, Message>, run: seq<Arrival>, rs: seq<Rx>, maxPayload: nat, j: nat, k: nat)
    requires Receives(sent, run, rs, maxPayload) && j < |run| && k == j + 1
    requires Takes(rs, WireRun(run), j) && Result(rs, WireRun(run), j).assembled.Some?
    ensures run[j].Frag? && run[j].m.p > 0 && ArrivesWhole(run, run[j].m, 0, k)
  {
    var states := StatesOf(run, maxPayload);
    HandedIsHeard(sent, run, states, rs, maxPayload, j, k);
    HandedArrived(sent, run, states, rs, maxPayload, run[j].m, 0, j, k);
  }
}
