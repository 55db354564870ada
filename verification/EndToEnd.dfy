/** One message through codec, fragmentation and reassembly, and the same datagrams once more; the types that put
    source and target together. */
module EndToEnd {
  import opened Options
  import opened Bytes
  import opened Wire
  import opened Codec
  import opened Source
  import opened Target
  import opened Deltas
  import F = Fragmentation
  import R = Reassembly
  import C = Channel

  // ---------- one message through the datagram layer ----------

  /** The target after a series of datagrams. */
  function FeedAll(codec: Codec, s: TargetState, ds: seq<seq<byte>>): (r: TargetState)
    requires ValidState(s) && Bounded(codec)
    ensures ValidState(r)
  {
    if ds == [] then s
    else OnPacket(codec, FeedAll(codec, s, ds[..|ds| - 1]), Parse(ds[|ds| - 1])).0
  }

  /** The receiver is ready for fragment `k` of `m`, having the ones before it. */
  ghost predicate Collecting(m: F.Message, k: nat, rx: R.Rx, maxPayload: nat)
    requires C.Honest(m)
  {
    && C.Ready(m, C.Indices(k), rx) && |rx.buf| == maxPayload
    && (k > 0 ==> rx.lastSourceUs == m.sourceUs)
  }

  lemma NextIndex(m: F.Message, k: nat)
    requires m.p > 0 && k < F.NumFrags(m)
    ensures !C.Blind(m, k, C.Indices(k))
    ensures C.GotAfter(m, C.Indices(k), k) == C.Indices(k + 1)
    ensures C.Complete(m, C.Indices(k + 1)) <==> k + 1 == F.NumFrags(m)
  {
    if k > 0 {
      assert 0 in C.Indices(k);
    }
    if k + 1 < F.NumFrags(m) {
      assert k + 1 !in C.Indices(k + 1);
    }
  }

  /** One datagram in order. */
  lemma FeedOne(codec: Codec, s: TargetState, m: F.Message, k: nat)
    requires ValidState(s) && Bounded(codec) && C.Honest(m) && k < F.NumFrags(m)
    requires Collecting(m, k, s.rx, |s.rx.buf|)
    ensures var s1 := OnPacket(codec, s, Parse(F.Datagram(m, k))).0;
            && |s1.rx.buf| == |s.rx.buf|
            && (k + 1 < F.NumFrags(m) ==> s1.t == s.t && Collecting(m, k + 1, s1.rx, |s.rx.buf|))
            && (k + 1 == F.NumFrags(m) ==>
                  s1.t == Message(s.t, m.bufOffset, codec.decompress(m.data)) && s1.rx.currentSeq == None)
  {
    C.DatagramParses(m, k);
    NextIndex(m, k);
    C.CollectStep(m, C.Indices(k), s.rx, k);
  }

  lemma FeedLast(codec: Codec, s: TargetState, m: F.Message, j: nat, k: nat)
    requires ValidState(s) && Bounded(codec) && C.Honest(m) && j < F.NumFrags(m) && k == j + 1
    ensures FeedAll(codec, s, F.Datagrams(m)[..k])
            == OnPacket(codec, FeedAll(codec, s, F.Datagrams(m)[..j]), Parse(F.Datagram(m, j))).0
  {
    assert F.Datagrams(m)[..k][..j] == F.Datagrams(m)[..j];
  }

  lemma FeedNone(codec: Codec, s: TargetState, m: F.Message)
    requires ValidState(s) && Bounded(codec) && C.Honest(m) && C.Acceptable(m, |s.rx.buf|) && s.rx.currentSeq == None
    ensures FeedAll(codec, s, F.Datagrams(m)[..0]) == s && Collecting(m, 0, s.rx, |s.rx.buf|)
  {
    assert C.Indices(0) == {};
  }

  lemma {:induction false} FeedPrefix(codec: Codec, s: TargetState, m: F.Message, k: nat)
    requires ValidState(s) && Bounded(codec) && C.Honest(m) && C.Acceptable(m, |s.rx.buf|)
    requires s.rx.currentSeq == None && k < F.NumFrags(m)
    ensures var s1 := FeedAll(codec, s, F.Datagrams(m)[..k]);
            s1.t == s.t && |s1.rx.buf| == |s.rx.buf| && Collecting(m, k, s1.rx, |s.rx.buf|)
  {
    if k > 0 {
      FeedPrefix(codec, s, m, k - 1);
      FeedLast(codec, s, m, k - 1, k);
      FeedOne(codec, FeedAll(codec, s, F.Datagrams(m)[..k - 1]), m, k - 1);
    } else {
      FeedNone(codec, s, m);
    }
  }

  /** A message whose datagrams all arrive in order is applied once, and the receiver is idle again. */
  lemma FeedMessage(codec: Codec, s: TargetState, m: F.Message)
    requires ValidState(s) && Bounded(codec) && C.Honest(m) && C.Acceptable(m, |s.rx.buf|)
    requires s.rx.currentSeq == None
    ensures var s1 := FeedAll(codec, s, F.Datagrams(m));
            && s1.t == Message(s.t, m.bufOffset, codec.decompress(m.data))
            && s1.rx.currentSeq == None && |s1.rx.buf| == |s.rx.buf|
  {
    var last := F.NumFrags(m) - 1;
    FeedPrefix(codec, s, m, last);
    FeedLast(codec, s, m, last, last + 1);
    assert F.Datagrams(m)[..last + 1] == F.Datagrams(m);
    FeedOne(codec, FeedAll(codec, s, F.Datagrams(m)[..last]), m, last);
  }

  /** The receiver does not recognise a message it has completed: the same datagrams again are the message again. */
  lemma ReplayAppliesAgain(codec: Codec, s: TargetState, m: F.Message)
    requires ValidState(s) && Bounded(codec) && C.Honest(m) && C.Acceptable(m, |s.rx.buf|)
    requires s.rx.currentSeq == None
    ensures var dec := codec.decompress(m.data);
            FeedAll(codec, FeedAll(codec, s, F.Datagrams(m)), F.Datagrams(m)).t
            == Message(Message(s.t, m.bufOffset, dec), m.bufOffset, dec)
  {
    FeedMessage(codec, s, m);
    FeedMessage(codec, FeedAll(codec, s, F.Datagrams(m)), m);
  }

  /** A delta that is applied twice in this way takes back the first application. */
  lemma ReplayedDeltaIsUndone(t: Tgt, f: Frame)
    requires ValidTgt(t) && t.hasFull && Usable(f) && IsDelta(f)
    ensures var t2 := Message(Message(t, f.bufOffset, Some(f.payload)), f.bufOffset, Some(f.payload));
            t2.prev == t.prev
  {
    var L := |f.payload|;
    var t1 := Message(t, f.bufOffset, Some(f.payload));
    TargetApplies(t, f);
    XorCommutes(f.payload, t.prev[..L]);
    XorCommutes(f.payload, t1.prev[..L]);
    XorCancel(t.prev[..L], f.payload);
    SpliceTwice(t.prev, t1.prev[..L], t.prev[..L]);
  }

  lemma SpliceTwice(s: seq<byte>, a: seq<byte>, b: seq<byte>)
    requires |a| == |b| <= |s| && b == s[..|b|]
    ensures Splice(Splice(s, 0, a), 0, b) == s
  {
  }

  // ---------- source and target together ----------

  datatype Link = Link(cfg: Config, codec: Codec, p: nat)

  datatype World = World(src: Src, sequence: u32, target: TargetState)

  /** Both sides have just started. */
  function StartOf(maxPayload: nat): World {
    World(Initial(), 0, TargetState(InitialTgt(), R.Initial(maxPayload), false, 0))
  }

  ghost predicate ValidWorld(link: Link, w: World) {
    ValidSrc(w.src) && ValidState(w.target) && Bounded(link.codec) && link.p > 0
  }

  /** The message a frame travels in. */
  function Envelope(link: Link, sequence: u32, f: Frame, sourceUs: u64): F.Message {
    F.Message(sequence, sourceUs, f.bufOffset, link.codec.compress(f.payload), link.p)
  }
}
