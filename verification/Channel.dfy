/** Reassembly over a channel that loses, reorders and duplicates datagrams. The byte-level receiver is
    shown to refine an abstract assembler that only remembers which fragments of which message it has. */
module Channel {
  import opened Options
  import opened Bytes
  import opened Wire
  import opened Fragmentation
  import opened Reassembly

  /** A message the sender accepts and whose datagrams fit the target's 9000-byte receive buffer. */
  predicate Honest(m: Message) {
    Sendable(m) && m.p <= MAX_PAYLOAD_PER_DATAGRAM
  }

  /** What the receiver does not refuse outright. */
  predicate Acceptable(m: Message, maxPayload: nat)
    requires m.p > 0
  {
    NumFrags(m) <= MAX_FRAGMENTS && |m.data| <= maxPayload
  }

  /** All fragments of the message are there. */
  predicate Complete(m: Message, got: set<nat>)
    requires m.p > 0
  {
    forall i | 0 <= i < NumFrags(m) :: i in got
  }

  function UpTo(n: nat): (s: seq<nat>)
    ensures |s| == n && forall i | 0 <= i < n :: s[i] == i
  {
    seq(n, i => i)
  }

  function Indices(n: nat): (s: set<nat>)
    ensures forall i :: i in s <==> 0 <= i < n
  {
    var s := set i | i in UpTo(n);
    forall i: nat | i < n ensures i in s {
      assert UpTo(n)[i] == i;
    }
    s
  }

  lemma {:induction false} IndicesSize(n: nat)
    ensures |Indices(n)| == n
  {
    if n == 0 {
      assert Indices(0) == {};
    } else {
      IndicesSize(n - 1);
      assert Indices(n) == Indices(n - 1) + {n - 1};
    }
  }

  lemma FullSet(s: set<nat>, n: nat)
    requires forall i | i in s :: i < n
    ensures |s| <= n
    ensures |s| == n <==> forall i | 0 <= i < n :: i in s
  {
    var all := Indices(n);
    IndicesSize(n);
    SubsetSize(s, all);
    if forall i | 0 <= i < n :: i in s {
      assert s == all;
    } else {
      var i :| 0 <= i < n && i !in s;
      assert i in all && s != all;
    }
  }

  lemma {:induction false} SubsetSize(s: set<nat>, t: set<nat>)
    requires s <= t
    ensures |s| <= |t|
    ensures |s| == |t| ==> s == t
  {
    if s != {} {
      var x :| x in s;
      SubsetSize(s - {x}, t - {x});
    }
  }

  /** A final fragment that arrives before any other of its message, with `p` below the fallback size: the
      receiver does not know where it belongs. */
  predicate Blind(m: Message, i: nat, got: set<nat>)
    requires m.p > 0
  {
    NumFrags(m) > 1 && i == NumFrags(m) - 1 && m.p != MAX_PAYLOAD_PER_DATAGRAM && got == {}
  }

  /** The guessed place of a blind fragment lies outside the buffer, so the fragment is thrown away. */
  predicate GuessOverflows(m: Message, maxPayload: nat)
    requires m.p > 0 && NumFrags(m) > 0
  {
    var n := NumFrags(m);
    Offset(n - 1, MAX_PAYLOAD_PER_DATAGRAM) + |Chunk(m, n - 1)| > maxPayload
  }

  // ---------- one fragment ----------

  /** The bytes of fragment `i` are where they belong. */
  predicate Placed(m: Message, i: nat, buf: seq<byte>)
    requires m.p > 0
  {
    && i < NumFrags(m) && Offset(i, m.p) + |Chunk(m, i)| <= |buf|
    && buf[Offset(i, m.p)..Offset(i, m.p) + |Chunk(m, i)|] == Chunk(m, i)
  }

  /** The receiver is collecting `m` and has exactly the fragments in `got`, each in its place. */
  ghost predicate Holds(m: Message, got: set<nat>, rx: Rx)
    requires Honest(m)
  {
    var n := NumFrags(m);
    && Sane(rx)
    && rx.currentSeq == Some(m.sequence)
    && rx.totalFrags == n && rx.payloadSize == |m.data| && rx.lastBufOffset == m.bufOffset
    && !Complete(m, got) && Collected(m, got, rx)
  }

  /** The received-map and the fragment counter describe `got`; the fragment size, once detected, is right. */
  ghost predicate Counted(m: Message, got: set<nat>, rx: Rx)
    requires m.p > 0
  {
    var n := NumFrags(m);
    && n <= |rx.received| && |m.data| <= |rx.buf|
    && (forall i | i in got :: i < n)
    && rx.gotFrags == |got|
    && (forall i | 0 <= i < n :: rx.received[i] <==> i in got)
    && (rx.detected == 0 || (got != {} && rx.detected == m.p))
  }

  ghost predicate Collected(m: Message, got: set<nat>, rx: Rx)
    requires Honest(m)
  {
    && Counted(m, got, rx)
    && (got != {} && NumFrags(m) > 1 && m.p != MAX_PAYLOAD_PER_DATAGRAM ==> rx.detected == m.p)
    && forall i {:trigger Placed(m, i, rx.buf)} | i in got :: Placed(m, i, rx.buf)
  }

  /** Fragment `i` of `m` is next: either `m` is being collected or the datagram opens it. */
  ghost predicate Ready(m: Message, got: set<nat>, rx: Rx)
    requires Honest(m)
  {
    Sane(rx) && Acceptable(m, |rx.buf|)
    && (Holds(m, got, rx) || (got == {} && rx.currentSeq != Some(m.sequence)))
  }

  /** The datagram carries fragment `i` of `m`; a repeated fragment may carry anything. */
  predicate Carries(h: Header, data: seq<byte>, m: Message, i: nat, got: set<nat>)
    requires Honest(m)
  {
    && i < NumFrags(m)
    && h.sequence == m.sequence && h.payloadSize == |m.data| && h.fragment == i && h.fragments == NumFrags(m)
    && (got == {} ==> h.bufOffset == m.bufOffset)
    && (i !in got ==> data == Chunk(m, i))
  }

  /** Fragment `i` of `m` as the receiver sees it. */
  function PacketOf(m: Message, i: nat): Packet
    requires Honest(m) && i < NumFrags(m)
  {
    SizeBound(m);
    Packet(Header(m.sourceUs, m.sequence, |m.data|, m.bufOffset, i, NumFrags(m)), Chunk(m, i))
  }

  lemma HeaderIs(m: Message, i: nat)
    requires Honest(m) && i < NumFrags(m)
    ensures HeaderOf(m, i) == PacketOf(m, i).header
  {
    SizeBound(m);
  }

  /** What `send` puts on the wire is read back as exactly that. */
  lemma DatagramParses(m: Message, i: nat)
    requires Honest(m) && i < NumFrags(m)
    ensures Parse(Datagram(m, i)) == PacketOf(m, i)
  {
    HeaderIs(m, i);
    ParseEncoded(HeaderOf(m, i), Chunk(m, i));
  }

  /** The fragments held after fragment `i` arrived. */
  function GotAfter(m: Message, got: set<nat>, i: nat): set<nat>
    requires m.p > 0
  {
    if Blind(m, i, got) then got else got + {i}
  }

  lemma OpenedHolds(m: Message, got: set<nat>, rx: Rx, h: Header, data: seq<byte>, i: nat)
    requires Honest(m) && Ready(m, got, rx) && Carries(h, data, m, i, got)
    ensures Holds(m, got, Opened(rx, h)) && |Opened(rx, h).buf| == |rx.buf|
  {
    if rx.currentSeq != Some(m.sequence) {
      var o := Opened(rx, h);
      assert forall k | 0 <= k < NumFrags(m) :: !o.received[k];
      assert 0 !in got;
    }
  }

  /** Fragments do not overlap: storing one leaves the others in place. */
  lemma PlacedAfter(m: Message, i: nat, j: nat, buf: seq<byte>)
    requires Honest(m) && i < NumFrags(m) && |m.data| <= |buf|
    ensures Placed(m, i, Splice(buf, Offset(i, m.p), Chunk(m, i)))
    ensures Placed(m, j, buf) ==> Placed(m, j, Splice(buf, Offset(i, m.p), Chunk(m, i)))
  {
    SpliceHolds(buf, Offset(i, m.p), Chunk(m, i));
    if i != j && Placed(m, j, buf) {
      if i < j {
        OffsetMonotone(i, j, m.p);
      } else {
        OffsetMonotone(j, i, m.p);
      }
      SpliceKeeps(buf, Offset(i, m.p), Chunk(m, i), Offset(j, m.p), Offset(j, m.p) + |Chunk(m, j)|);
    }
  }

  /** All fragments in place make up the message. */
  lemma AllPlaced(m: Message, buf: seq<byte>)
    requires Honest(m) && |m.data| <= |buf|
    requires forall i {:trigger Placed(m, i, buf)} | 0 <= i < NumFrags(m) :: Placed(m, i, buf)
    ensures buf[..|m.data|] == m.data
  {
    PlacedPrefix(m, NumFrags(m) - 1, buf);
    var lo := Offset(NumFrags(m) - 1, m.p);
    assert Placed(m, NumFrags(m) - 1, buf);
    assert buf[..|m.data|] == buf[..lo] + buf[lo..|m.data|];
    assert m.data == m.data[..lo] + m.data[lo..];
  }

  lemma {:induction false} PlacedPrefix(m: Message, n: nat, buf: seq<byte>)
    requires Honest(m) && |m.data| <= |buf| && n < NumFrags(m)
    requires forall i {:trigger Placed(m, i, buf)} | 0 <= i < n :: Placed(m, i, buf)
    ensures Offset(n, m.p) <= |m.data| && buf[..Offset(n, m.p)] == m.data[..Offset(n, m.p)]
  {
    ChunkRange(m, n);
    if n > 0 {
      PlacedPrefix(m, n - 1, buf);
      var lo, hi := Offset(n - 1, m.p), Offset(n, m.p);
      assert Placed(m, n - 1, buf);
      assert buf[..hi] == buf[..lo] + buf[lo..hi];
      assert m.data[..hi] == m.data[..lo] + m.data[lo..hi];
    }
  }

  /** Once a non-final fragment is known, or when no guess is needed, fragment `i` goes to its place. */
  lemma DestinationRight(m: Message, rx: Rx, i: nat)
    requires Honest(m) && i < NumFrags(m) && rx.totalFrags == NumFrags(m)
    requires rx.detected == 0 || rx.detected == m.p
    requires i > 0 && i == NumFrags(m) - 1 && m.p != MAX_PAYLOAD_PER_DATAGRAM ==> rx.detected == m.p
    ensures var detected := Detect(rx, i, |Chunk(m, i)|);
            && detected == (if i < NumFrags(m) - 1 then m.p else rx.detected)
            && Destination(detected, i) == Offset(i, m.p)
  {
  }

  /** A fragment that is new and whose place is known is stored there. */
  lemma StoreNew(m: Message, rx: Rx, i: nat)
    requires Honest(m) && Acceptable(m, |rx.buf|) && |rx.received| == MAX_FRAGMENTS
    requires i < NumFrags(m) && rx.totalFrags == NumFrags(m) && !rx.received[i]
    requires rx.detected == 0 || rx.detected == m.p
    requires i > 0 && i == NumFrags(m) - 1 && m.p != MAX_PAYLOAD_PER_DATAGRAM ==> rx.detected == m.p
    ensures Store(rx, i, Chunk(m, i))
            == (rx.(buf := Splice(rx.buf, Offset(i, m.p), Chunk(m, i)), received := rx.received[i := true],
                    detected := if i < NumFrags(m) - 1 then m.p else rx.detected, gotFrags := rx.gotFrags + 1), true)
  {
    DestinationRight(m, rx, i);
  }

  lemma CountedAfter(m: Message, got: set<nat>, rx: Rx, rx1: Rx, i: nat)
    requires m.p > 0 && Counted(m, got, rx) && i < NumFrags(m) && i !in got
    requires |rx1.buf| == |rx.buf| && rx1.received == rx.received[i := true]
    requires rx1.gotFrags == rx.gotFrags + 1 && (rx1.detected == rx.detected || rx1.detected == m.p)
    ensures Counted(m, got + {i}, rx1)
  {
  }

  lemma StoreHolds(m: Message, got: set<nat>, rx: Rx, data: seq<byte>, i: nat)
    requires Honest(m) && Holds(m, got, rx) && Acceptable(m, |rx.buf|)
    requires i < NumFrags(m) && (i !in got ==> data == Chunk(m, i))
    requires Blind(m, i, got) ==> GuessOverflows(m, |rx.buf|)
    ensures var (rx1, stored) := Store(rx, i, data);
            && Collected(m, GotAfter(m, got, i), rx1)
            && (stored <==> i !in got && !Blind(m, i, got))
            && rx1 == rx.(buf := rx1.buf, received := rx1.received, detected := rx1.detected, gotFrags := rx1.gotFrags)
            && |rx1.buf| == |rx.buf|
  {
    var (rx1, stored) := Store(rx, i, data);
    if i in got {
      assert got + {i} == got;
    } else if !Blind(m, i, got) {
      StoreNew(m, rx, i);
      CountedAfter(m, got, rx, rx1, i);
      forall j | j in got + {i} ensures Placed(m, j, rx1.buf) {
        PlacedAfter(m, i, j, rx.buf);
      }
    }
  }

  /** What delivery makes of a state holding the fragments `got`. */
  lemma DeliverStep(m: Message, got: set<nat>, rx: Rx, stored: bool, firstFrag: bool)
    requires Honest(m) && Collected(m, got, rx)
    requires rx.totalFrags == NumFrags(m) && rx.payloadSize == |m.data| && rx.lastBufOffset == m.bufOffset
    requires !stored ==> !Complete(m, got)
    ensures var (rx1, r) := Deliver(rx, stored, firstFrag);
            if Complete(m, got) then
              rx1.currentSeq == None && rx1.gotFrags == rx1.totalFrags
              && r.assembled == Some(m.data) && r.bufOffset == m.bufOffset
            else rx1 == rx && r.assembled == None
  {
    FullSet(got, NumFrags(m));
    if Complete(m, got) {
      forall i | 0 <= i < NumFrags(m) ensures Placed(m, i, rx.buf) {
        assert i in got;
      }
      AllPlaced(m, rx.buf);
    }
  }

  /** The state in which the fragment has been examined, before delivery. */
  lemma Examined(m: Message, got: set<nat>, rx: Rx, h: Header, data: seq<byte>, i: nat)
    requires Honest(m) && Ready(m, got, rx) && Carries(h, data, m, i, got)
    requires Blind(m, i, got) ==> GuessOverflows(m, |rx.buf|)
    ensures var (rx1, stored) := Store(Opened(rx, h), i, data);
            && Collected(m, GotAfter(m, got, i), rx1)
            && (!stored ==> !Complete(m, GotAfter(m, got, i)))
            && Sane(rx1) && |rx1.buf| == |rx.buf|
            && rx1.currentSeq == Some(m.sequence)
            && rx1.totalFrags == NumFrags(m) && rx1.payloadSize == |m.data| && rx1.lastBufOffset == m.bufOffset
            && rx1.lastSourceUs == (if i == 0 then h.sourceUs else rx.lastSourceUs)
  {
    OpenedHolds(m, got, rx, h, data, i);
    StoreHolds(m, got, Opened(rx, h), data, i);
  }

  /** One datagram: the assembler's set grows by the fragment, and the message comes out exactly when the
      set is complete, byte for byte. */
  lemma FragmentStep(m: Message, got: set<nat>, rx: Rx, h: Header, data: seq<byte>, i: nat)
    requires Honest(m) && Ready(m, got, rx) && Carries(h, data, m, i, got)
    requires Blind(m, i, got) ==> GuessOverflows(m, |rx.buf|)
    ensures var (rx1, r) := IngestFragment(rx, h, data);
            var got1 := GotAfter(m, got, i);
            && rx1.lastSourceUs == (if i == 0 then h.sourceUs else rx.lastSourceUs)
            && !r.heartbeat && |rx1.buf| == |rx.buf|
            && (Complete(m, got1) ==>
                  rx1.currentSeq == None && rx1.gotFrags == rx1.totalFrags
                  && r.assembled == Some(m.data) && r.bufOffset == m.bufOffset)
            && (!Complete(m, got1) ==> Holds(m, got1, rx1) && r.assembled == None)
  {
    Examined(m, got, rx, h, data, i);
    var (rx1, stored) := Store(Opened(rx, h), i, data);
    DeliverStep(m, GotAfter(m, got, i), rx1, stored, i == 0);
  }

  /** A fragment of the message being collected. */
  lemma CollectStep(m: Message, got: set<nat>, rx: Rx, i: nat)
    requires Honest(m) && i < NumFrags(m) && Ready(m, got, rx) && (0 in got ==> rx.lastSourceUs == m.sourceUs)
    requires Blind(m, i, got) ==> GuessOverflows(m, |rx.buf|)
    ensures var (rx1, r) := Ingest(rx, PacketOf(m, i));
            var got1 := GotAfter(m, got, i);
            && !r.heartbeat && |rx1.buf| == |rx.buf|
            && (0 in got1 ==> rx1.lastSourceUs == m.sourceUs)
            && (Complete(m, got1) ==>
                  rx1.currentSeq == None && rx1.gotFrags == rx1.totalFrags
                  && r.assembled == Some(m.data) && r.bufOffset == m.bufOffset
                  && rx1.lastSourceUs == m.sourceUs)
            && (!Complete(m, got1) ==> Holds(m, got1, rx1) && r.assembled == None)
  {
    FragmentStep(m, got, rx, PacketOf(m, i).header, Chunk(m, i), i);
  }
}
