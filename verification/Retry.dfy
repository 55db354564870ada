/** A send that fails half way does not bump the sequence number, so the next message reuses it. What the receiver
    makes of the two: for every two messages, every point of failure and every state of the receiver's buffer. */
module Retry {
  import opened Options
  import opened Bytes
  import opened Wire
  import opened Fragmentation
  import opened Reassembly
  import opened Channel
  import opened Missing

  /** Two messages of the same sender under the same sequence number; the first one stopped after `k` fragments. */
  predicate Collide(a: Message, b: Message, k: nat) {
    Honest(a) && Honest(b) && a.sequence == b.sequence && a.p == b.p && 0 < k < NumFrags(a)
  }

  /** The datagrams that leave the sender. */
  function Emitted(a: Message, b: Message, k: nat): (ds: seq<seq<byte>>)
    requires Collide(a, b, k)
    ensures |ds| == k + NumFrags(b)
  {
    Datagrams(a)[..k] + Datagrams(b)
  }

  /** What the receiver sees of them. */
  function OnTheWire(a: Message, b: Message, k: nat): (ds: seq<Packet>)
    requires Collide(a, b, k)
    ensures |ds| == k + NumFrags(b)
  {
    seq(k + NumFrags(b), j requires 0 <= j < k + NumFrags(b) => if j < k then PacketOf(a, j) else PacketOf(b, j - k))
  }

  lemma EmittedParses(a: Message, b: Message, k: nat, j: nat)
    requires Collide(a, b, k) && j < k + NumFrags(b)
    ensures Parse(Emitted(a, b, k)[j]) == OnTheWire(a, b, k)[j]
  {
    if j < k {
      DatagramParses(a, j);
      assert Emitted(a, b, k)[j] == Datagram(a, j);
    } else {
      DatagramParses(b, j - k);
      assert Emitted(a, b, k)[j] == Datagram(b, j - k);
    }
  }

  // ---------- what is delivered ----------

  /** The fragment of `b` in the place of `a`'s last one exists and fits the buffer. */
  predicate Delivers(a: Message, b: Message, maxPayload: nat)
    requires Honest(a) && Honest(b)
  {
    NumFrags(a) <= NumFrags(b) && Offset(NumFrags(a) - 1, a.p) + |Chunk(b, NumFrags(a) - 1)| <= maxPayload
  }

  /** The first `f` fragments that are stored: `k` of `a` and then those of `b`. */
  function Joined(a: Message, b: Message, k: nat, f: nat): (d: seq<byte>)
    requires Collide(a, b, k) && f <= NumFrags(a) && (k < f ==> f <= NumFrags(b))
    ensures f <= k || f < NumFrags(b) ==> |d| == Offset(f, a.p)
  {
    if f <= k then
      ChunkRange(a, f);
      a.data[..Offset(f, a.p)]
    else
      ChunkRange(a, k);
      ChunkRange(b, f - 1);
      OffsetMonotone(k, f - 1, a.p);
      a.data[..Offset(k, a.p)] + b.data[Offset(k, a.p)..Min(Offset(f, a.p), |b.data|)]
  }

  /** A buffer after `d` has been written to its start. */
  predicate StartsWith(buf: seq<byte>, d: seq<byte>, stale: seq<byte>) {
    |d| <= |stale| && buf == d + stale[|d|..]
  }

  /** What comes out: as many bytes as `a` announced, the first `k` fragments from `a`, then from `b` as far as it goes,
      and behind that whatever the buffer held before. */
  function Blend(a: Message, b: Message, k: nat, stale: seq<byte>): (d: seq<byte>)
    requires Collide(a, b, k) && NumFrags(a) <= NumFrags(b) && |a.data| <= |stale|
    ensures |d| == |a.data|
  {
    var cut, end := Offset(k, a.p), Min(|a.data|, |b.data|);
    ChunkRange(a, k);
    ChunkRange(b, k);
    a.data[..cut] + b.data[cut..end] + stale[end..|a.data|]
  }

  lemma JoinedGrowsByA(a: Message, b: Message, k: nat, f: nat)
    requires Collide(a, b, k) && f < k
    ensures Joined(a, b, k, f + 1) == Joined(a, b, k, f) + Chunk(a, f)
  {
    ChunkRange(a, f);
    ChunkRange(a, f + 1);
    assert a.data[..Offset(f + 1, a.p)] == a.data[..Offset(f, a.p)] + Chunk(a, f);
  }

  lemma JoinedGrowsByB(a: Message, b: Message, k: nat, f: nat)
    requires Collide(a, b, k) && k <= f < NumFrags(a) && f < NumFrags(b)
    ensures Joined(a, b, k, f + 1) == Joined(a, b, k, f) + Chunk(b, f)
  {
    var cut, lo := Offset(k, a.p), Offset(f, a.p);
    ChunkRange(a, k);
    ChunkRange(b, f);
    OffsetMonotone(k, f, a.p);
    assert b.data[cut..Min(lo + b.p, |b.data|)] == b.data[cut..lo] + Chunk(b, f);
    assert f == k ==> b.data[cut..lo] == [];
  }

  lemma JoinedGrows(a: Message, b: Message, k: nat, f: nat)
    requires Collide(a, b, k) && f < NumFrags(a) && (k <= f ==> f < NumFrags(b))
    ensures Joined(a, b, k, f + 1) == Joined(a, b, k, f) + if f < k then Chunk(a, f) else Chunk(b, f)
  {
    if f < k {
      JoinedGrowsByA(a, b, k, f);
    } else {
      JoinedGrowsByB(a, b, k, f);
    }
  }

  lemma JoinedReaches(a: Message, b: Message, k: nat)
    requires Collide(a, b, k) && NumFrags(a) <= NumFrags(b)
    ensures var n := Offset(NumFrags(a), a.p);
            && |a.data| <= n && Offset(k, a.p) <= Min(|a.data|, |b.data|)
            && Min(Min(n, |b.data|), |a.data|) == Min(|a.data|, |b.data|)
  {
    ChunkRange(a, NumFrags(a) - 1);
    ChunkRange(a, k);
    ChunkRange(b, k);
  }

  lemma JoinedIsBlend(a: Message, b: Message, k: nat, stale: seq<byte>, buf: seq<byte>)
    requires Collide(a, b, k) && NumFrags(a) <= NumFrags(b) && |a.data| <= |stale|
    requires StartsWith(buf, Joined(a, b, k, NumFrags(a)), stale)
    ensures buf[..|a.data|] == Blend(a, b, k, stale)
  {
    JoinedReaches(a, b, k);
    var top := Min(Offset(NumFrags(a), a.p), |b.data|);
    TakeJoined(a.data[..Offset(k, a.p)], b.data, top, stale, |a.data|);
    if top > |a.data| {
      assert stale[|a.data|..|a.data|] == [];
    }
  }

  lemma TakeJoined(head: seq<byte>, rest: seq<byte>, top: nat, stale: seq<byte>, n: nat)
    requires |head| <= top <= |rest| && top <= |stale| && |head| <= n <= |stale|
    ensures (head + rest[|head|..top] + stale[top..])[..n]
            == if top <= n then head + rest[|head|..top] + stale[top..n] else head + rest[|head|..n]
  {
  }

  lemma SpliceAppends(buf: seq<byte>, d: seq<byte>, c: seq<byte>, stale: seq<byte>)
    requires StartsWith(buf, d, stale) && |d| + |c| <= |stale|
    ensures StartsWith(Splice(buf, |d|, c), d + c, stale)
  {
  }

  // ---------- the receiver in between ----------

  /** The receiver is on `a`'s header and has stored the first `f` fragments. */
  ghost predicate Filling(a: Message, b: Message, k: nat, f: nat, stale: seq<byte>, rx: Rx)
    requires Collide(a, b, k)
  {
    && 0 < f < NumFrags(a) && (k < f ==> f <= NumFrags(b)) && Acceptable(a, |stale|)
    && Sane(rx) && rx.currentSeq == Some(a.sequence)
    && rx.totalFrags == NumFrags(a) && rx.payloadSize == |a.data| && rx.lastBufOffset == a.bufOffset
    && rx.gotFrags == f && rx.detected == a.p && (forall i | 0 <= i < NumFrags(a) :: rx.received[i] <==> i < f)
    && StartsWith(rx.buf, Joined(a, b, k, f), stale)
  }

  /** Nothing of `a` has come yet. */
  predicate Elsewhere(a: Message, stale: seq<byte>, rx: Rx)
    requires a.p > 0
  {
    Acceptable(a, |stale|) && Sane(rx) && rx.currentSeq != Some(a.sequence) && rx.buf == stale
  }

  /** The first datagram of `a` opens its sequence. */
  lemma OpensA(a: Message, stale: seq<byte>, rx: Rx, z: nat)
    requires Honest(a) && Elsewhere(a, stale, rx) && z == 0
    ensures var o := Opened(rx, PacketOf(a, z).header);
            && Sane(o) && o.currentSeq == Some(a.sequence) && o.totalFrags == NumFrags(a) && o.gotFrags == 0
            && o.payloadSize == |a.data| && o.lastBufOffset == a.bufOffset && o.detected == 0 && o.buf == stale
            && (forall i | 0 <= i < NumFrags(a) :: !o.received[i])
  {
  }

  lemma FirstStored(a: Message, b: Message, k: nat, stale: seq<byte>, o: Rx, z: nat)
    requires Collide(a, b, k) && Acceptable(a, |stale|) && z == 0
    requires Sane(o) && o.currentSeq == Some(a.sequence) && o.totalFrags == NumFrags(a) && o.gotFrags == 0
    requires o.payloadSize == |a.data| && o.lastBufOffset == a.bufOffset && o.detected == 0 && o.buf == stale
    requires forall i | 0 <= i < NumFrags(a) :: !o.received[i]
    ensures var (rx1, stored) := Store(o, z, Chunk(a, z)); Filling(a, b, k, 1, stale, rx1)
  {
    assert Offset(z, a.p) == 0;
    SpliceAppends(stale, [], Chunk(a, z), stale);
    JoinedGrows(a, b, k, z);
    StoreNew(a, o, z);
  }

  lemma FirstOfA(a: Message, b: Message, k: nat, stale: seq<byte>, rx: Rx, z: nat)
    requires Collide(a, b, k) && Elsewhere(a, stale, rx) && z == 0
    ensures var (rx1, r) := Ingest(rx, PacketOf(a, z));
            Filling(a, b, k, 1, stale, rx1) && r.assembled == None
  {
    OpensA(a, stale, rx, z);
    FirstStored(a, b, k, stale, Opened(rx, PacketOf(a, z).header), z);
  }

  /** A fragment that is stored next, of either message. */
  lemma StoreNext(a: Message, b: Message, k: nat, f: nat, stale: seq<byte>, rx: Rx, c: seq<byte>)
    requires Collide(a, b, k) && Filling(a, b, k, f, stale, rx) && (k <= f ==> f < NumFrags(b))
    requires c == if f < k then Chunk(a, f) else Chunk(b, f)
    requires Offset(f, a.p) + |c| <= |stale|
    ensures var (rx1, stored) := Store(rx, f, c);
            && stored && StartsWith(rx1.buf, Joined(a, b, k, f + 1), stale) && rx1.gotFrags == f + 1
            && rx1 == rx.(buf := rx1.buf, received := rx.received[f := true], gotFrags := f + 1)
  {
    JoinedGrows(a, b, k, f);
    SpliceAppends(rx.buf, Joined(a, b, k, f), c, stale);
  }

  lemma RoomBefore(a: Message, b: Message, f: nat, maxPayload: nat)
    requires Honest(a) && Honest(b) && a.p == b.p && f + 1 < NumFrags(a) && |a.data| <= maxPayload
    ensures Offset(f, a.p) + |Chunk(a, f)| <= maxPayload
    ensures f < NumFrags(b) ==> Offset(f, a.p) + |Chunk(b, f)| <= maxPayload
  {
    ChunkRange(a, f);
  }

  /** One more fragment of `a`. */
  lemma NextOfA(a: Message, b: Message, k: nat, f: nat, stale: seq<byte>, rx: Rx)
    requires Collide(a, b, k) && Filling(a, b, k, f, stale, rx) && f < k
    ensures var (rx1, r) := Ingest(rx, PacketOf(a, f));
            Filling(a, b, k, f + 1, stale, rx1) && r.assembled == None
  {
    RoomBefore(a, b, f, |stale|);
    StoreNext(a, b, k, f, stale, rx, Chunk(a, f));
  }

  /** How many fragments are stored once `i` of `b` have come, unless that completed the message. */
  function Stored(a: Message, k: nat, i: nat): nat
    requires a.p > 0 && 0 < k < NumFrags(a)
  {
    if i <= k then k else Min(i, NumFrags(a) - 1)
  }

  /** A fragment of `b` that does not complete the message. */
  lemma NextOfB(a: Message, b: Message, k: nat, i: nat, stale: seq<byte>, rx: Rx)
    requires Collide(a, b, k) && i < NumFrags(b) && Filling(a, b, k, Stored(a, k, i), stale, rx)
    requires Delivers(a, b, |stale|) ==> i + 1 < NumFrags(a)
    ensures var (rx1, r) := Ingest(rx, PacketOf(b, i));
            && Filling(a, b, k, Stored(a, k, i + 1), stale, rx1) && r.assembled == None
            && rx1.lastSourceUs == (if i == 0 then b.sourceUs else rx.lastSourceUs)
  {
    var o := Opened(rx, PacketOf(b, i).header);
    assert o == if i == 0 then rx.(lastSourceUs := b.sourceUs) else rx;
    if k <= i && i + 1 < NumFrags(a) {
      RoomBefore(a, b, i, |stale|);
      StoreNext(a, b, k, i, stale, o, Chunk(b, i));
    } else {
      assert Store(o, i, Chunk(b, i)) == (o, false);
    }
  }

  /** The fragment of `b` that completes the message, if one does. */
  lemma LastOfA(a: Message, b: Message, k: nat, i: nat, stale: seq<byte>, rx: Rx)
    requires Collide(a, b, k) && i == NumFrags(a) - 1 && Filling(a, b, k, i, stale, rx)
    requires Delivers(a, b, |stale|)
    ensures var (rx1, r) := Ingest(rx, PacketOf(b, i));
            && r.assembled == Some(Blend(a, b, k, stale)) && r.bufOffset == a.bufOffset
            && rx1.currentSeq == None && rx1.lastSourceUs == rx.lastSourceUs
  {
    StoreNext(a, b, k, i, stale, rx, Chunk(b, i));
    var rx1 := Store(rx, i, Chunk(b, i)).0;
    JoinedIsBlend(a, b, k, stale, rx1.buf);
  }

  // ---------- runs ----------

  /** The receiver after `j` datagrams, when it accepts `a`. */
  ghost predicate After(a: Message, b: Message, k: nat, stale: seq<byte>, rx: Rx, j: nat)
    requires Collide(a, b, k) && j <= k + NumFrags(b)
  {
    if j == 0 then Elsewhere(a, stale, rx)
    else if j <= k then Filling(a, b, k, j, stale, rx)
    else if !Delivers(a, b, |stale|) || j - k < NumFrags(a) then
      Filling(a, b, k, Stored(a, k, j - k), stale, rx) && rx.lastSourceUs == b.sourceUs
    else if j - k == NumFrags(a) then Sane(rx) && rx.currentSeq == None && rx.lastSourceUs == b.sourceUs
    else Sane(rx) && LeftOpen(b, rx, |stale|)
  }

  /** What datagram `j` delivers. */
  ghost predicate Comes(a: Message, b: Message, k: nat, stale: seq<byte>, r: Ingested, j: nat)
    requires Collide(a, b, k) && j < k + NumFrags(b) && |a.data| <= |stale|
  {
    if Delivers(a, b, |stale|) && j == k + NumFrags(a) - 1 then
      r.assembled == Some(Blend(a, b, k, stale)) && r.bufOffset == a.bufOffset
    else r.assembled == None
  }

  /** Fragment `i` of `b`, in every situation. */
  lemma StepOfB(a: Message, b: Message, k: nat, stale: seq<byte>, rx: Rx, i: nat, j: nat)
    requires Collide(a, b, k) && Acceptable(a, |stale|) && i < NumFrags(b) && j == k + i
    requires Sane(rx) && Counts(rx) && |rx.buf| == |stale|
    requires After(a, b, k, stale, rx, j)
    ensures var (rx1, r) := Ingest(rx, PacketOf(b, i)); After(a, b, k, stale, rx1, j + 1) && Comes(a, b, k, stale, r, j)
  {
    if Delivers(a, b, |stale|) && i >= NumFrags(a) {
      RestStaysOpen(b, rx, i);
    } else if Delivers(a, b, |stale|) && i == NumFrags(a) - 1 {
      LastOfA(a, b, k, i, stale, rx);
    } else {
      NextOfB(a, b, k, i, stale, rx);
    }
  }

  lemma StepOfA(a: Message, b: Message, k: nat, stale: seq<byte>, rx: Rx, j: nat)
    requires Collide(a, b, k) && Acceptable(a, |stale|) && j < k && After(a, b, k, stale, rx, j)
    ensures var (rx1, r) := Ingest(rx, PacketOf(a, j)); After(a, b, k, stale, rx1, j + 1) && Comes(a, b, k, stale, r, j)
  {
    if j == 0 {
      FirstOfA(a, b, k, stale, rx, j);
    } else {
      NextOfA(a, b, k, j, stale, rx);
    }
  }

  /** The receiver's states while the datagrams arrive, from any state that is not on this sequence number. */
  ghost predicate Fed(a: Message, b: Message, k: nat, rs: seq<Rx>)
    requires Collide(a, b, k)
  {
    Run(rs, OnTheWire(a, b, k)) && Counts(rs[0]) && rs[0].currentSeq != Some(a.sequence)
  }

  lemma AfterA(a: Message, b: Message, k: nat, rs: seq<Rx>, i: nat, j: nat)
    requires Collide(a, b, k) && Fed(a, b, k, rs) && Acceptable(a, |rs[0].buf|)
    requires i < k && j == i + 1 && After(a, b, k, rs[0].buf, rs[i], i)
    ensures After(a, b, k, rs[0].buf, rs[j], j) && Takes(rs, OnTheWire(a, b, k), i)
    ensures Comes(a, b, k, rs[0].buf, Result(rs, OnTheWire(a, b, k), i), i)
  {
    assert Takes(rs, OnTheWire(a, b, k), i);
    StepOfA(a, b, k, rs[0].buf, rs[i], i);
  }

  lemma AfterB(a: Message, b: Message, k: nat, rs: seq<Rx>, i: nat, j: nat)
    requires Collide(a, b, k) && Fed(a, b, k, rs) && Acceptable(a, |rs[0].buf|)
    requires k <= i < k + NumFrags(b) && j == i + 1 && After(a, b, k, rs[0].buf, rs[i], i)
    requires |rs[i].buf| == |rs[0].buf|
    ensures After(a, b, k, rs[0].buf, rs[j], j) && Takes(rs, OnTheWire(a, b, k), i)
    ensures Comes(a, b, k, rs[0].buf, Result(rs, OnTheWire(a, b, k), i), i)
  {
    assert Takes(rs, OnTheWire(a, b, k), i);
    RunKeepsCounts(rs, OnTheWire(a, b, k), i);
    StepOfB(a, b, k, rs[0].buf, rs[i], i - k, i);
  }

  lemma {:induction false} SameRoom(a: Message, b: Message, k: nat, rs: seq<Rx>, j: nat)
    requires Collide(a, b, k) && Fed(a, b, k, rs) && j <= k + NumFrags(b)
    ensures |rs[j].buf| == |rs[0].buf|
  {
    if j > 0 {
      SameRoom(a, b, k, rs, j - 1);
      assert Takes(rs, OnTheWire(a, b, k), j - 1);
    }
  }

  lemma AfterNext(a: Message, b: Message, k: nat, rs: seq<Rx>, i: nat, j: nat)
    requires Collide(a, b, k) && Fed(a, b, k, rs) && Acceptable(a, |rs[0].buf|)
    requires i < k + NumFrags(b) && j == i + 1 && After(a, b, k, rs[0].buf, rs[i], i)
    ensures After(a, b, k, rs[0].buf, rs[j], j) && Takes(rs, OnTheWire(a, b, k), i)
    ensures Comes(a, b, k, rs[0].buf, Result(rs, OnTheWire(a, b, k), i), i)
  {
    if i < k {
      AfterA(a, b, k, rs, i, j);
    } else {
      SameRoom(a, b, k, rs, i);
      AfterB(a, b, k, rs, i, j);
    }
  }

  lemma {:induction false} AfterRun(a: Message, b: Message, k: nat, rs: seq<Rx>, j: nat)
    requires Collide(a, b, k) && Fed(a, b, k, rs) && Acceptable(a, |rs[0].buf|) && j <= k + NumFrags(b)
    ensures After(a, b, k, rs[0].buf, rs[j], j)
  {
    if j > 0 {
      AfterRun(a, b, k, rs, j - 1);
      AfterNext(a, b, k, rs, j - 1, j);
    }
  }

  /** What two messages under one sequence number come to, from every receiver that accepts the first. When the second
      one has fewer fragments, or its fragment in the place of the first one's last does not fit, nothing is delivered
      and the first message stays open. Otherwise that fragment delivers a payload nobody sent, at the failed
      message's write offset and with the second one's time stamp: the start of the first message, then the second
      one's bytes, then whatever the buffer held before. Fragments behind it begin a new assembly of the second
      message, which lacks its fragment 0. */
  lemma FailedSendMixes(a: Message, b: Message, k: nat, rs: seq<Rx>, i: nat, j: nat)
    requires Collide(a, b, k) && Fed(a, b, k, rs) && Acceptable(a, |rs[0].buf|)
    requires i < k + NumFrags(b) && j == i + 1
    ensures Takes(rs, OnTheWire(a, b, k), i) && Comes(a, b, k, rs[0].buf, Result(rs, OnTheWire(a, b, k), i), i)
    ensures After(a, b, k, rs[0].buf, rs[j], j)
  {
    AfterRun(a, b, k, rs, i);
    AfterNext(a, b, k, rs, i, j);
  }

  lemma RefusedNext(a: Message, b: Message, k: nat, rs: seq<Rx>, i: nat, j: nat)
    requires Collide(a, b, k) && Fed(a, b, k, rs) && i < k + NumFrags(b) && j == i + 1
    requires Refusing(a, rs[i]) || (i == 0 && !Acceptable(a, |rs[i].buf|))
    ensures Refusing(a, rs[j])
    ensures Takes(rs, OnTheWire(a, b, k), i) && Result(rs, OnTheWire(a, b, k), i).assembled == None
  {
    assert Takes(rs, OnTheWire(a, b, k), i);
    if i < k {
      RefusedStays(a, rs[i], i);
    } else {
      RefusedStays(b, rs[i], i - k);
    }
  }

  /** When the first message is refused, nothing of the second one is delivered either. */
  lemma {:induction false} RefusedRun(a: Message, b: Message, k: nat, rs: seq<Rx>, i: nat, j: nat)
    requires Collide(a, b, k) && Fed(a, b, k, rs) && !Acceptable(a, |rs[0].buf|)
    requires i < k + NumFrags(b) && j == i + 1
    ensures Refusing(a, rs[j])
    ensures Takes(rs, OnTheWire(a, b, k), i) && Result(rs, OnTheWire(a, b, k), i).assembled == None
  {
    if i > 0 {
      RefusedRun(a, b, k, rs, i - 1, i);
    }
    RefusedNext(a, b, k, rs, i, j);
  }

  /** Datagram `i` delivers the second message as it was sent. */
  predicate DeliveredAsSent(a: Message, b: Message, k: nat, rs: seq<Rx>, i: nat)
    requires Collide(a, b, k) && |rs| == k + NumFrags(b) + 1 && i < k + NumFrags(b)
  {
    && Takes(rs, OnTheWire(a, b, k), i)
    && Result(rs, OnTheWire(a, b, k), i).assembled == Some(b.data)
    && Result(rs, OnTheWire(a, b, k), i).bufOffset == b.bufOffset
  }

  /** The mixture is the second message exactly when the two are equally long and agree on the fragments sent twice. */
  lemma BlendIsSecondIff(a: Message, b: Message, k: nat, stale: seq<byte>)
    requires Collide(a, b, k) && NumFrags(a) <= NumFrags(b) && |a.data| <= |stale|
    ensures Offset(k, a.p) <= |a.data| && Offset(k, a.p) <= |b.data|
    ensures Blend(a, b, k, stale) == b.data
            <==> |a.data| == |b.data| && a.data[..Offset(k, a.p)] == b.data[..Offset(k, a.p)]
  {
    ChunkRange(a, k);
    ChunkRange(b, k);
    var cut, n := Offset(k, a.p), |a.data|;
    if |a.data| == |b.data| {
      assert Blend(a, b, k, stale)[..cut] == a.data[..cut];
      assert stale[n..n] == [];
      assert b.data == b.data[..cut] + b.data[cut..n];
    }
  }

  lemma SameLengthDelivers(a: Message, b: Message, maxPayload: nat)
    requires Honest(a) && Honest(b) && a.p == b.p && |a.data| == |b.data| <= maxPayload
    ensures NumFrags(a) == NumFrags(b) && Delivers(a, b, maxPayload)
  {
  }

  lemma OnlyLastDelivers(a: Message, b: Message, k: nat, rs: seq<Rx>, i: nat)
    requires Collide(a, b, k) && Fed(a, b, k, rs) && i < k + NumFrags(b) && DeliveredAsSent(a, b, k, rs, i)
    ensures Acceptable(a, |rs[0].buf|) && Delivers(a, b, |rs[0].buf|) && i == k + NumFrags(a) - 1
  {
    if Acceptable(a, |rs[0].buf|) {
      FailedSendMixes(a, b, k, rs, i, i + 1);
    } else {
      RefusedRun(a, b, k, rs, i, i + 1);
    }
  }

  /** The two messages are equally long, go to the same place, and agree on the fragments sent twice. */
  predicate Alike(a: Message, b: Message, k: nat)
    requires Collide(a, b, k)
  {
    && |a.data| == |b.data| && a.bufOffset == b.bufOffset
    && Offset(k, a.p) <= |a.data| && a.data[..Offset(k, a.p)] == b.data[..Offset(k, a.p)]
  }

  lemma LastIsAsSentIff(a: Message, b: Message, k: nat, rs: seq<Rx>)
    requires Collide(a, b, k) && Fed(a, b, k, rs) && Acceptable(a, |rs[0].buf|) && Delivers(a, b, |rs[0].buf|)
    ensures DeliveredAsSent(a, b, k, rs, k + NumFrags(a) - 1)
            <==> Alike(a, b, k)
  {
    BlendIsSecondIff(a, b, k, rs[0].buf);
    FailedSendMixes(a, b, k, rs, k + NumFrags(a) - 1, k + NumFrags(a));
  }

  lemma AlikeDelivers(a: Message, b: Message, k: nat, rs: seq<Rx>)
    requires Collide(a, b, k) && Fed(a, b, k, rs) && Acceptable(a, |rs[0].buf|) && Alike(a, b, k)
    ensures NumFrags(a) == NumFrags(b) && DeliveredAsSent(a, b, k, rs, k + NumFrags(a) - 1)
  {
    SameLengthDelivers(a, b, |rs[0].buf|);
    LastIsAsSentIff(a, b, k, rs);
  }

  lemma DeliveredMeansAlike(a: Message, b: Message, k: nat, rs: seq<Rx>, i: nat)
    requires Collide(a, b, k) && Fed(a, b, k, rs) && i < k + NumFrags(b) && DeliveredAsSent(a, b, k, rs, i)
    ensures Acceptable(a, |rs[0].buf|) && Alike(a, b, k) && i == k + NumFrags(a) - 1
  {
    OnlyLastDelivers(a, b, k, rs, i);
    LastIsAsSentIff(a, b, k, rs);
  }

  /** When the retry is harmless: whatever the buffer held before, the second message is delivered as it was sent if
      and only if the receiver accepts the first one and the two are alike, and then its last datagram delivers it. */
  lemma SecondAsSentIff(a: Message, b: Message, k: nat, rs: seq<Rx>, i: nat)
    requires Collide(a, b, k) && Fed(a, b, k, rs) && i < k + NumFrags(b)
    ensures DeliveredAsSent(a, b, k, rs, i)
            <==> Acceptable(a, |rs[0].buf|) && Alike(a, b, k) && i == k + NumFrags(a) - 1
  {
    if DeliveredAsSent(a, b, k, rs, i) {
      DeliveredMeansAlike(a, b, k, rs, i);
    } else if Acceptable(a, |rs[0].buf|) && Alike(a, b, k) {
      AlikeDelivers(a, b, k, rs);
    }
  }
}
