/** The `.ibt` writer over whole runs: which frames share a file, what every file contains, and that it reads back. */
module IbtRuns {
  import opened Options
  import opened Bytes
  import opened Irsdk
  import opened IbtFile
  import opened IbtBytes
  import opened IbtWriter
  import opened IbtSession

  /** The target hands over a map, or closes the file: on a stale timeout and at shutdown. */
  datatype Event = Map(s: Sample) | Close

  predicate Possible(e: Event) {
    e.Map? ==> Usable(e.s.m)
  }

  function Next(gt: Order, w: Writer, e: Event): (r: Writer)
    requires ValidWriter(w) && Possible(e)
    ensures ValidWriter(r)
  {
    match e
    case Map(s) => Update(gt, w, s.m, s.now)
    case Close => Finish(w)
  }

  predicate Steps(gt: Order, ws: seq<Writer>, es: seq<Event>, k: nat)
    requires k < |es| && |ws| == |es| + 1
  {
    ValidWriter(ws[k]) && Possible(es[k]) && ws[k + 1] == Next(gt, ws[k], es[k])
  }

  ghost predicate Run(gt: Order, ws: seq<Writer>, es: seq<Event>) {
    |ws| == |es| + 1 && ws[0] == Writer(None, []) && forall k | 0 <= k < |es| :: Steps(gt, ws, es, k)
  }

  /** Event `k` is a connected frame. */
  predicate Frame(es: seq<Event>, k: nat)
    requires k < |es|
  {
    es[k].Map? && Connected(es[k].s)
  }

  /** The number of the file event `k` belongs to: how many files had been closed when it was written. */
  function FileNo(ws: seq<Writer>, k: nat): nat
    requires k + 1 < |ws|
  {
    |ws[k + 1].closed|
  }

  /** The frames among the first `k` events that went to file `c`, in order. */
  ghost function Members(ws: seq<Writer>, es: seq<Event>, c: nat, k: nat): (ms: seq<Sample>)
    requires |ws| == |es| + 1 && k <= |es|
    ensures AllConnected(ms)
  {
    if k == 0 then []
    else if Frame(es, k - 1) && FileNo(ws, k - 1) == c then Members(ws, es, c, k - 1) + [es[k - 1].s]
    else Members(ws, es, c, k - 1)
  }

  lemma MembersStep(ws: seq<Writer>, es: seq<Event>, c: nat, j: nat, k: nat)
    requires |ws| == |es| + 1 && j < |es| && k == j + 1
    ensures Members(ws, es, c, k)
            == if Frame(es, j) && FileNo(ws, j) == c then Members(ws, es, c, j) + [es[j].s] else Members(ws, es, c, j)
  {
  }

  // ---------- one step on values ----------

  /** The file a session makes. */
  ghost predicate FileOf(gt: Order, f: seq<byte>, ms: seq<Sample>) {
    ms != [] && exists o :: Holds(gt, o, ms[0], ms) && |o.file| >= STATIC_SIZE && f == Finished(o)
  }

  /** The open file, if any, is that of the frames `ms`, which all belong to one session. */
  ghost predicate CurrentOf(gt: Order, current: Option<Open>, ms: seq<Sample>) {
    match current
    case None => ms == []
    case Some(o) => ms != [] && Holds(gt, o, ms[0], ms)
  }

  predicate Rolls(w: Writer, s: Sample)
    requires Connected(s)
  {
    w.current.Some? && w.current.value.layout.update != LayoutOf(s).update
  }

  lemma FinishFiles(gt: Order, w: Writer, ms: seq<Sample>)
    requires ValidWriter(w) && CurrentOf(gt, w.current, ms) && w.current.Some?
    ensures var w1 := Finish(w);
            && w1.current == None && |w1.closed| == |w.closed| + 1
            && w1.closed[..|w.closed|] == w.closed && FileOf(gt, w1.closed[|w.closed|], ms)
  {
  }

  lemma FrameContinues(gt: Order, w: Writer, ms: seq<Sample>, s: Sample)
    requires ValidWriter(w) && Connected(s) && CurrentOf(gt, w.current, ms) && !Rolls(w, s)
    ensures var w1 := Update(gt, w, s.m, s.now);
            w1.closed == w.closed && w1.current.Some? && CurrentOf(gt, w1.current, ms + [s])
  {
    if w.current.None? {
      StartHolds(gt, s);
      AppendHolds(gt, StartSession(s.m, LayoutOf(s), s.now), s, [], s);
      assert ms + [s] == [] + [s];
    } else {
      AppendHolds(gt, w.current.value, ms[0], ms, s);
    }
  }

  lemma FrameRolls(gt: Order, w: Writer, ms: seq<Sample>, s: Sample)
    requires ValidWriter(w) && Connected(s) && CurrentOf(gt, w.current, ms) && Rolls(w, s)
    ensures var w1 := Update(gt, w, s.m, s.now);
            && |w1.closed| == |w.closed| + 1 && w1.closed[..|w.closed|] == w.closed
            && FileOf(gt, w1.closed[|w.closed|], ms)
            && w1.current.Some? && CurrentOf(gt, w1.current, [s])
  {
    FinishFiles(gt, w, ms);
    StartHolds(gt, s);
    AppendHolds(gt, StartSession(s.m, LayoutOf(s), s.now), s, [], s);
    assert [s] == [] + [s];
  }

  // ---------- every file is the file of its members ----------

  ghost predicate FileKnown(gt: Order, ws: seq<Writer>, es: seq<Event>, k: nat, c: nat)
    requires |ws| == |es| + 1 && k <= |es| && c < |ws[k].closed|
  {
    FileOf(gt, ws[k].closed[c], Members(ws, es, c, k))
  }

  ghost predicate Booked(gt: Order, ws: seq<Writer>, es: seq<Event>, k: nat)
    requires |ws| == |es| + 1 && k <= |es|
  {
    && ValidWriter(ws[k])
    && (forall c | 0 <= c < |ws[k].closed| :: FileKnown(gt, ws, es, k, c))
    && CurrentOf(gt, ws[k].current, Members(ws, es, |ws[k].closed|, k))
    && forall c | c > |ws[k].closed| :: NoMembers(ws, es, c, k)
  }

  ghost predicate NoMembers(ws: seq<Writer>, es: seq<Event>, c: nat, k: nat)
    requires |ws| == |es| + 1 && k <= |es|
  {
    Members(ws, es, c, k) == []
  }

  /** What event `j` does to the books: nothing, one more frame in the open file, or one more closed file. */
  lemma EventBooks(gt: Order, ws: seq<Writer>, es: seq<Event>, j: nat, k: nat)
    requires Run(gt, ws, es) && j < |es| && k == j + 1 && Booked(gt, ws, es, j)
    ensures ValidWriter(ws[k])
    ensures var n := |ws[j].closed|;
            && (|ws[k].closed| == n || |ws[k].closed| == n + 1)
            && ws[k].closed[..n] == ws[j].closed
            && (|ws[k].closed| == n + 1 ==> FileOf(gt, ws[k].closed[n], Members(ws, es, n, j)))
            && CurrentOf(gt, ws[k].current, Members(ws, es, |ws[k].closed|, k))
  {
    assert Steps(gt, ws, es, j);
    var n := |ws[j].closed|;
    var w, ms := ws[j], Members(ws, es, n, j);
    MembersStep(ws, es, |ws[k].closed|, j, k);
    if es[j].Close? {
      if w.current.Some? {
        FinishFiles(gt, w, ms);
        assert NoMembers(ws, es, n + 1, j);
      }
    } else if Frame(es, j) {
      if Rolls(w, es[j].s) {
        FrameRolls(gt, w, ms, es[j].s);
        assert NoMembers(ws, es, n + 1, j);
      } else {
        FrameContinues(gt, w, ms, es[j].s);
      }
    }
  }

  lemma BookedStep(gt: Order, ws: seq<Writer>, es: seq<Event>, j: nat, k: nat)
    requires Run(gt, ws, es) && j < |es| && k == j + 1 && Booked(gt, ws, es, j)
    ensures Booked(gt, ws, es, k)
  {
    EventBooks(gt, ws, es, j, k);
    forall c | 0 <= c < |ws[k].closed| ensures FileKnown(gt, ws, es, k, c) {
      KnownStep(gt, ws, es, j, k, c);
    }
    forall c | c > |ws[k].closed| ensures NoMembers(ws, es, c, k) {
      MembersStep(ws, es, c, j, k);
      assert NoMembers(ws, es, c, j);
    }
  }

  lemma KnownStep(gt: Order, ws: seq<Writer>, es: seq<Event>, j: nat, k: nat, c: nat)
    requires Run(gt, ws, es) && j < |es| && k == j + 1 && Booked(gt, ws, es, j) && c < |ws[k].closed|
    ensures FileKnown(gt, ws, es, k, c)
  {
    ClosedStep(gt, ws, es, j, k, c);
    MembersOfClosed(gt, ws, es, j, k, c);
  }

  lemma ClosedStep(gt: Order, ws: seq<Writer>, es: seq<Event>, j: nat, k: nat, c: nat)
    requires Run(gt, ws, es) && j < |es| && k == j + 1 && Booked(gt, ws, es, j) && c < |ws[k].closed|
    ensures FileOf(gt, ws[k].closed[c], Members(ws, es, c, j))
  {
    EventBooks(gt, ws, es, j, k);
    if c < |ws[j].closed| {
      assert FileKnown(gt, ws, es, j, c);
      assert ws[k].closed[c] == ws[k].closed[..|ws[j].closed|][c];
    } else {
      assert c == |ws[j].closed|;
    }
  }

  /** No event adds to a file that is closed afterwards. */
  lemma MembersOfClosed(gt: Order, ws: seq<Writer>, es: seq<Event>, j: nat, k: nat, c: nat)
    requires |ws| == |es| + 1 && j < |es| && k == j + 1 && c < |ws[k].closed|
    ensures Members(ws, es, c, k) == Members(ws, es, c, j)
  {
    MembersStep(ws, es, c, j, k);
  }

  lemma {:induction false} BookedRun(gt: Order, ws: seq<Writer>, es: seq<Event>, k: nat)
    requires Run(gt, ws, es) && k <= |es|
    ensures Booked(gt, ws, es, k)
  {
    if k > 0 {
      BookedRun(gt, ws, es, k - 1);
      BookedStep(gt, ws, es, k - 1, k);
    } else {
      assert forall c :: NoMembers(ws, es, c, 0);
    }
  }

  /** The file of a closed session is made of its frames. */
  lemma ClosedFileIs(gt: Order, ws: seq<Writer>, es: seq<Event>, c: nat) returns (o: Open)
    requires Run(gt, ws, es) && c < |ws[|es|].closed|
    ensures var ms := Members(ws, es, c, |es|);
            ms != [] && Holds(gt, o, ms[0], ms) && |o.file| >= STATIC_SIZE && ws[|es|].closed[c] == Finished(o)
  {
    BookedRun(gt, ws, es, |es|);
    assert FileKnown(gt, ws, es, |es|, c);
    var ms := Members(ws, es, c, |es|);
    o :| Holds(gt, o, ms[0], ms) && |o.file| >= STATIC_SIZE && ws[|es|].closed[c] == Finished(o);
  }

  /** Round trip over whole runs: every file ever closed reads back to the variable headers and YAML that the header
      fields at 28, 24, 20 and 16 of the map point to, as it was at the first frame of its session, and to the rows of
      all its frames, in order. */
  lemma ClosedFilesReadBack(gt: Order, ws: seq<Writer>, es: seq<Event>, c: nat)
    requires Run(gt, ws, es) && c < |ws[|es|].closed|
    ensures var ms := Members(ws, es, c, |es|);
            && ms != [] && |ms[0].m| >= 112
            && ReadsBack(ws[|es|].closed[c], ms[0].m, Rows(LayoutOf(ms[0]), ms))
  {
    var o := ClosedFileIs(gt, ws, es, c);
    FinishedReadsBack(gt, o, Members(ws, es, c, |es|)[0], Members(ws, es, c, |es|));
  }

  /** Every byte of every closed file: the header fields, with the latest tick at byte 48; the variable headers, the
      YAML and the rows; and where session time and lap are read in a row. */
  lemma ClosedFileBytes(gt: Order, ws: seq<Writer>, es: seq<Event>, c: nat)
    requires Run(gt, ws, es) && c < |ws[|es|].closed|
    ensures var ms := Members(ws, es, c, |es|);
            && ms != [] && |ms[0].m| >= 112
            && FileSays(ws[|es|].closed[c], ms[0].m, LayoutOf(ms[0]), ms)
  {
    var o := ClosedFileIs(gt, ws, es, c);
    FinishedFile(gt, o, Members(ws, es, c, |es|)[0], Members(ws, es, c, |es|));
  }

  /** After every event the open file is its static part and `record_count` rows of `buf_len` bytes. */
  lemma OpenFileLength(gt: Order, ws: seq<Writer>, es: seq<Event>, k: nat)
    requires Run(gt, ws, es) && k <= |es| && ws[k].current.Some?
    ensures var o := ws[k].current.value; |o.file| == RowsOffset(o.layout) + o.records * o.layout.bufLen
  {
    BookedRun(gt, ws, es, k);
    var o, ms := ws[k].current.value, Members(ws, es, |ws[k].closed|, k);
    ImageLength(ms[0].m, o.layout, 0, o.date, NO_FIGURES, Rows(o.layout, ms));
  }

  /** The figures of every closed file: date, start and end in bytes 112..136, laps at 136 and records at 140. */
  lemma ClosedFileFigures(gt: Order, ws: seq<Writer>, es: seq<Event>, c: nat)
    requires Run(gt, ws, es) && c < |ws[|es|].closed| && StrictOrder(gt)
    ensures var ms := Members(ws, es, c, |es|);
            && ms != []
            && exists f :: FiguresMean(gt, LayoutOf(ms[0]), Rows(LayoutOf(ms[0]), ms), f)
                           && FiguresSay(ws[|es|].closed[c], ms[0].now, f)
  {
    var o := ClosedFileIs(gt, ws, es, c);
    FinishedFigures(gt, o, Members(ws, es, c, |es|)[0], Members(ws, es, c, |es|));
  }

  // ---------- which frames share a file ----------

  /** Event `k` ends a session with that `sessionInfoUpdate`: the file is closed, or a connected frame has another. */
  predicate Ends(es: seq<Event>, update: i32, k: nat)
    requires k < |es|
  {
    es[k].Close? || (Frame(es, k) && LayoutOf(es[k].s).update != update)
  }

  /** The writer after one event, as far as sharing a file goes. */
  lemma EventShares(gt: Order, w: Writer, e: Event, update: i32)
    requires ValidWriter(w) && Possible(e)
    ensures var w1 := Next(gt, w, e);
            && |w1.closed| >= |w.closed|
            && (w.current.Some? && w.current.value.layout.update == update ==>
                  if e.Close? || (e.Map? && Connected(e.s) && LayoutOf(e.s).update != update)
                  then |w1.closed| > |w.closed|
                  else |w1.closed| == |w.closed| && w1.current.Some? && w1.current.value.layout.update == update)
            && (e.Map? && Connected(e.s) ==>
                  w1.current.Some? && w1.current.value.layout.update == LayoutOf(e.s).update)
  {
    if e.Map? && Connected(e.s) {
      AppendKeepsLayout(gt, Opened(Rolled(w, LayoutOf(e.s)), e.s.m, LayoutOf(e.s), e.s.now), e.s.m);
    }
  }

  lemma AppendKeepsLayout(gt: Order, o: Open, m: seq<byte>)
    requires |m| >= IRSDK_HEADER_SIZE && OffsetsNonNegative(m)
    ensures AppendRow(gt, o, m).layout == o.layout
  {
  }

  /** One of the events behind `i` up to `j` ends it. */
  ghost predicate Ended(es: seq<Event>, update: i32, i: nat, j: nat)
    requires j < |es|
  {
    exists x | i < x <= j :: Ends(es, update, x)
  }

  lemma EndedStep(es: seq<Event>, update: i32, i: nat, j: nat)
    requires i < j < |es|
    ensures Ended(es, update, i, j) <==> Ended(es, update, i, j - 1) || Ends(es, update, j)
  {
    if Ended(es, update, i, j - 1) {
      var x :| i < x <= j - 1 && Ends(es, update, x);
      assert Ended(es, update, i, j);
    }
  }

  /** The state after event `j`, when event `i` wrote to the open file. */
  ghost predicate Shares(ws: seq<Writer>, es: seq<Event>, i: nat, j: nat, update: i32)
    requires i <= j < |es| && |ws| == |es| + 1
  {
    if Ended(es, update, i, j) then FileNo(ws, j) > FileNo(ws, i)
    else FileNo(ws, j) == FileNo(ws, i) && ws[j + 1].current.Some? && ws[j + 1].current.value.layout.update == update
  }

  lemma {:induction false} SharedUntil(gt: Order, ws: seq<Writer>, es: seq<Event>, i: nat, j: nat, update: i32)
    requires Run(gt, ws, es) && i <= j < |es| && Frame(es, i) && LayoutOf(es[i].s).update == update
    ensures Shares(ws, es, i, j, update)
    decreases j
  {
    assert Steps(gt, ws, es, j);
    EventShares(gt, ws[j], es[j], update);
    if i < j {
      SharedUntil(gt, ws, es, i, j - 1, update);
      EndedStep(es, update, i, j);
    }
  }

  /** The partition into files: two connected frames are in the same file exactly when no close and no connected
      frame with another `sessionInfoUpdate` comes between them. */
  lemma SameFileIff(gt: Order, ws: seq<Writer>, es: seq<Event>, i: nat, j: nat)
    requires Run(gt, ws, es) && i <= j < |es| && Frame(es, i) && Frame(es, j)
    ensures FileNo(ws, i) == FileNo(ws, j) <==> forall x | i < x <= j :: !Ends(es, LayoutOf(es[i].s).update, x)
  {
    SharedUntil(gt, ws, es, i, j, LayoutOf(es[i].s).update);
    assert Ended(es, LayoutOf(es[i].s).update, i, j)
      <==> exists x | i < x <= j :: Ends(es, LayoutOf(es[i].s).update, x);
  }
}
