/** What an `.ibt` file contains: its rows are the frames of a session whose tick advanced, its figures the
    extremes of their session times and the lap records among them. */
module IbtSession {
  import opened Options
  import opened Bytes
  import opened Irsdk
  import opened IbtFile
  import opened IbtBytes
  import opened IbtWriter

  /** A map as it was handed to the writer, and the clock at that time. */
  datatype Sample = Sample(m: seq<byte>, now: word)

  predicate Connected(s: Sample) {
    Usable(s.m) && Parsed(s.m).Some?
  }

  predicate AllConnected(ms: seq<Sample>) {
    forall j | 0 <= j < |ms| :: Connected(ms[j])
  }

  function LayoutOf(s: Sample): Layout
    requires Connected(s)
  {
    Parsed(s.m).value
  }

  // ---------- rows ----------

  /** The latest tick of a session, or the initial value. */
  function LastTick(ms: seq<Sample>): i32
    requires AllConnected(ms)
  {
    if ms == [] then I32_MIN else TickOf(ms[|ms| - 1].m)
  }

  /** A map whose slot table can be read. */
  predicate Readable(m: seq<byte>) {
    |m| >= IRSDK_HEADER_SIZE && OffsetsNonNegative(m)
  }

  /** The tick differs from that of the frame before it. */
  predicate Fresh(ms: seq<Sample>, m: seq<byte>)
    requires AllConnected(ms) && Readable(m)
  {
    TickOf(m) != LastTick(ms)
  }

  /** The newest slot lies inside the map. */
  predicate Inside(l: Layout, m: seq<byte>)
    requires Readable(m)
  {
    RowStart(m) + l.bufLen <= |m|
  }

  function RowOf(l: Layout, m: seq<byte>): (r: seq<byte>)
    requires Readable(m) && Inside(l, m)
    ensures |r| == l.bufLen
  {
    m[RowStart(m)..RowStart(m) + l.bufLen]
  }

  /** The rows of a session: the newest slot of every frame whose tick advanced, where it lies in bounds. */
  function Rows(l: Layout, ms: seq<Sample>): (rows: seq<seq<byte>>)
    requires AllConnected(ms)
    ensures RowsOf(l, rows)
  {
    if ms == [] then []
    else
      var before, m := ms[..|ms| - 1], ms[|ms| - 1].m;
      if Fresh(before, m) && Inside(l, m) then Rows(l, before) + [RowOf(l, m)] else Rows(l, before)
  }

  // ---------- figures ----------

  function Times(l: Layout, rows: seq<seq<byte>>): seq<word>
    requires RowsOf(l, rows)
  {
    if l.timeOff.Some? && l.timeOff.value + 8 <= l.bufLen then
      seq(|rows|, i requires 0 <= i < |rows| => rows[i][l.timeOff.value..l.timeOff.value + 8])
    else []
  }

  function Laps(l: Layout, rows: seq<seq<byte>>): seq<i32>
    requires RowsOf(l, rows)
  {
    if l.lapOff.Some? && l.lapOff.value + 4 <= l.bufLen then
      seq(|rows|, i requires 0 <= i < |rows| => I32At(rows[i], l.lapOff.value))
    else []
  }

  function Latest(gt: Order, times: seq<word>): (t: word)
    requires times != []
  {
    var last := |times| - 1;
    if last == 0 then times[0]
    else
      var t := Latest(gt, times[..last]);
      if gt(times[last], t) then times[last] else t
  }

  /** `>` on session times without NaN. */
  ghost predicate StrictOrder(gt: Order) {
    && (forall a: word :: !gt(a, a))
    && (forall a: word, b: word, c: word :: gt(a, b) && gt(b, c) ==> gt(a, c))
    && (forall a: word, b: word, c: word :: gt(a, c) ==> gt(a, b) || gt(b, c))
  }

  /** The end time is one of the session times and none is later. */
  lemma {:induction false} LatestIsMaximum(gt: Order, times: seq<word>)
    requires StrictOrder(gt) && times != []
    ensures Latest(gt, times) in times
    ensures forall i | 0 <= i < |times| :: !gt(times[i], Latest(gt, times))
  {
    var last := |times| - 1;
    if last > 0 {
      LatestIsMaximum(gt, times[..last]);
      var t := Latest(gt, times[..last]);
      assert forall i | 0 <= i < last :: !gt(times[..last][i], t);
    }
  }

  function MaxLap(laps: seq<i32>): (r: i32)
    requires laps != []
  {
    var last := |laps| - 1;
    if last == 0 then laps[0]
    else if laps[last] > MaxLap(laps[..last]) then laps[last] else MaxLap(laps[..last])
  }

  lemma {:induction false} MaxLapIsMaximum(laps: seq<i32>)
    requires laps != []
    ensures MaxLap(laps) in laps && forall i | 0 <= i < |laps| :: laps[i] <= MaxLap(laps)
  {
    var last := |laps| - 1;
    if last > 0 {
      MaxLapIsMaximum(laps[..last]);
      assert forall i | 0 <= i < last :: laps[..last][i] <= MaxLap(laps[..last]);
    }
  }

  /** Lap `i` exceeds all laps before it. */
  predicate IsRecord(laps: seq<i32>, i: nat)
    requires i < |laps|
  {
    forall j | 0 <= j < i :: laps[j] < laps[i]
  }

  /** The number of strict prefix maxima. */
  function Records(laps: seq<i32>): (r: nat)
    ensures laps != [] ==> r > 0
  {
    if laps == [] then 0
    else Records(laps[..|laps| - 1]) + if IsRecord(laps, |laps| - 1) then 1 else 0
  }

  lemma RecordIffAboveMax(laps: seq<i32>, lap: i32)
    requires laps != []
    ensures IsRecord(laps + [lap], |laps|) <==> lap > MaxLap(laps)
  {
    MaxLapIsMaximum(laps);
    var i :| 0 <= i < |laps| && laps[i] == MaxLap(laps);
    assert (laps + [lap])[i] == laps[i];
    if lap > MaxLap(laps) {
      forall j | 0 <= j < |laps| ensures (laps + [lap])[j] < lap {
        assert laps[j] <= MaxLap(laps);
      }
    }
  }

  /** The lap before the first one does not exist: nothing is ever counted. */
  predicate Underflows(laps: seq<i32>) {
    laps != [] && laps[0] == I32_MIN
  }

  function LapCount(laps: seq<i32>): nat {
    if Underflows(laps) then 0 else Records(laps)
  }

  /** What `last_lap` holds after these laps. */
  function LastLap(laps: seq<i32>): i32
    requires laps != []
  {
    if Underflows(laps) then 0x7FFF_FFFF else MaxLap(laps)
  }

  /** Start and end time after these session times. */
  predicate TimesHold(gt: Order, o: Open, times: seq<word>) {
    && o.start == (if times == [] then ZERO else times[0])
    && o.end == (if times == [] then ZERO else Latest(gt, times))
  }

  predicate FiguresHold(gt: Order, o: Open, rows: seq<seq<byte>>)
    requires RowsOf(o.layout, rows)
  {
    var times, laps := Times(o.layout, rows), Laps(o.layout, rows);
    && o.records == |rows|
    && TimesHold(gt, o, times)
    && o.laps == LapCount(laps)
    && (laps != [] ==> o.lastLap == LastLap(laps))
  }

  // ---------- what an open file holds ----------

  /** `o` was opened on `first` and has seen the frames `ms`. */
  predicate Holds(gt: Order, o: Open, first: Sample, ms: seq<Sample>) {
    && Connected(first) && AllConnected(ms) && o.layout == LayoutOf(first) && o.date == first.now
    && o.file == Image(first.m, o.layout, 0, o.date, NO_FIGURES, Rows(o.layout, ms))
    && FiguresHold(gt, o, Rows(o.layout, ms))
    && o.lastTick == LastTick(ms)
  }

  lemma StartHolds(gt: Order, first: Sample)
    requires Connected(first)
    ensures Holds(gt, StartSession(first.m, LayoutOf(first), first.now), first, [])
  {
  }

  lemma TimesStep(l: Layout, rows: seq<seq<byte>>, row: seq<byte>)
    requires RowsOf(l, rows) && |row| == l.bufLen && TimeOf(l, row).Some?
    ensures Times(l, rows + [row]) == Times(l, rows) + [TimeOf(l, row).value] && |Times(l, rows)| == |rows|
  {
  }

  lemma LatestStep(gt: Order, times: seq<word>, t: word)
    requires times != []
    ensures Latest(gt, times + [t]) == if gt(t, Latest(gt, times)) then t else Latest(gt, times)
  {
    assert (times + [t])[..|times|] == times;
  }

  lemma OneTimeAdded(gt: Order, o: Open, times: seq<word>, t: word)
    requires TimesHold(gt, o, times) && o.records == |times| + 1
    ensures TimesHold(gt, WithTime(gt, o, Some(t)), times + [t])
  {
    if times != [] {
      LatestStep(gt, times, t);
    }
  }

  lemma TimeAdded(gt: Order, o: Open, rows: seq<seq<byte>>, row: seq<byte>)
    requires RowsOf(o.layout, rows) && |row| == o.layout.bufLen && o.records == |rows| + 1
    requires TimesHold(gt, o, Times(o.layout, rows))
    ensures var o1 := WithTime(gt, o, TimeOf(o.layout, row));
            TimesHold(gt, o1, Times(o.layout, rows + [row])) && o1 == o.(start := o1.start, end := o1.end)
  {
    if TimeOf(o.layout, row).Some? {
      TimesStep(o.layout, rows, row);
      OneTimeAdded(gt, o, Times(o.layout, rows), TimeOf(o.layout, row).value);
    }
  }

  lemma LapAdded(o: Open, rows: seq<seq<byte>>, row: seq<byte>)
    requires RowsOf(o.layout, rows) && |row| == o.layout.bufLen && o.records == |rows| + 1
    requires o.laps == LapCount(Laps(o.layout, rows))
    requires Laps(o.layout, rows) != [] ==> o.lastLap == LastLap(Laps(o.layout, rows))
    ensures var o1 := WithLap(o, LapOf(o.layout, row));
            var laps := Laps(o.layout, rows + [row]);
            && o1.laps == LapCount(laps) && (laps != [] ==> o1.lastLap == LastLap(laps))
            && o1 == o.(laps := o1.laps, lastLap := o1.lastLap)
  {
    var l := o.layout;
    if LapOf(l, row).Some? {
      var before, lap := Laps(l, rows), LapOf(l, row).value;
      assert Laps(l, rows + [row]) == before + [lap];
      assert (before + [lap])[..|before|] == before;
      if before != [] {
        RecordIffAboveMax(before, lap);
      }
    }
  }

  lemma FiguresAdded(gt: Order, o: Open, rows: seq<seq<byte>>, row: seq<byte>)
    requires RowsOf(o.layout, rows) && |row| == o.layout.bufLen && FiguresHold(gt, o, rows)
    ensures var o1 := WithRow(gt, o, row);
            && RowsOf(o.layout, rows + [row])
            && o1.layout == o.layout && o1.date == o.date && o1.lastTick == o.lastTick && o1.file == o.file + row
            && FiguresHold(gt, o1, rows + [row])
  {
    var o1 := o.(file := o.file + row, records := o.records + 1);
    TimeAdded(gt, o1, rows, row);
    var o2 := WithTime(gt, o1, TimeOf(o.layout, row));
    LapAdded(o2, rows, row);
    var o3 := WithLap(o2, LapOf(o.layout, row));
    assert o3 == WithRow(gt, o, row);
  }

  lemma RowAdded(gt: Order, o: Open, first: Sample, rows: seq<seq<byte>>, row: seq<byte>)
    requires Connected(first) && o.layout == LayoutOf(first) && RowsOf(o.layout, rows) && |row| == o.layout.bufLen
    requires o.file == Image(first.m, o.layout, 0, o.date, NO_FIGURES, rows) && FiguresHold(gt, o, rows)
    ensures var o1 := WithRow(gt, o, row);
            && RowsOf(o.layout, rows + [row])
            && o1.layout == o.layout && o1.date == o.date && o1.lastTick == o.lastTick
            && o1.file == Image(first.m, o.layout, 0, o.date, NO_FIGURES, rows + [row])
            && FiguresHold(gt, o1, rows + [row])
  {
    ImageAppends(first.m, o.layout, 0, o.date, NO_FIGURES, rows, row);
    FiguresAdded(gt, o, rows, row);
  }

  lemma RowsStep(l: Layout, ms: seq<Sample>, s: Sample)
    requires AllConnected(ms) && Connected(s)
    ensures AllConnected(ms + [s]) && LastTick(ms + [s]) == TickOf(s.m)
    ensures Rows(l, ms + [s]) == if Fresh(ms, s.m) && Inside(l, s.m) then Rows(l, ms) + [RowOf(l, s.m)] else Rows(l, ms)
  {
    assert (ms + [s])[..|ms|] == ms;
  }

  lemma AppendCases(gt: Order, o: Open, m: seq<byte>)
    requires Readable(m)
    ensures var o1 := o.(lastTick := TickOf(m));
            AppendRow(gt, o, m)
            == if TickOf(m) != o.lastTick && Inside(o.layout, m) then WithRow(gt, o1, RowOf(o.layout, m)) else o1
  {
  }

  /** One more frame. */
  lemma AppendHolds(gt: Order, o: Open, first: Sample, ms: seq<Sample>, s: Sample)
    requires Holds(gt, o, first, ms) && Connected(s)
    ensures Holds(gt, AppendRow(gt, o, s.m), first, ms + [s])
  {
    var o1 := o.(lastTick := TickOf(s.m));
    RowsStep(o.layout, ms, s);
    AppendCases(gt, o, s.m);
    if Fresh(ms, s.m) && Inside(o.layout, s.m) {
      RowAdded(gt, o1, first, Rows(o.layout, ms), RowOf(o.layout, s.m));
    }
  }

  /** A closed file is the image of its session. */
  lemma FinishedIsImage(gt: Order, o: Open, first: Sample, ms: seq<Sample>)
    requires Holds(gt, o, first, ms)
    ensures |o.file| >= STATIC_SIZE
    ensures Finished(o) == Image(first.m, o.layout, FinalTick(o), o.date, Figures(o.start, o.end, o.laps, o.records),
                                 Rows(o.layout, ms))
  {
    ImageFinishes(first.m, o.layout, o.date, Rows(o.layout, ms), FinalTick(o), Figures(o.start, o.end, o.laps,
      o.records));
  }

  /** Closing changes the bytes 48..52 and 112..144 and no others. */
  lemma FinishPatches(o: Open, k: nat)
    requires |o.file| >= STATIC_SIZE && k < |o.file| && !(48 <= k < 52) && !(112 <= k < 144)
    ensures |Finished(o)| == |o.file| && Finished(o)[k] == o.file[k]
  {
  }

  /** The start is the first session time, the end the greatest, the lap count the number of lap records unless
      the first lap is the least `i32`, and the record count the number of rows. */
  predicate FiguresMean(gt: Order, l: Layout, rows: seq<seq<byte>>, f: Figures)
    requires RowsOf(l, rows)
  {
    var times, laps := Times(l, rows), Laps(l, rows);
    && f.records == |rows|
    && f.laps == (if Underflows(laps) then 0 else Records(laps))
    && (times == [] ==> f.start == f.end == ZERO)
    && (times != [] ==> f.start == times[0] && f.end in times && forall i | 0 <= i < |times| :: !gt(times[i], f.end))
  }

  /** A closed file, byte by byte: its header carries the latest tick, or 0 when there is no row. */
  lemma FinishedSays(gt: Order, o: Open, first: Sample, ms: seq<Sample>)
    requires Holds(gt, o, first, ms) && |o.file| >= STATIC_SIZE
    ensures var rows := Rows(o.layout, ms);
            && |first.m| >= 112 && HeaderSays(Finished(o), first.m, ShownTick(o.layout, ms))
            && RegionsSay(Finished(o), first.m, rows)
            && FiguresSay(Finished(o), first.now, Figures(o.start, o.end, o.laps, o.records))
  {
    FinishedIsImage(gt, o, first, ms);
    ImageSays(first.m, o.layout, FinalTick(o), o.date, Figures(o.start, o.end, o.laps, o.records), Rows(o.layout, ms));
  }

  /** The tick in a finished header: that of the latest frame, unless there is no row or it is the least `i32`. */
  function ShownTick(l: Layout, ms: seq<Sample>): i32
    requires AllConnected(ms)
  {
    if Rows(l, ms) == [] || LastTick(ms) == -0x8000_0000 then 0 else LastTick(ms)
  }

  /** What reading a file must give: what the header fields of `m` say and point to, and the rows. */
  predicate ReadsBack(file: seq<byte>, m: seq<byte>, rows: seq<seq<byte>>)
    requires FieldsNonNegative(m) && |m| >= 112
  {
    var vhOff, siOff, vars, yaml := I32At(m, 28), I32At(m, 20), I32At(m, 24), I32At(m, 16);
    && vhOff + 144 * vars <= |m| && siOff + yaml <= |m|
    && Load(file)
       == Some(Loaded(if I32At(m, 0) != 0 then I32At(m, 0) else 2, if I32At(m, 8) != 0 then I32At(m, 8) else 60,
                      I32At(m, 12), vars, I32At(m, 36), m[vhOff..vhOff + 144 * vars], m[siOff..siOff + yaml], rows))
  }

  /** The parts that were extracted are those regions of the map. */
  lemma ExtractedAre(m: seq<byte>, l: Layout)
    requires FieldsNonNegative(m) && Parsed(m) == Some(l)
    ensures |m| >= 112 && I32At(m, 28) + 144 * I32At(m, 24) <= |m| && I32At(m, 20) + I32At(m, 16) <= |m|
    ensures VarHeaders(m, l) == m[I32At(m, 28)..I32At(m, 28) + 144 * I32At(m, 24)]
    ensures Yaml(m, l) == m[I32At(m, 20)..I32At(m, 20) + I32At(m, 16)]
  {
    ParsedIs(m);
  }

  lemma LoadedReadsBack(file: seq<byte>, m: seq<byte>, l: Layout, rows: seq<seq<byte>>)
    requires FieldsNonNegative(m) && Parsed(m) == Some(l)
    requires Load(file)
             == Some(Loaded(if l.ver != 0 then l.ver else 2, if l.tickRate != 0 then l.tickRate else 60, l.update,
                            l.numVars, l.bufLen, VarHeaders(m, l), Yaml(m, l), rows))
    ensures |m| >= 112 && ReadsBack(file, m, rows)
  {
    ParsedIs(m);
    ExtractedAre(m, l);
  }

  lemma FinishedReadsBack(gt: Order, o: Open, first: Sample, ms: seq<Sample>)
    requires Holds(gt, o, first, ms) && |o.file| >= STATIC_SIZE
    ensures |first.m| >= 112 && ReadsBack(Finished(o), first.m, Rows(o.layout, ms))
  {
    var f := Figures(o.start, o.end, o.laps, o.records);
    FinishedIsImage(gt, o, first, ms);
    LoadImage(first.m, o.layout, FinalTick(o), o.date, f, Rows(o.layout, ms));
    LoadedReadsBack(Finished(o), first.m, o.layout, Rows(o.layout, ms));
  }

  /** Every byte of a file outside the subheader, and where session time and lap are read in a row. */
  predicate FileSays(file: seq<byte>, m: seq<byte>, l: Layout, ms: seq<Sample>)
    requires FieldsNonNegative(m) && |m| >= 112 && AllConnected(ms)
  {
    && HeaderSays(file, m, ShownTick(l, ms)) && RegionsSay(file, m, Rows(l, ms)) && l.bufLen == I32At(m, 36)
    && OffsetOfVar(m, SESSION_TIME, l.timeOff) && OffsetOfVar(m, LAP, l.lapOff)
  }

  lemma FinishedFile(gt: Order, o: Open, first: Sample, ms: seq<Sample>)
    requires Holds(gt, o, first, ms) && |o.file| >= STATIC_SIZE
    ensures |first.m| >= 112 && FileSays(Finished(o), first.m, o.layout, ms)
  {
    FinishedSays(gt, o, first, ms);
    ParsedIs(first.m);
    ParsedVariables(first.m);
  }

  lemma FinishedFigures(gt: Order, o: Open, first: Sample, ms: seq<Sample>)
    requires Holds(gt, o, first, ms) && StrictOrder(gt) && |o.file| >= STATIC_SIZE
    ensures var f := Figures(o.start, o.end, o.laps, o.records);
            FiguresMean(gt, o.layout, Rows(o.layout, ms), f) && FiguresSay(Finished(o), first.now, f)
  {
    if Times(o.layout, Rows(o.layout, ms)) != [] {
      LatestIsMaximum(gt, Times(o.layout, Rows(o.layout, ms)));
    }
    FinishedSays(gt, o, first, ms);
  }
}
