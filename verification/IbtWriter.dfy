/** `IbtWriter` (ibt_writer.rs): one file per session, one row per new tick, figures patched in when a file is
    closed. `Writer` is its state as a value and `Update` and `Finish` its transitions; the classes are the
    code over a file with a cursor. */
module IbtWriter {
  import opened Options
  import opened Bytes
  import opened Irsdk
  import opened IbtFile

  /** `a > b` on the `f64` session times. */
  type Order = (word, word) -> bool

  datatype Open = Open(
    file: seq<byte>,
    layout: Layout,
    date: word,
    records: nat,
    start: word,
    end: word,
    laps: nat,
    lastLap: i32,
    lastTick: i32)

  /** The file being written, and the files closed so far. */
  datatype Writer = Writer(current: Option<Open>, closed: seq<seq<byte>>)

  /** A map handed to the writer. */
  predicate Usable(m: seq<byte>) {
    FieldsNonNegative(m) && |m| <= MAX_TELEMETRY_SIZE
  }

  function TickOf(m: seq<byte>): i32
    requires |m| >= IRSDK_HEADER_SIZE && OffsetsNonNegative(m)
  {
    NewestRow(m).value.0
  }

  function RowStart(m: seq<byte>): nat
    requires |m| >= IRSDK_HEADER_SIZE && OffsetsNonNegative(m)
  {
    NewestRow(m).value.1
  }

  // ---------- transitions ----------

  function StartSession(m: seq<byte>, l: Layout, date: word): Open
    requires Extracted(m, l)
  {
    Open(Prefix(m, l, date), l, date, 0, ZERO, ZERO, 0, I32_MIN, I32_MIN)
  }

  function TimeOf(l: Layout, row: seq<byte>): Option<word> {
    match l.timeOff
    case Some(off) => if off + 8 <= |row| then Some(row[off..off + 8]) else None
    case None => None
  }

  function LapOf(l: Layout, row: seq<byte>): Option<i32> {
    match l.lapOff
    case Some(off) => if off + 4 <= |row| then Some(I32At(row, off)) else None
    case None => None
  }

  /** `lap - 1` on an `i32` without overflow checks. */
  function Decrement(lap: i32): i32 {
    if lap == I32_MIN then 0x7FFF_FFFF else lap - 1
  }

  function WithTime(gt: Order, o: Open, t: Option<word>): Open {
    match t
    case None => o
    case Some(t) =>
      if o.records == 1 then o.(start := t, end := t)
      else if gt(t, o.end) then o.(end := t)
      else o
  }

  function WithLap(o: Open, lap: Option<i32>): Open {
    match lap
    case None => o
    case Some(lap) =>
      var last := if o.records == 1 then Decrement(lap) else o.lastLap;
      if lap > last then o.(laps := o.laps + 1, lastLap := lap) else o.(lastLap := last)
  }

  function WithRow(gt: Order, o: Open, row: seq<byte>): (r: Open)
    ensures |r.file| == |o.file| + |row|
  {
    var o1 := o.(file := o.file + row, records := o.records + 1);
    WithLap(WithTime(gt, o1, TimeOf(o.layout, row)), LapOf(o.layout, row))
  }

  function AppendRow(gt: Order, o: Open, m: seq<byte>): (r: Open)
    requires |m| >= IRSDK_HEADER_SIZE && OffsetsNonNegative(m)
    ensures |r.file| >= |o.file|
  {
    if TickOf(m) == o.lastTick then o
    else
      var o1 := o.(lastTick := TickOf(m));
      if RowStart(m) + o.layout.bufLen > |m| then o1
      else WithRow(gt, o1, m[RowStart(m)..RowStart(m) + o.layout.bufLen])
  }

  function FinalTick(o: Open): i32 {
    if o.records > 0 && o.lastTick != I32_MIN then o.lastTick else 0
  }

  function Finished(o: Open): seq<byte>
    requires |o.file| >= STATIC_SIZE
  {
    Splice(Splice(o.file, 48, I32Bytes(FinalTick(o))), IRSDK_HEADER_SIZE,
           Subheader(o.date, Figures(o.start, o.end, o.laps, o.records)))
  }

  predicate ValidWriter(w: Writer) {
    w.current.Some? ==> |w.current.value.file| >= STATIC_SIZE
  }

  function Finish(w: Writer): (r: Writer)
    requires ValidWriter(w)
    ensures ValidWriter(r)
  {
    match w.current
    case None => w
    case Some(o) => Writer(None, w.closed + [Finished(o)])
  }

  /** A changed session closes the current file. */
  function Rolled(w: Writer, l: Layout): (r: Writer)
    requires ValidWriter(w)
    ensures ValidWriter(r)
  {
    if w.current.Some? && w.current.value.layout.update != l.update then Finish(w) else w
  }

  function Opened(w: Writer, m: seq<byte>, l: Layout, now: word): (o: Open)
    requires ValidWriter(w) && Extracted(m, l)
    ensures |o.file| >= STATIC_SIZE
  {
    match w.current
    case Some(o) => o
    case None => StartSession(m, l, now)
  }

  /** `on_map_update`; `now` is the wall clock. */
  function Update(gt: Order, w: Writer, m: seq<byte>, now: word): (r: Writer)
    requires ValidWriter(w) && Usable(m)
    ensures ValidWriter(r)
  {
    match Parsed(m)
    case None => w
    case Some(l) =>
      var w1 := Rolled(w, l);
      Writer(Some(AppendRow(gt, Opened(w1, m, l, now), m)), w1.closed)
  }

  // ---------- the code ----------

  /** A file and its cursor. */
  class DiskFile {
    var data: seq<byte>
    var pos: nat

    ghost predicate Valid()
      reads this
    {
      pos <= |data|
    }

    constructor ()
      ensures Valid() && data == [] && pos == 0
    {
      data, pos := [], 0;
    }

    method WriteAll(d: seq<byte>)
      requires Valid()
      modifies this
      ensures Valid() && pos == old(pos) + |d|
      ensures old(pos) == |old(data)| ==> data == old(data) + d
      ensures old(pos) + |d| <= |old(data)| ==> data == Splice(old(data), old(pos), d)
    {
      data := data[..pos] + d + if pos + |d| <= |data| then data[pos + |d|..] else [];
      pos := pos + |d|;
    }

    method SeekTo(p: nat)
      requires p <= |data|
      modifies this
      ensures Valid() && pos == p && data == old(data)
    {
      pos := p;
    }
  }

  class OpenIbt {
    const file: DiskFile
    const layout: Layout
    const startDate: word
    var recordCount: nat
    var startTime: word
    var endTime: word
    var lapCount: nat
    var lastLap: i32
    var lastTick: i32

    ghost function View(): Open
      reads this, file
    {
      Open(file.data, layout, startDate, recordCount, startTime, endTime, lapCount, lastLap, lastTick)
    }

    ghost predicate Valid()
      reads this, file
    {
      file.pos == |file.data| && |file.data| >= STATIC_SIZE
    }

    /** Write the static part. */
    constructor (m: seq<byte>, layout: Layout, startDate: word)
      requires Extracted(m, layout)
      ensures Valid() && View() == StartSession(m, layout, startDate) && fresh(file)
    {
      var f := new DiskFile();
      var prefix := Prefix(m, layout, startDate);
      f.WriteAll(prefix);
      file := f;
      this.layout := layout;
      this.startDate := startDate;
      recordCount, lapCount := 0, 0;
      startTime, endTime := ZERO, ZERO;
      lastLap, lastTick := I32_MIN, I32_MIN;
    }

    method TrackTime(gt: Order, row: seq<byte>)
      modifies this
      ensures View() == WithTime(gt, old(View()), TimeOf(layout, row))
    {
      if layout.timeOff.Some? {
        var off := layout.timeOff.value;
        if off + 8 <= |row| {
          var t: word := row[off..off + 8];
          if recordCount == 1 {
            startTime := t;
            endTime := t;
          } else if gt(t, endTime) {
            endTime := t;
          }
        }
      }
    }

    method TrackLap(row: seq<byte>)
      modifies this
      ensures View() == WithLap(old(View()), LapOf(layout, row))
    {
      if layout.lapOff.Some? {
        var off := layout.lapOff.value;
        if off + 4 <= |row| {
          var lap := I32At(row, off);
          if recordCount == 1 {
            lastLap := Decrement(lap);
          }
          if lap > lastLap {
            lapCount := lapCount + 1;
            lastLap := lap;
          }
        }
      }
    }

    method WriteRow(gt: Order, row: seq<byte>)
      requires Valid()
      modifies this, file
      ensures Valid() && View() == WithRow(gt, old(View()), row)
    {
      file.WriteAll(row);
      recordCount := recordCount + 1;
      TrackTime(gt, row);
      TrackLap(row);
    }

    method Append(gt: Order, m: seq<byte>)
      requires Valid() && |m| >= IRSDK_HEADER_SIZE && OffsetsNonNegative(m)
      modifies this, file
      ensures Valid() && View() == AppendRow(gt, old(View()), m)
    {
      var active := FindNewestRow(m);
      var (tick, bufOff) := active.value;
      if tick == lastTick {
        return;
      }
      lastTick := tick;
      if bufOff + layout.bufLen > |m| {
        return;
      }
      WriteRow(gt, m[bufOff..bufOff + layout.bufLen]);
    }

    /** Patch the header and the subheader. */
    method Finalise()
      requires Valid()
      modifies file
      ensures file.data == Finished(old(View()))
    {
      var sub := Subheader(startDate, Figures(startTime, endTime, lapCount, recordCount));
      var finalTick := if recordCount > 0 && lastTick != I32_MIN then lastTick else 0;
      file.SeekTo(48);
      file.WriteAll(I32Bytes(finalTick));
      file.SeekTo(IRSDK_HEADER_SIZE);
      file.WriteAll(sub);
    }
  }

  class IbtWriter {
    const gt: Order
    var open: OpenIbt?
    var closed: seq<seq<byte>>       // what the files closed so far contain

    ghost function View(): Writer
      reads this, open, if open == null then {} else {open.file}
    {
      Writer(if open == null then None else Some(open.View()), closed)
    }

    ghost predicate Valid()
      reads this, open, if open == null then {} else {open.file}
    {
      open != null ==> open.Valid()
    }

    constructor (gt: Order)
      ensures Valid() && View() == Writer(None, []) && this.gt == gt && open == null
    {
      this.gt := gt;
      open, closed := null, [];
    }

    method Close()
      requires Valid()
      modifies this, open, if open == null then {} else {open.file}
      ensures Valid() && open == null && View() == Finish(old(View()))
    {
      if open != null {
        var o: OpenIbt := open;
        open := null;
        o.Finalise();
        closed := closed + [o.file.data];
      }
    }

    /** Close the file of another session, and have one open for this one. */
    method OpenFor(m: seq<byte>, layout: Layout, now: word)
      requires Valid() && Extracted(m, layout)
      modifies this, open, if open == null then {} else {open.file}
      ensures Valid() && open != null && (open == old(open) || (fresh(open) && fresh(open.file)))
      ensures var w := Rolled(old(View()), layout);
              View() == Writer(Some(Opened(w, m, layout, now)), w.closed)
    {
      if open != null && open.layout.update != layout.update {
        Close();
      }
      if open == null {
        open := new OpenIbt(m, layout, now);
      }
    }

    method OnMapUpdate(m: seq<byte>, now: word)
      requires Valid() && Usable(m)
      modifies this, open, if open == null then {} else {open.file}
      ensures Valid() && View() == Update(gt, old(View()), m, now)
    {
      var layout := Parse(m);
      if layout.Some? {
        OpenFor(m, layout.value, now);
        open.Append(gt, m);
      }
    }
  }
}
