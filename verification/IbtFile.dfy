/** The `.ibt` disk format (ibt_writer.rs): what of a live map goes into a file's static part, and how a file is
    read back. */
module IbtFile {
  import opened Options
  import opened Bytes
  import opened Wire
  import opened Irsdk
  import opened Fragmentation

  const DISK_SUBHEADER_SIZE: nat := 32
  const VARHEADER_SIZE: nat := 144
  const STATIC_SIZE: nat := 144 // both headers

  /** `i64` and `f64` values as their eight bytes; nothing but their order is ever looked at. */
  type word = s: seq<byte> | |s| == 8 witness [0, 0, 0, 0, 0, 0, 0, 0]

  const ZERO: word := [0, 0, 0, 0, 0, 0, 0, 0]

  const SESSION_TIME: seq<byte> := [83, 101, 115, 115, 105, 111, 110, 84, 105, 109, 101]
  const LAP: seq<byte> := [76, 97, 112]

  // ---------- variables by name ----------

  function UpToZero(s: seq<byte>): (r: seq<byte>)
    ensures |r| <= |s| && r == s[..|r|] && 0 !in r
    ensures |r| < |s| ==> s[|r|] == 0
  {
    if s == [] || s[0] == 0 then [] else [s[0]] + UpToZero(s[1..])
  }

  /** Variable header `i` lies inside the map. */
  predicate HasVar(m: seq<byte>, vhOff: nat, i: nat) {
    vhOff + i * VARHEADER_SIZE + VARHEADER_SIZE <= |m|
  }

  predicate NamedAt(m: seq<byte>, vhOff: nat, i: nat, name: seq<byte>) {
    HasVar(m, vhOff, i)
    && var base := vhOff + i * VARHEADER_SIZE;
       UpToZero(m[base + 16..base + 48]) == name
  }

  /** Row offset and type of variable `i`. */
  function VarAt(m: seq<byte>, vhOff: nat, i: nat): (nat, i32)
    requires HasVar(m, vhOff, i)
  {
    var base := vhOff + i * VARHEADER_SIZE;
    (AsUsize(I32At(m, base + 4)), I32At(m, base))
  }

  /** The search from variable `i` on. */
  function FindFrom(m: seq<byte>, vhOff: nat, numVars: nat, name: seq<byte>, i: nat): Option<(nat, i32)>
    requires i <= numVars
    decreases numVars - i
  {
    if i == numVars || !HasVar(m, vhOff, i) then None
    else if NamedAt(m, vhOff, i, name) then Some(VarAt(m, vhOff, i))
    else FindFrom(m, vhOff, numVars, name, i + 1)
  }

  method FindVar(m: seq<byte>, vhOff: nat, numVars: nat, name: seq<byte>) returns (r: Option<(nat, i32)>)
    ensures r == FindFrom(m, vhOff, numVars, name, 0)
  {
    for i := 0 to numVars
      invariant FindFrom(m, vhOff, numVars, name, 0) == FindFrom(m, vhOff, numVars, name, i)
    {
      var base := vhOff + i * VARHEADER_SIZE;
      if base + VARHEADER_SIZE > |m| {
        return None;
      }
      var nb := m[base + 16..base + 16 + 32];
      if UpToZero(nb) == name {
        return Some((AsUsize(I32At(m, base + 4)), I32At(m, base)));
      }
    }
    r := None;
  }

  /** `j` is the first variable of that name from `i` on, or the number of variables when there is none. */
  predicate FirstNamed(m: seq<byte>, vhOff: nat, numVars: nat, name: seq<byte>, i: nat, j: nat) {
    && i <= j <= numVars
    && (forall k | i <= k < j :: !NamedAt(m, vhOff, k, name))
    && (j < numVars ==> NamedAt(m, vhOff, j, name))
  }

  /** When all variable headers lie inside the map, the search returns the first variable of that name. */
  lemma {:induction false} FindIsFirst(m: seq<byte>, vhOff: nat, numVars: nat, name: seq<byte>, i: nat, j: nat)
    requires vhOff + numVars * VARHEADER_SIZE <= |m| && FirstNamed(m, vhOff, numVars, name, i, j)
    ensures FindFrom(m, vhOff, numVars, name, i) == if j == numVars then None else Some(VarAt(m, vhOff, j))
    decreases numVars - i
  {
    if i < j {
      assert !NamedAt(m, vhOff, i, name);
      FindIsFirst(m, vhOff, numVars, name, i + 1, j);
    }
  }

  // ---------- the layout of a live map ----------

  datatype Layout = Layout(
    ver: i32,
    tickRate: i32,
    update: i32,              // sessionInfoUpdate
    numVars: nat,
    bufLen: nat,
    vhOff: nat,
    siOff: nat,
    siLen: nat,
    timeOff: Option<nat>,     // row offset of SessionTime
    lapOff: Option<nat>)      // row offset of Lap

  /** The header fields the writer converts with `as usize` are not negative. */
  predicate FieldsNonNegative(m: seq<byte>) {
    |m| >= IRSDK_HEADER_SIZE ==>
      && I32At(m, 16) >= 0 && I32At(m, 20) >= 0 && I32At(m, 24) >= 0 && I32At(m, 28) >= 0
      && I32At(m, 36) >= 0 && OffsetsNonNegative(m)
  }

  function RowOffset(m: seq<byte>, vhOff: nat, numVars: nat, name: seq<byte>): Option<nat> {
    match FindFrom(m, vhOff, numVars, name, 0)
    case Some(v) => Some(v.0)
    case None => None
  }

  /** `MapLayout::parse`: nothing for a map that is not connected or not populated. */
  function Parsed(m: seq<byte>): (r: Option<Layout>)
    requires FieldsNonNegative(m)
    ensures r.Some? ==> |m| >= IRSDK_HEADER_SIZE && Extracted(m, r.value)
  {
    if |m| < IRSDK_HEADER_SIZE || Status(m) % 2 == 0 then None
    else
      var numVars := AsUsize(I32At(m, 24));
      var bufLen := AsUsize(BufLen(m));
      var vhOff := AsUsize(I32At(m, 28));
      var siOff := AsUsize(I32At(m, 20));
      var siLen := AsUsize(I32At(m, 16));
      if numVars == 0 || bufLen == 0 || siLen == 0
         || vhOff + numVars * VARHEADER_SIZE > |m| || siOff + siLen > |m| then None
      else Some(Layout(I32At(m, 0), I32At(m, 8), I32At(m, 12), numVars, bufLen, vhOff, siOff, siLen,
                       RowOffset(m, vhOff, numVars, SESSION_TIME), RowOffset(m, vhOff, numVars, LAP)))
  }

  /** The static regions of the layout lie inside the map. */
  predicate Extracted(m: seq<byte>, l: Layout) {
    && l.numVars > 0 && l.siLen > 0 && 0 < l.bufLen < 0x8000_0000
    && l.vhOff + l.numVars * VARHEADER_SIZE <= |m| && l.siOff + l.siLen <= |m|
  }

  method Parse(m: seq<byte>) returns (r: Option<Layout>)
    requires FieldsNonNegative(m)
    ensures r == Parsed(m)
  {
    if |m| < IRSDK_HEADER_SIZE {
      return None;
    }
    if I32At(m, 4) % 2 == 0 {
      return None;
    }
    var numVars := AsUsize(I32At(m, 24));
    var bufLen := AsUsize(I32At(m, 36));
    var vhOff := AsUsize(I32At(m, 28));
    var siOff := AsUsize(I32At(m, 20));
    var siLen := AsUsize(I32At(m, 16));
    if numVars == 0 || bufLen == 0 || siLen == 0 {
      return None;
    }
    if vhOff + numVars * VARHEADER_SIZE > |m| || siOff + siLen > |m| {
      return None;
    }
    var time := FindVar(m, vhOff, numVars, SESSION_TIME);
    var lap := FindVar(m, vhOff, numVars, LAP);
    r := Some(Layout(I32At(m, 0), I32At(m, 8), I32At(m, 12), numVars, bufLen, vhOff, siOff, siLen,
                     if time.Some? then Some(time.value.0) else None, if lap.Some? then Some(lap.value.0) else None));
  }

  /** Which maps are worth a file, and what is taken from them, byte by byte: bit 0 of the status, and the header fields
      at 0, 8, 12, 16, 20, 24, 28 and 36. */
  lemma ParsedIs(m: seq<byte>)
    requires FieldsNonNegative(m)
    ensures Parsed(m).Some?
            <==> && |m| >= 112 && I32At(m, 4) % 2 == 1 && I32At(m, 24) > 0 && I32At(m, 36) > 0 && I32At(m, 16) > 0
                 && I32At(m, 28) + 144 * I32At(m, 24) <= |m| && I32At(m, 20) + I32At(m, 16) <= |m|
    ensures Parsed(m).Some? ==>
              var l := Parsed(m).value;
              && l.ver == I32At(m, 0) && l.tickRate == I32At(m, 8) && l.update == I32At(m, 12)
              && l.siLen == I32At(m, 16) && l.siOff == I32At(m, 20) && l.numVars == I32At(m, 24)
              && l.vhOff == I32At(m, 28) && l.bufLen == I32At(m, 36)
  {
  }

  // ---------- the parts of a file ----------

  /** `v as i32`. */
  function AsI32(v: nat): (r: i32)
    ensures v < 0x8000_0000 ==> r == v
  {
    var u := v % 0x1_0000_0000;
    if u < 0x8000_0000 then u else u - 0x1_0000_0000
  }

  /** Consecutive `i32` fields. */
  function Fields(ws: seq<i32>): (s: seq<byte>)
    ensures |s| == 4 * |ws|
  {
    if ws == [] then [] else Fields(ws[..|ws| - 1]) + I32Bytes(ws[|ws| - 1])
  }

  lemma {:induction false} FieldAt(ws: seq<i32>, i: nat, rest: seq<byte>)
    requires i < |ws|
    ensures (Fields(ws) + rest)[4 * i..4 * i + 4] == I32Bytes(ws[i])
    ensures I32At(Fields(ws) + rest, 4 * i) == ws[i]
  {
    var last := |ws| - 1;
    var front := Fields(ws[..last]);
    var tail := I32Bytes(ws[last]) + rest;
    assert Fields(ws) + rest == front + tail;
    if i < last {
      FieldAt(ws[..last], i, tail);
    } else {
      assert (front + tail)[4 * i..4 * i + 4] == I32Bytes(ws[last]);
    }
  }

  lemma FieldsLast(ws: seq<i32>, rest: seq<byte>)
    requires ws != []
    ensures Fields(ws) + rest == Fields(ws[..|ws| - 1]) + (I32Bytes(ws[|ws| - 1]) + rest)
  {
  }

  /** Overwriting one field. */
  lemma {:induction false} FieldUpdate(ws: seq<i32>, i: nat, v: i32, rest: seq<byte>)
    requires i < |ws|
    ensures Splice(Fields(ws) + rest, 4 * i, I32Bytes(v)) == Fields(ws[i := v]) + rest
  {
    var last := |ws| - 1;
    FieldsLast(ws, rest);
    FieldsLast(ws[i := v], rest);
    if i < last {
      FieldUpdate(ws[..last], i, v, I32Bytes(ws[last]) + rest);
      assert ws[i := v][..last] == ws[..last][i := v];
    } else {
      assert ws[i := v][..last] == ws[..last];
      SpliceMiddle(Fields(ws[..last]), I32Bytes(ws[last]), I32Bytes(v), rest);
    }
  }

  function YamlOffset(l: Layout): nat {
    STATIC_SIZE + l.numVars * VARHEADER_SIZE
  }

  function RowsOffset(l: Layout): nat {
    YamlOffset(l) + l.siLen
  }

  /** The 28 fields of the disk header; `tick` is varBuf[0].tickCount. */
  function HeaderFields(l: Layout, tick: i32): (ws: seq<i32>)
    ensures |ws| == 28
  {
    [if l.ver != 0 then l.ver else 2, 1, if l.tickRate != 0 then l.tickRate else 60, l.update,
     AsI32(l.siLen), AsI32(YamlOffset(l)), AsI32(l.numVars), AsI32(STATIC_SIZE), 1, AsI32(l.bufLen), 0, 0,
     tick, AsI32(RowsOffset(l)), 0, 0, 0, 0, 0, 0, 0, 0, 0, 0, 0, 0, 0, 0]
  }

  /** The figures in the disk subheader. */
  datatype Figures = Figures(start: word, end: word, laps: nat, records: nat)

  const NO_FIGURES := Figures(ZERO, ZERO, 0, 0)

  function Subheader(date: word, f: Figures): (s: seq<byte>)
    ensures |s| == DISK_SUBHEADER_SIZE
  {
    date + f.start + f.end + I32Bytes(AsI32(f.laps)) + I32Bytes(AsI32(f.records))
  }

  function VarHeaders(m: seq<byte>, l: Layout): (s: seq<byte>)
    requires Extracted(m, l)
    ensures |s| == l.numVars * VARHEADER_SIZE
  {
    m[l.vhOff..l.vhOff + l.numVars * VARHEADER_SIZE]
  }

  function Yaml(m: seq<byte>, l: Layout): (s: seq<byte>)
    requires Extracted(m, l)
    ensures |s| == l.siLen
  {
    m[l.siOff..l.siOff + l.siLen]
  }

  /** A whole file. */
  function Image(m: seq<byte>, l: Layout, tick: i32, date: word, f: Figures, rows: seq<seq<byte>>): (s: seq<byte>)
    requires Extracted(m, l)
  {
    Fields(HeaderFields(l, tick)) + (Subheader(date, f) + (VarHeaders(m, l) + (Yaml(m, l) + Concat(rows))))
  }

  /** `build_prefix`: a file without rows and with placeholders for the figures. */
  function Prefix(m: seq<byte>, l: Layout, date: word): (s: seq<byte>)
    requires Extracted(m, l)
    ensures s == Image(m, l, 0, date, NO_FIGURES, [])
  {
    var s := Fields(HeaderFields(l, 0)) + Subheader(date, NO_FIGURES) + VarHeaders(m, l) + Yaml(m, l);
    assert s == Image(m, l, 0, date, NO_FIGURES, []);
    s
  }

  predicate RowsOf(l: Layout, rows: seq<seq<byte>>) {
    forall i | 0 <= i < |rows| :: |rows[i]| == l.bufLen
  }

  lemma {:induction false} ConcatLength(l: Layout, rows: seq<seq<byte>>)
    requires RowsOf(l, rows)
    ensures |Concat(rows)| == Offset(|rows|, l.bufLen)
  {
    if rows != [] {
      ConcatLength(l, rows[..|rows| - 1]);
    }
  }

  /** A file is its static part and the rows, nothing else. */
  lemma ImageLength(m: seq<byte>, l: Layout, tick: i32, date: word, f: Figures, rows: seq<seq<byte>>)
    requires Extracted(m, l) && RowsOf(l, rows)
    ensures |Image(m, l, tick, date, f, rows)| == RowsOffset(l) + |rows| * l.bufLen
  {
    ConcatLength(l, rows);
    OffsetIsProduct(|rows|, l.bufLen);
  }

  lemma ImageAppends(m: seq<byte>, l: Layout, tick: i32, date: word, f: Figures, rows: seq<seq<byte>>, row: seq<byte>)
    requires Extracted(m, l)
    ensures Image(m, l, tick, date, f, rows) + row == Image(m, l, tick, date, f, rows + [row])
  {
    assert (rows + [row])[..|rows|] == rows;
  }

  /** Closing a file rewrites one header field and the subheader, nothing else. */
  lemma ImageFinishes(m: seq<byte>, l: Layout, date: word, rows: seq<seq<byte>>, tick: i32, f: Figures)
    requires Extracted(m, l)
    ensures var s := Image(m, l, 0, date, NO_FIGURES, rows);
            && |s| >= STATIC_SIZE
            && Splice(Splice(s, 48, I32Bytes(tick)), IRSDK_HEADER_SIZE, Subheader(date, f)) == Image(m, l, tick,
              date, f, rows)
  {
    var s := Image(m, l, 0, date, NO_FIGURES, rows);
    var tail := VarHeaders(m, l) + (Yaml(m, l) + Concat(rows));
    FieldUpdate(HeaderFields(l, 0), 12, tick, Subheader(date, NO_FIGURES) + tail);
    assert HeaderFields(l, 0)[12 := tick] == HeaderFields(l, tick);
    assert Splice(s, 48, I32Bytes(tick)) == Fields(HeaderFields(l, tick)) + (Subheader(date, NO_FIGURES) + tail);
  }

  // ---------- reading a file ----------

  datatype Loaded = Loaded(ver: i32, tickRate: i32, update: i32, numVars: nat, bufLen: nat,
                           varHeaders: seq<byte>, yaml: seq<byte>, rows: seq<seq<byte>>)

  function RowCount(total: nat, bufLen: nat): nat
    requires bufLen > 0
  {
    total / bufLen
  }

  lemma RowInside(total: nat, bufLen: nat, i: nat)
    requires bufLen > 0 && i < RowCount(total, bufLen)
    ensures Offset(i, bufLen) + bufLen <= total
  {
    var n := total / bufLen;
    OffsetMonotone(i, n, bufLen);
    OffsetIsProduct(n, bufLen);
    assert n * bufLen + total % bufLen == total;
  }

  /** `data[rowsOff + i * bufLen..rowsOff + (i + 1) * bufLen]`. */
  function RowAt(d: seq<byte>, rowsOff: nat, bufLen: nat, i: nat): seq<byte>
    requires bufLen > 0 && rowsOff <= |d| && i < RowCount(|d| - rowsOff, bufLen)
  {
    RowInside(|d| - rowsOff, bufLen, i);
    d[rowsOff + Offset(i, bufLen)..rowsOff + Offset(i, bufLen) + bufLen]
  }

  function RowsIn(d: seq<byte>, rowsOff: nat, bufLen: nat): seq<seq<byte>>
    requires bufLen > 0 && rowsOff <= |d|
  {
    var n := RowCount(|d| - rowsOff, bufLen);
    seq(n, i requires 0 <= i < n => RowAt(d, rowsOff, bufLen, i))
  }

  /** The reader of the test suite; `None` where it would panic. */
  function Load(d: seq<byte>): Option<Loaded> {
    if |d| < IRSDK_HEADER_SIZE then None
    else
      var siLen, siOff := AsUsize(I32At(d, 16)), AsUsize(I32At(d, 20));
      var numVars, vhOff := AsUsize(I32At(d, 24)), AsUsize(I32At(d, 28));
      var bufLen, rowsOff := AsUsize(I32At(d, 36)), AsUsize(I32At(d, 52));
      if vhOff + numVars * VARHEADER_SIZE > |d| || siOff + siLen > |d| || rowsOff > |d| || bufLen == 0 then None
      else
        Some(Loaded(I32At(d, 0), I32At(d, 8), I32At(d, 12), numVars, bufLen,
                    d[vhOff..vhOff + numVars * VARHEADER_SIZE], d[siOff..siOff + siLen], RowsIn(d, rowsOff, bufLen)))
  }

  // ---------- round trip ----------

  lemma ImageFields(m: seq<byte>, l: Layout, tick: i32, date: word, f: Figures, rows: seq<seq<byte>>)
    requires Extracted(m, l)
    ensures var d := Image(m, l, tick, date, f, rows); var h := HeaderFields(l, tick);
            && |d| >= RowsOffset(l) > STATIC_SIZE
            && I32At(d, 0) == h[0] && I32At(d, 8) == h[2] && I32At(d, 12) == h[3]
            && I32At(d, 16) == h[4] && I32At(d, 20) == h[5] && I32At(d, 24) == h[6] && I32At(d, 28) == h[7]
            && I32At(d, 36) == h[9] && I32At(d, 52) == h[13]
  {
    var rest := Subheader(date, f) + (VarHeaders(m, l) + (Yaml(m, l) + Concat(rows)));
    var h := HeaderFields(l, tick);
    FieldAt(h, 0, rest);
    FieldAt(h, 2, rest);
    FieldAt(h, 3, rest);
    FieldAt(h, 4, rest);
    FieldAt(h, 5, rest);
    FieldAt(h, 6, rest);
    FieldAt(h, 7, rest);
    FieldAt(h, 9, rest);
    FieldAt(h, 13, rest);
  }

  lemma ImageParts(m: seq<byte>, l: Layout, tick: i32, date: word, f: Figures, rows: seq<seq<byte>>)
    requires Extracted(m, l)
    ensures var d := Image(m, l, tick, date, f, rows);
            && |d| == RowsOffset(l) + |Concat(rows)|
            && d[IRSDK_HEADER_SIZE..STATIC_SIZE] == Subheader(date, f)
            && d[STATIC_SIZE..YamlOffset(l)] == VarHeaders(m, l)
            && d[YamlOffset(l)..RowsOffset(l)] == Yaml(m, l)
            && d[RowsOffset(l)..] == Concat(rows)
  {
  }

  lemma {:induction false} RowOfConcat(l: Layout, rows: seq<seq<byte>>, i: nat)
    requires RowsOf(l, rows) && i < |rows|
    ensures Offset(i, l.bufLen) + l.bufLen <= |Concat(rows)|
    ensures Concat(rows)[Offset(i, l.bufLen)..Offset(i, l.bufLen) + l.bufLen] == rows[i]
  {
    var last := |rows| - 1;
    ConcatLength(l, rows[..last]);
    if i < last {
      RowOfConcat(l, rows[..last], i);
    }
  }

  lemma RowsReadBack(l: Layout, d: seq<byte>, rowsOff: nat, rows: seq<seq<byte>>)
    requires l.bufLen > 0 && RowsOf(l, rows) && rowsOff <= |d| && d[rowsOff..] == Concat(rows)
    ensures RowsIn(d, rowsOff, l.bufLen) == rows
  {
    ConcatLength(l, rows);
    OffsetIsProduct(|rows|, l.bufLen);
    QuotientUnique(|d| - rowsOff, l.bufLen, |rows|);
    forall i | 0 <= i < |rows| ensures RowsIn(d, rowsOff, l.bufLen)[i] == rows[i] {
      RowOfConcat(l, rows, i);
      RowInside(|d| - rowsOff, l.bufLen, i);
      var lo, hi := Offset(i, l.bufLen), Offset(i, l.bufLen) + l.bufLen;
      assert d[rowsOff..][lo..hi] == d[rowsOff + lo..rowsOff + hi];
    }
  }

  /** The reader on any bytes with the right header fields. */
  lemma LoadParts(d: seq<byte>, l: Layout, ver: i32, tickRate: i32, varHeaders: seq<byte>, yaml: seq<byte>,
                  rows: seq<seq<byte>>)
    requires l.bufLen > 0 && STATIC_SIZE <= YamlOffset(l) <= RowsOffset(l) <= |d|
    requires I32At(d, 0) == ver && I32At(d, 8) == tickRate && I32At(d, 12) == l.update
    requires I32At(d, 16) == l.siLen && I32At(d, 20) == YamlOffset(l)
    requires I32At(d, 24) == l.numVars && I32At(d, 28) == STATIC_SIZE
    requires I32At(d, 36) == l.bufLen && I32At(d, 52) == RowsOffset(l)
    requires d[STATIC_SIZE..YamlOffset(l)] == varHeaders && d[YamlOffset(l)..RowsOffset(l)] == yaml
    requires RowsOf(l, rows) && d[RowsOffset(l)..] == Concat(rows)
    ensures Load(d) == Some(Loaded(ver, tickRate, l.update, l.numVars, l.bufLen, varHeaders, yaml, rows))
  {
    RowsReadBack(l, d, RowsOffset(l), rows);
  }

  /** No offset in the header is truncated by its cast. */
  lemma SmallOffsets(m: seq<byte>, l: Layout)
    requires Extracted(m, l) && |m| <= MAX_TELEMETRY_SIZE
    ensures AsI32(l.siLen) == l.siLen && AsI32(YamlOffset(l)) == YamlOffset(l) && AsI32(l.numVars) == l.numVars
    ensures AsI32(STATIC_SIZE) == STATIC_SIZE && AsI32(l.bufLen) == l.bufLen && AsI32(RowsOffset(l)) == RowsOffset(l)
  {
  }

  /** A file reads back to the variable headers, the YAML, the row length and the rows that went into it. */
  lemma LoadImage(m: seq<byte>, l: Layout, tick: i32, date: word, f: Figures, rows: seq<seq<byte>>)
    requires Extracted(m, l) && |m| <= MAX_TELEMETRY_SIZE && RowsOf(l, rows)
    ensures Load(Image(m, l, tick, date, f, rows))
            == Some(Loaded(if l.ver != 0 then l.ver else 2, if l.tickRate != 0 then l.tickRate else 60, l.update,
                           l.numVars, l.bufLen, VarHeaders(m, l), Yaml(m, l), rows))
  {
    var d := Image(m, l, tick, date, f, rows);
    ImageFields(m, l, tick, date, f, rows);
    ImageParts(m, l, tick, date, f, rows);
    SmallOffsets(m, l);
    var h := HeaderFields(l, tick);
    LoadParts(d, l, h[0], h[2], VarHeaders(m, l), Yaml(m, l), rows);
  }
}
