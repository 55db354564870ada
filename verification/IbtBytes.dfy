/** The bytes of an `.ibt` file, field by field, and the fields of a live map they come from. */
module IbtBytes {
  import opened Options
  import opened Bytes
  import opened Irsdk
  import opened Fragmentation
  import opened IbtFile

  // ---------- variables by name ----------

  /** The bytes of a name field up to its first zero. */
  predicate Spells(field: seq<byte>, name: seq<byte>) {
    |name| <= |field| && field[..|name|] == name && (|name| == |field| || field[|name|] == 0)
  }

  lemma UpToZeroIs(field: seq<byte>, name: seq<byte>)
    requires 0 !in name
    ensures UpToZero(field) == name <==> Spells(field, name)
  {
  }

  /** Variable header `i` is named `name`: 144 bytes each, the name in bytes 16..48. */
  predicate Named(m: seq<byte>, i: nat, name: seq<byte>)
    requires FieldsNonNegative(m) && |m| >= 112
  {
    var base := I32At(m, 28) + 144 * i;
    base + 144 <= |m| && Spells(m[base + 16..base + 48], name)
  }

  /** Where the row has the variable: the `i32` four bytes into the first variable header of that name. */
  predicate OffsetOfVar(m: seq<byte>, name: seq<byte>, off: Option<nat>)
    requires FieldsNonNegative(m) && |m| >= 112
  {
    match off
    case None => forall i | 0 <= i < I32At(m, 24) :: !Named(m, i, name)
    case Some(v) =>
      exists i | 0 <= i < I32At(m, 24) ::
        Named(m, i, name) && (forall j | 0 <= j < i :: !Named(m, j, name))
        && v == AsUsize(I32At(m, I32At(m, 28) + 144 * i + 4))
  }

  function Ascii(s: string): seq<byte>
    requires forall i | 0 <= i < |s| :: s[i] as int < 128
  {
    seq(|s|, i requires 0 <= i < |s| => ByteOf(s[i] as int))
  }

  lemma NamesSpelled()
    ensures SESSION_TIME == Ascii("SessionTime") && LAP == Ascii("Lap")
  {
  }

  lemma NamedFrom(m: seq<byte>, vhOff: nat, name: seq<byte>, i: nat)
    requires 0 !in name
    ensures NamedAt(m, vhOff, i, name)
            <==> var base := vhOff + 144 * i; base + 144 <= |m| && Spells(m[base + 16..base + 48], name)
  {
    var base := vhOff + 144 * i;
    if base + 144 <= |m| {
      UpToZeroIs(m[base + 16..base + 48], name);
    }
  }

  lemma NamedIs(m: seq<byte>, name: seq<byte>, i: nat)
    requires FieldsNonNegative(m) && |m| >= 112 && 0 !in name
    ensures NamedAt(m, I32At(m, 28), i, name) <==> Named(m, i, name)
  {
    NamedFrom(m, I32At(m, 28), name, i);
  }

  lemma {:induction false} SearchFinds(m: seq<byte>, name: seq<byte>, i: nat) returns (j: nat)
    requires FieldsNonNegative(m) && |m| >= 112 && i <= I32At(m, 24) && 0 !in name
    requires I32At(m, 28) + 144 * I32At(m, 24) <= |m|
    ensures i <= j <= I32At(m, 24) && (forall k | i <= k < j :: !Named(m, k, name))
    ensures FindFrom(m, I32At(m, 28), I32At(m, 24), name, i)
            == if j == I32At(m, 24) then None else Some(VarAt(m, I32At(m, 28), j))
    ensures j < I32At(m, 24) ==> Named(m, j, name)
    decreases I32At(m, 24) - i
  {
    j := i;
    if i < I32At(m, 24) {
      NamedIs(m, name, i);
      if !Named(m, i, name) {
        j := SearchFinds(m, name, i + 1);
      }
    }
  }

  /** Session time and lap are read where the first variables of these names say. */
  lemma ParsedVariables(m: seq<byte>)
    requires FieldsNonNegative(m) && Parsed(m).Some?
    ensures OffsetOfVar(m, SESSION_TIME, Parsed(m).value.timeOff) && OffsetOfVar(m, LAP, Parsed(m).value.lapOff)
  {
    ParsedIs(m);
    var i := SearchFinds(m, SESSION_TIME, 0);
    var j := SearchFinds(m, LAP, 0);
  }

  // ---------- the bytes of a file ----------

  /** The 28 header fields of a file made from `m` whose latest tick is `tick`. */
  predicate HeaderSays(d: seq<byte>, m: seq<byte>, tick: i32)
    requires FieldsNonNegative(m) && |m| >= 112
  {
    var vars, yaml := I32At(m, 24), I32At(m, 16);
    && |d| >= 144
    && I32At(d, 0) == (if I32At(m, 0) != 0 then I32At(m, 0) else 2) && I32At(d, 4) == 1
    && I32At(d, 8) == (if I32At(m, 8) != 0 then I32At(m, 8) else 60) && I32At(d, 12) == I32At(m, 12)
    && I32At(d, 16) == yaml && I32At(d, 20) == 144 + 144 * vars && I32At(d, 24) == vars && I32At(d, 28) == 144
    && I32At(d, 32) == 1 && I32At(d, 36) == I32At(m, 36) && I32At(d, 40) == 0 && I32At(d, 44) == 0
    && I32At(d, 48) == tick && I32At(d, 52) == 144 + 144 * vars + yaml
    && forall i | 14 <= i < 28 :: I32At(d, 4 * i) == 0
  }

  /** Behind the two headers: the variable headers and the YAML of `m`, then the rows. */
  predicate RegionsSay(d: seq<byte>, m: seq<byte>, rows: seq<seq<byte>>)
    requires FieldsNonNegative(m) && |m| >= 112
  {
    var vhOff, siOff, n, yaml := I32At(m, 28), I32At(m, 20), 144 * I32At(m, 24), I32At(m, 16);
    && vhOff + n <= |m| && siOff + yaml <= |m| && 144 + n + yaml <= |d|
    && d[144..144 + n] == m[vhOff..vhOff + n] && d[144 + n..144 + n + yaml] == m[siOff..siOff + yaml]
    && d[144 + n + yaml..] == Concat(rows)
  }

  /** The subheader: date, start and end in eight bytes each, then laps and records. */
  predicate FiguresSay(d: seq<byte>, date: word, f: Figures) {
    && |d| >= 144 && d[112..120] == date && d[120..128] == f.start && d[128..136] == f.end
    && I32At(d, 136) == AsI32(f.laps) && I32At(d, 140) == AsI32(f.records)
  }

  lemma FieldsRead(d: seq<byte>, ws: seq<i32>, rest: seq<byte>)
    requires |ws| == 28 && d == Fields(ws) + rest
    ensures forall i | 0 <= i < 28 :: I32At(d, 4 * i) == ws[i]
  {
    forall i | 0 <= i < 28 ensures I32At(d, 4 * i) == ws[i] {
      FieldAt(ws, i, rest);
    }
  }

  /** The same fields by their byte offsets. */
  lemma FirstFields(d: seq<byte>, ws: seq<i32>)
    requires |ws| == 28 && |d| >= 112 && forall i | 0 <= i < 28 :: I32At(d, 4 * i) == ws[i]
    ensures I32At(d, 0) == ws[0] && I32At(d, 4) == ws[1] && I32At(d, 8) == ws[2] && I32At(d, 12) == ws[3]
    ensures I32At(d, 16) == ws[4] && I32At(d, 20) == ws[5] && I32At(d, 24) == ws[6] && I32At(d, 28) == ws[7]
    ensures I32At(d, 32) == ws[8] && I32At(d, 36) == ws[9] && I32At(d, 40) == ws[10] && I32At(d, 44) == ws[11]
    ensures I32At(d, 48) == ws[12] && I32At(d, 52) == ws[13]
  {
    assert I32At(d, 4 * 0) == ws[0] && I32At(d, 4 * 1) == ws[1] && I32At(d, 4 * 2) == ws[2];
    assert I32At(d, 4 * 3) == ws[3] && I32At(d, 4 * 4) == ws[4] && I32At(d, 4 * 5) == ws[5];
    assert I32At(d, 4 * 6) == ws[6] && I32At(d, 4 * 7) == ws[7] && I32At(d, 4 * 8) == ws[8];
    assert I32At(d, 4 * 9) == ws[9] && I32At(d, 4 * 10) == ws[10] && I32At(d, 4 * 11) == ws[11];
    assert I32At(d, 4 * 12) == ws[12] && I32At(d, 4 * 13) == ws[13];
  }

  /** The fields of the header, when no offset is truncated by its cast. */
  predicate FieldsAre(ws: seq<i32>, ver: i32, rate: i32, update: i32, vars: nat, yaml: nat, bufLen: nat, tick: i32) {
    && |ws| == 28
    && ws[0] == (if ver != 0 then ver else 2) && ws[1] == 1 && ws[2] == (if rate != 0 then rate else 60)
    && ws[3] == update && ws[4] == yaml && ws[5] == 144 + 144 * vars && ws[6] == vars && ws[7] == 144
    && ws[8] == 1 && ws[9] == bufLen && ws[10] == 0 && ws[11] == 0 && ws[12] == tick
    && ws[13] == 144 + 144 * vars + yaml && forall i | 14 <= i < 28 :: ws[i] == 0
  }

  lemma LayoutFieldsAre(l: Layout, tick: i32)
    requires AsI32(l.siLen) == l.siLen && AsI32(YamlOffset(l)) == YamlOffset(l) && AsI32(l.numVars) == l.numVars
    requires AsI32(STATIC_SIZE) == STATIC_SIZE && AsI32(l.bufLen) == l.bufLen && AsI32(RowsOffset(l)) == RowsOffset(l)
    ensures FieldsAre(HeaderFields(l, tick), l.ver, l.tickRate, l.update, l.numVars, l.siLen, l.bufLen, tick)
  {
  }

  lemma HeaderFieldsAre(m: seq<byte>, l: Layout, tick: i32)
    requires FieldsNonNegative(m) && Parsed(m) == Some(l) && |m| <= MAX_TELEMETRY_SIZE
    ensures |m| >= 112 && I32At(m, 24) > 0 && I32At(m, 16) > 0 && I32At(m, 36) > 0
    ensures FieldsAre(HeaderFields(l, tick), I32At(m, 0), I32At(m, 8), I32At(m, 12), I32At(m, 24), I32At(m, 16),
                      I32At(m, 36), tick)
  {
    ParsedIs(m);
    SmallOffsets(m, l);
    LayoutFieldsAre(l, tick);
  }

  lemma HeaderFieldsSay(d: seq<byte>, m: seq<byte>, l: Layout, tick: i32, rest: seq<byte>)
    requires FieldsNonNegative(m) && Parsed(m) == Some(l) && |m| <= MAX_TELEMETRY_SIZE
    requires d == Fields(HeaderFields(l, tick)) + rest && |d| >= 144
    ensures |m| >= 112 && HeaderSays(d, m, tick)
  {
    HeaderFieldsAre(m, l, tick);
    FieldsRead(d, HeaderFields(l, tick), rest);
    FirstFields(d, HeaderFields(l, tick));
    LastFields(d, HeaderFields(l, tick));
  }

  lemma LastFields(d: seq<byte>, ws: seq<i32>)
    requires |ws| == 28 && |d| >= 112 && forall i | 0 <= i < 28 :: I32At(d, 4 * i) == ws[i]
    requires forall i | 14 <= i < 28 :: ws[i] == 0
    ensures forall i | 14 <= i < 28 :: I32At(d, 4 * i) == 0
  {
  }

  lemma SubheaderSays(d: seq<byte>, date: word, f: Figures)
    requires |d| >= 144 && d[112..144] == Subheader(date, f)
    ensures FiguresSay(d, date, f)
  {
    var s := Subheader(date, f);
    assert s[0..8] == date && s[8..16] == f.start && s[16..24] == f.end;
    assert s[24..28] == I32Bytes(AsI32(f.laps)) && s[28..32] == I32Bytes(AsI32(f.records));
    SliceOfShifted(d, 112, 144, 112, 120);
    SliceOfShifted(d, 112, 144, 120, 128);
    SliceOfShifted(d, 112, 144, 128, 136);
    SliceOfShifted(d, 112, 144, 136, 140);
    SliceOfShifted(d, 112, 144, 140, 144);
  }

  lemma RegionsAre(d: seq<byte>, m: seq<byte>, l: Layout, rows: seq<seq<byte>>)
    requires FieldsNonNegative(m) && Parsed(m) == Some(l) && |d| == RowsOffset(l) + |Concat(rows)|
    requires d[STATIC_SIZE..YamlOffset(l)] == VarHeaders(m, l) && d[YamlOffset(l)..RowsOffset(l)] == Yaml(m, l)
    requires d[RowsOffset(l)..] == Concat(rows)
    ensures |m| >= 112 && RegionsSay(d, m, rows)
  {
    ParsedIs(m);
  }

  /** Every byte of a file, from the map it was opened on. */
  lemma ImageSays(m: seq<byte>, l: Layout, tick: i32, date: word, f: Figures, rows: seq<seq<byte>>)
    requires FieldsNonNegative(m) && Parsed(m) == Some(l) && |m| <= MAX_TELEMETRY_SIZE
    ensures var d := Image(m, l, tick, date, f, rows);
            |m| >= 112 && HeaderSays(d, m, tick) && RegionsSay(d, m, rows) && FiguresSay(d, date, f)
  {
    var d := Image(m, l, tick, date, f, rows);
    ImageParts(m, l, tick, date, f, rows);
    RegionsAre(d, m, l, rows);
    SubheaderSays(d, date, f);
    HeaderFieldsSay(d, m, l, tick, Subheader(date, f) + (VarHeaders(m, l) + (Yaml(m, l) + Concat(rows))));
  }
}
