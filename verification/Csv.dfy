/** CSV exports, read back by a standard reader (section 2 of RFC 4180). */
module Csv {
  import opened Numerals

  const CRLF: string := ['\r', '\n']

  predicate Special(c: char) {
    c == ',' || c == '"' || c == '\n' || c == '\r'
  }

  predicate IsPlain(field: string) {
    forall i :: 0 <= i < |field| ==> !Special(field[i])
  }

  /** Every quote doubled. */
  function Doubled(field: string): string {
    if field == [] then []
    else (if field[0] == '"' then ['"', '"'] else [field[0]]) + Doubled(field[1..])
  }

  /** `csv_escape`: quoted only when the field holds a comma, a quote or a line break. */
  function Escape(field: string): string {
    if IsPlain(field) then field else ['"'] + Doubled(field) + ['"']
  }

  /** Fields joined with commas. */
  function Join(fields: seq<string>): string {
    if fields == [] then []
    else if |fields| == 1 then fields[0]
    else fields[0] + [','] + Join(fields[1..])
  }

  function EscapeAll(fields: seq<string>): (r: seq<string>)
    ensures |r| == |fields| && forall i :: 0 <= i < |fields| ==> r[i] == Escape(fields[i])
  {
    seq(|fields|, i requires 0 <= i < |fields| => Escape(fields[i]))
  }

  /** One record per line, each ended by CRLF. */
  function Text(rows: seq<seq<string>>): string {
    if rows == [] then [] else Join(EscapeAll(rows[0])) + CRLF + Text(rows[1..])
  }

  // ---------------------------------------------------------------------------
  // A standard reader
  // ---------------------------------------------------------------------------

  datatype Mode = Bare | Quoted | AfterQuote

  datatype Reading = Records(records: seq<seq<string>>) | Malformed

  function Cons(record: seq<string>, rest: Reading): Reading {
    match rest
    case Malformed => Malformed
    case Records(records) => Records([record] + records)
  }

  /**
   * Reads records character by character. `field` is what the current field holds so far and
   * `record` the finished fields of the current record.
   */
  function Read(text: string, mode: Mode, field: string, record: seq<string>): Reading
    decreases |text|
  {
    if text == [] then
      if mode == Quoted then Malformed
      else if mode == Bare && field == [] && record == [] then Records([])
      else Records([record + [field]])
    else
      var c, rest := text[0], text[1..];
      match mode
      case Quoted =>
        if c == '"' then Read(rest, AfterQuote, field, record) else Read(rest, Quoted, field + [c], record)
      case AfterQuote =>
        if c == '"' then Read(rest, Quoted, field + [c], record) else ReadEnd(text, field, record)
      case Bare =>
        if c == '"' then
          if field == [] then Read(rest, Quoted, [], record) else Malformed
        else if Special(c) then ReadEnd(text, field, record)
        else Read(rest, Bare, field + [c], record)
  }

  /** The separator that ends a field or a record. */
  function ReadEnd(text: string, field: string, record: seq<string>): Reading
    requires text != []
    decreases |text|, 0
  {
    if text[0] == ',' then Read(text[1..], Bare, [], record + [field])
    else if |text| >= 2 && text[0] == '\r' && text[1] == '\n'
    then Cons(record + [field], Read(text[2..], Bare, [], []))
    else Malformed
  }

  // ---------------------------------------------------------------------------
  // Reading what was written
  // ---------------------------------------------------------------------------

  lemma {:induction false} ReadPlain(field: string, rest: string, soFar: string, record: seq<string>)
    requires IsPlain(field)
    ensures Read(field + rest, Bare, soFar, record) == Read(rest, Bare, soFar + field, record)
    decreases field
  {
    if field == [] {
      assert [] + rest == rest && soFar + [] == soFar;
    } else {
      assert (field + rest)[0] == field[0] && (field + rest)[1..] == field[1..] + rest;
      ReadPlain(field[1..], rest, soFar + [field[0]], record);
      assert soFar + [field[0]] + field[1..] == soFar + field;
    }
  }

  /** One character inside quotes, as it is written, is read back. */
  lemma {:induction false} ReadQuoted(c: char, tail: string, soFar: string, record: seq<string>)
    ensures var written := if c == '"' then ['"', '"'] else [c];
      Read(written + tail, Quoted, soFar, record) == Read(tail, Quoted, soFar + [c], record)
  {
    if c == '"' {
      var text := ['"', '"'] + tail;
      assert text[0] == '"' && text[1..] == ['"'] + tail;
      assert text[1..][0] == '"' && text[1..][1..] == tail;
    } else {
      var text := [c] + tail;
      assert text[0] == c && text[1..] == tail;
    }
  }

  lemma {:induction false} DoubledText(field: string, rest: string)
    ensures field == [] ==> Doubled(field) + rest == rest
    ensures field != [] ==>
      var written := if field[0] == '"' then ['"', '"'] else [field[0]];
      Doubled(field) + rest == written + (Doubled(field[1..]) + rest)
  {
  }

  lemma {:induction false} ReadDoubled(field: string, rest: string, soFar: string, record: seq<string>)
    ensures Read(Doubled(field) + rest, Quoted, soFar, record) == Read(rest, Quoted, soFar + field, record)
    decreases field
  {
    hide Read, Doubled;
    DoubledText(field, rest);
    if field == [] {
      assert soFar + field == soFar;
    } else {
      var c, tail := field[0], field[1..];
      ReadQuoted(c, Doubled(tail) + rest, soFar, record);
      ReadDoubled(tail, rest, soFar + [c], record);
      assert soFar + [c] + tail == soFar + field;
    }
  }

  /** A quote opens a field, and the next one before a separator closes it. */
  lemma {:induction false} ReadQuotes(inner: string, rest: string, field: string, record: seq<string>)
    requires rest != [] && Special(rest[0]) && rest[0] != '"'
    ensures Read(['"'] + inner, Bare, [], record) == Read(inner, Quoted, [], record)
    ensures Read(['"'] + rest, Quoted, field, record) == ReadEnd(rest, field, record)
  {
    assert (['"'] + inner)[0] == '"' && (['"'] + inner)[1..] == inner;
    assert (['"'] + rest)[0] == '"' && (['"'] + rest)[1..] == rest;
  }

  /** An escaped field before a separator is read back as it was. */
  lemma {:induction false} ReadField(field: string, rest: string, record: seq<string>)
    requires rest != [] && Special(rest[0]) && rest[0] != '"'
    ensures Read(Escape(field) + rest, Bare, [], record) == ReadEnd(rest, field, record)
  {
    assert [] + field == field;
    if IsPlain(field) {
      ReadPlain(field, rest, [], record);
    } else {
      hide Doubled, Read, ReadEnd;
      var inner := Doubled(field) + (['"'] + rest);
      assert Escape(field) + rest == ['"'] + inner;
      ReadQuotes(inner, rest, field, record);
      ReadDoubled(field, ['"'] + rest, [], record);
    }
  }

  lemma {:induction false} ReadRecord(fields: seq<string>, rest: string, record: seq<string>)
    requires fields != []
    ensures Read(Join(EscapeAll(fields)) + CRLF + rest, Bare, [], record)
         == Cons(record + fields, Read(rest, Bare, [], []))
    decreases fields
  {
    hide Read, Escape;
    var field := fields[0];
    if |fields| == 1 {
      var tail := CRLF + rest;
      assert Join(EscapeAll(fields)) + CRLF + rest == Escape(field) + tail;
      ReadField(field, tail, record);
      assert tail[2..] == rest && fields == [field];
    } else {
      var others := EscapeAll(fields[1..]);
      assert EscapeAll(fields)[1..] == others;
      var tail := [','] + (Join(others) + CRLF + rest);
      assert Join(EscapeAll(fields)) + CRLF + rest == Escape(field) + tail;
      ReadField(field, tail, record);
      assert tail[1..] == Join(others) + CRLF + rest;
      ReadRecord(fields[1..], rest, record + [field]);
      assert record + [field] + fields[1..] == record + fields;
    }
  }

  /** Whatever the fields hold, a standard reader gives back every field of every record unchanged. */
  lemma {:induction false} TextRoundTrip(rows: seq<seq<string>>)
    requires forall i :: 0 <= i < |rows| ==> rows[i] != []
    ensures Read(Text(rows), Bare, [], []) == Records(rows)
  {
    if rows != [] {
      hide Join, EscapeAll;
      ReadRecord(rows[0], Text(rows[1..]), []);
      TextRoundTrip(rows[1..]);
      assert [] + rows[0] == rows[0] && [rows[0]] + rows[1..] == rows;
    }
  }

  // ---------------------------------------------------------------------------
  // The comment line
  // ---------------------------------------------------------------------------

  /** What a reader sees that drops everything up to the first line break. */
  function SkipLine(text: string): string {
    if |text| < 2 then [] else if text[..2] == CRLF then text[2..] else SkipLine(text[1..])
  }

  predicate HoldsBreak(s: string) {
    exists i :: 0 <= i < |s| - 1 && s[i] == '\r' && s[i + 1] == '\n'
  }

  lemma {:induction false} BreakCons(s: string)
    requires s != []
    ensures HoldsBreak(s) <==> (|s| >= 2 && s[..2] == CRLF) || HoldsBreak(s[1..])
  {
    if i :| 0 < i < |s| - 1 && s[i] == '\r' && s[i + 1] == '\n' {
      assert s[1..][i - 1] == '\r' && s[1..][i] == '\n';
    }
    if i :| 0 <= i < |s[1..]| - 1 && s[1..][i] == '\r' && s[1..][i + 1] == '\n' {
      assert s[i + 1] == '\r' && s[i + 2] == '\n';
    }
    if |s| >= 2 && s[..2] == CRLF {
      assert s[0] == s[..2][0] && s[1] == s[..2][1];
    }
  }

  /** Skipping a line leaves what follows it, after the rest of the line if the line itself holds a break. */
  lemma {:induction false} SkipLineLeaves(line: string, rest: string) returns (left: string)
    ensures !HoldsBreak(line) ==> SkipLine(line + CRLF + rest) == rest
    ensures HoldsBreak(line) ==> SkipLine(line + CRLF + rest) == left + CRLF + rest
  {
    hide HoldsBreak;
    var text := line + CRLF + rest;
    left := [];
    if line == [] {
      assert text[..2] == CRLF && text[2..] == rest;
      NoBreak();
    } else {
      BreakCons(line);
      assert text[1..] == line[1..] + CRLF + rest;
      if |line| >= 2 && line[..2] == CRLF {
        left := line[2..];
        assert text[..2] == line[..2] && text[2..] == left + CRLF + rest;
      } else {
        assert text[..2] != CRLF by {
          assert text[..2][0] == line[0] && text[..2][1] == if |line| >= 2 then line[1] else '\r';
          assert |line| >= 2 ==> line[..2] == [line[0], line[1]];
        }
        left := SkipLineLeaves(line[1..], rest);
      }
    }
  }

  lemma {:induction false} NoBreak()
    ensures !HoldsBreak([])
  {
  }

  /** Whether the text holds an odd number of quotes. */
  predicate OddQuotes(s: string) {
    s != [] && ((s[0] == '"') != OddQuotes(s[1..]))
  }

  lemma {:induction false} OddConcat(a: string, b: string)
    ensures OddQuotes(a + b) == (OddQuotes(a) != OddQuotes(b))
  {
    if a == [] {
      assert [] + b == b;
    } else {
      OddConcat(a[1..], b);
      assert (a + b)[1..] == a[1..] + b;
    }
  }

  lemma {:induction false} EscapeIsEven(field: string)
    ensures !OddQuotes(Escape(field))
  {
    if IsPlain(field) {
      PlainIsEven(field);
    } else {
      DoubledIsEven(field);
      OddConcat(['"'], Doubled(field));
      OddConcat(['"'] + Doubled(field), ['"']);
      assert ['"'][1..] == [];
    }
  }

  lemma {:induction false} PlainIsEven(field: string)
    requires IsPlain(field)
    ensures !OddQuotes(field)
  {
    if field != [] {
      PlainIsEven(field[1..]);
    }
  }

  lemma {:induction false} DoubledIsEven(field: string)
    ensures !OddQuotes(Doubled(field))
  {
    if field != [] {
      DoubledIsEven(field[1..]);
      var front := if field[0] == '"' then ['"', '"'] else [field[0]];
      assert !OddQuotes(front) by {
        assert front[1..] == if field[0] == '"' then ['"'] else [];
        assert ['"'][1..] == [];
      }
      OddConcat(front, Doubled(field[1..]));
    }
  }

  lemma {:induction false} JoinIsEven(fields: seq<string>)
    ensures !OddQuotes(Join(EscapeAll(fields)))
  {
    hide Escape;
    if fields != [] {
      var escaped := EscapeAll(fields);
      EscapeIsEven(fields[0]);
      if |fields| > 1 {
        JoinIsEven(fields[1..]);
        assert escaped[1..] == EscapeAll(fields[1..]);
        OddConcat(escaped[0], [',']);
        OddConcat(escaped[0] + [','], Join(escaped[1..]));
        assert [','][1..] == [];
      }
    }
  }

  lemma {:induction false} BreakIsEven()
    ensures !OddQuotes(CRLF)
  {
    assert CRLF[1..] == ['\n'] && ['\n'][1..] == [];
  }

  lemma {:induction false} TextIsEven(rows: seq<seq<string>>)
    ensures !OddQuotes(Text(rows))
  {
    if rows != [] {
      hide Join, EscapeAll;
      var line := Join(EscapeAll(rows[0]));
      TextIsEven(rows[1..]);
      JoinIsEven(rows[0]);
      BreakIsEven();
      OddConcat(line, CRLF);
      OddConcat(line + CRLF, Text(rows[1..]));
    }
  }

  /** A text that ends inside quotes is malformed. */
  lemma {:induction false} OddIsMalformed(text: string, mode: Mode, field: string, record: seq<string>)
    requires OddQuotes(text) != (mode == Quoted)
    ensures Read(text, mode, field, record) == Malformed
    decreases |text|
  {
    if text != [] {
      var c, rest := text[0], text[1..];
      if mode == Quoted {
        if c == '"' {
          OddIsMalformed(rest, AfterQuote, field, record);
        } else {
          OddIsMalformed(rest, Quoted, field + [c], record);
        }
      } else if c == '"' {
        OddIsMalformed(rest, Quoted, if mode == AfterQuote then field + [c] else [], record);
      } else if mode == AfterQuote || Special(c) {
        if c == ',' {
          OddIsMalformed(rest, Bare, [], record + [field]);
        } else if |text| >= 2 && text[1] == '\n' {
          assert rest[1..] == text[2..];
          OddIsMalformed(text[2..], Bare, [], []);
        }
      } else {
        OddIsMalformed(rest, Bare, field + [c], record);
      }
    }
  }

  /** A line with its quotes closed is read as at least one record of its own. */
  lemma {:induction false} LineAddsRecords(line: string, rest: string, mode: Mode, field: string, record: seq<string>)
    requires OddQuotes(line) == (mode == Quoted)
    ensures var r := Read(line + CRLF + rest, mode, field, record);
      r.Records? ==> Read(rest, Bare, [], []).Records? && |r.records| > |Read(rest, Bare, [], []).records|
    decreases |line|
  {
    var text := line + CRLF + rest;
    if line == [] {
      assert text[0] == '\r' && text[1] == '\n' && text[2..] == rest;
    } else {
      var c, tail := line[0], line[1..];
      assert text[0] == c && text[1..] == tail + CRLF + rest;
      if mode == Quoted {
        if c == '"' {
          LineAddsRecords(tail, rest, AfterQuote, field, record);
        } else {
          LineAddsRecords(tail, rest, Quoted, field + [c], record);
        }
      } else if c == '"' {
        LineAddsRecords(tail, rest, Quoted, if mode == AfterQuote then field + [c] else [], record);
      } else if mode == AfterQuote || Special(c) {
        if c == ',' {
          LineAddsRecords(tail, rest, Bare, [], record + [field]);
        } else if |line| >= 2 && line[1] == '\n' {
          assert text[1] == '\n' && text[2..] == line[2..] + CRLF + rest && tail[1..] == line[2..];
          LineAddsRecords(line[2..], rest, Bare, [], []);
        } else {
          assert text[1] == if |line| >= 2 then line[1] else '\r';
        }
      } else {
        LineAddsRecords(tail, rest, Bare, field + [c], record);
      }
    }
  }

  function Comment(crsLabel: string): string {
    "# crs=" + crsLabel + CRLF
  }

  lemma {:induction false} LabelBreak(crsLabel: string)
    ensures HoldsBreak("# crs=" + crsLabel) <==> HoldsBreak(crsLabel)
  {
    var prefix := "# crs=";
    var line := prefix + crsLabel;
    if i :| 0 <= i < |line| - 1 && line[i] == '\r' && line[i + 1] == '\n' {
      assert i >= |prefix|;
      assert crsLabel[i - |prefix|] == '\r' && crsLabel[i - |prefix| + 1] == '\n';
    }
    if i :| 0 <= i < |crsLabel| - 1 && crsLabel[i] == '\r' && crsLabel[i + 1] == '\n' {
      assert line[i + |prefix|] == '\r' && line[i + |prefix| + 1] == '\n';
    }
  }

  /**
   * A reader that drops the first line and reads the rest gets exactly the records written if and only if the label
   * holds no line break.
   */
  lemma {:induction false} CommentSkippedExactly(crsLabel: string, rows: seq<seq<string>>)
    requires forall i :: 0 <= i < |rows| ==> rows[i] != []
    ensures Read(SkipLine(Comment(crsLabel) + Text(rows)), Bare, [], []) == Records(rows) <==> !HoldsBreak(crsLabel)
  {
    hide Read, SkipLine, HoldsBreak, Text, OddQuotes;
    TextRoundTrip(rows);
    LabelBreak(crsLabel);
    var left := SkipLineLeaves("# crs=" + crsLabel, Text(rows));
    if HoldsBreak(crsLabel) {
      if OddQuotes(left) {
        TextIsEven(rows);
        BreakIsEven();
        OddConcat(left, CRLF);
        OddConcat(left + CRLF, Text(rows));
        OddIsMalformed(left + CRLF + Text(rows), Bare, [], []);
      } else {
        LineAddsRecords(left, Text(rows), Bare, [], []);
      }
    }
  }

  // ---------------------------------------------------------------------------
  // The two exports
  // ---------------------------------------------------------------------------

  datatype Coords = Local | LatLon

  datatype Vector = Vector(x: Float, y: Float, z: Float)

  datatype Snapshot = Snapshot(nodeId: string, petalId: string, position: Vector, rotation: Vector,
                               scale: Vector, properties: string, updatedAtMs: int)

  datatype Anchor = NoAnchor | Anchored(position: Vector)

  datatype Measurement = Measurement(readingId: string, nodeId: string, petalId: string, metric: string, value: Float,
                                     units: string, recordedAt: string, recordedAtMs: int, anchor: Anchor)

  function SnapshotHeader(coords: Coords): seq<string> {
    ["node_id", "petal_id"]
    + (if coords == Local then ["x_m", "y_m", "z_m"] else ["lon", "lat", "ele_m"])
    + ["rotation_x", "rotation_y", "rotation_z", "scale_x", "scale_y", "scale_z", "properties", "updated_at_ms"]
  }

  function SnapshotFields(s: Snapshot): seq<string> {
    [s.nodeId, s.petalId] + AsFields(s.position) + AsFields(s.rotation) + AsFields(s.scale)
    + [s.properties, ShowInt(s.updatedAtMs)]
  }

  function AsFields(v: Vector): seq<string> {
    [Show(v.x), Show(v.y), Show(v.z)]
  }

  function MeasurementHeader(coords: Coords): seq<string> {
    ["reading_id", "node_id", "petal_id", "metric", "value", "units", "recorded_at", "recorded_at_ms"]
    + (if coords == Local then ["anchor_x_m", "anchor_y_m", "anchor_z_m"]
       else ["anchor_lon", "anchor_lat", "anchor_ele_m"])
  }

  function MeasurementFields(r: Measurement): seq<string> {
    [r.readingId, r.nodeId, r.petalId, r.metric, Show(r.value), r.units, r.recordedAt, ShowInt(r.recordedAtMs)]
    + (if r.anchor.NoAnchor? then [[], [], []] else AsFields(r.anchor.position))
  }

  function SnapshotRows(coords: Coords, snapshots: seq<Snapshot>): (r: seq<seq<string>>)
    ensures |r| == |snapshots| + 1 && forall i :: 0 <= i < |r| ==> r[i] != []
  {
    [SnapshotHeader(coords)] + seq(|snapshots|, i requires 0 <= i < |snapshots| => SnapshotFields(snapshots[i]))
  }

  function MeasurementRows(coords: Coords, rows: seq<Measurement>): (r: seq<seq<string>>)
    ensures |r| == |rows| + 1 && forall i :: 0 <= i < |r| ==> r[i] != []
  {
    [MeasurementHeader(coords)] + seq(|rows|, i requires 0 <= i < |rows| => MeasurementFields(rows[i]))
  }

  /** Numbers are written without special characters. */
  lemma {:induction false} ShowIsPlain(x: Float)
    ensures IsPlain(Show(x))
  {
    hide Decimal, Value;
    if x.Finite? {
      DecimalReads(x.whole);
      DigitsArePlain(Decimal(x.whole));
      DigitsArePlain(x.fraction);
    }
  }

  lemma {:induction false} ShowIntIsPlain(n: int)
    ensures IsPlain(ShowInt(n))
  {
    hide Decimal, Value;
    var size := if n < 0 then -n else n;
    DecimalReads(size);
    DigitsArePlain(Decimal(size));
  }

  lemma {:induction false} DigitsArePlain(s: string)
    requires AllDigits(s)
    ensures IsPlain(s)
  {
    assert forall i :: 0 <= i < |s| ==> IsDigit(s[i]);
  }

  /** Line `i` after the header holds `text` in column `c`, which the header calls `name`. */
  predicate Column(table: seq<seq<string>>, i: nat, c: nat, name: string, text: string) {
    && i + 1 < |table| && c < |table[0]| && c < |table[i + 1]|
    && table[0][c] == name && table[i + 1][c] == text
  }

  /** Every value stands under its name, in either coordinate mode. */
  lemma {:induction false} SnapshotColumns(coords: Coords, snapshots: seq<Snapshot>)
    ensures var table := SnapshotRows(coords, snapshots);
      && |table| == |snapshots| + 1 && |table[0]| == 13
      && (forall i :: 0 <= i < |snapshots| ==>
            var s := snapshots[i];
            && Column(table, i, 0, "node_id", s.nodeId)
            && Column(table, i, 1, "petal_id", s.petalId)
            && Column(table, i, 2, if coords == Local then "x_m" else "lon", Show(s.position.x))
            && Column(table, i, 3, if coords == Local then "y_m" else "lat", Show(s.position.y))
            && Column(table, i, 4, if coords == Local then "z_m" else "ele_m", Show(s.position.z))
            && Column(table, i, 5, "rotation_x", Show(s.rotation.x))
            && Column(table, i, 6, "rotation_y", Show(s.rotation.y))
            && Column(table, i, 7, "rotation_z", Show(s.rotation.z))
            && Column(table, i, 8, "scale_x", Show(s.scale.x))
            && Column(table, i, 9, "scale_y", Show(s.scale.y))
            && Column(table, i, 10, "scale_z", Show(s.scale.z))
            && Column(table, i, 11, "properties", s.properties)
            && Column(table, i, 12, "updated_at_ms", ShowInt(s.updatedAtMs)))
  {
    hide Show, ShowInt;
  }

  lemma {:induction false} MeasurementNames(coords: Coords)
    ensures var h := MeasurementHeader(coords);
      && |h| == 11
      && h[0] == "reading_id"
      && h[1] == "node_id"
      && h[2] == "petal_id"
      && h[3] == "metric"
      && h[4] == "value"
      && h[5] == "units"
      && h[6] == "recorded_at"
      && h[7] == "recorded_at_ms"
      && h[8] == (if coords == Local then "anchor_x_m" else "anchor_lon")
      && h[9] == (if coords == Local then "anchor_y_m" else "anchor_lat")
      && h[10] == (if coords == Local then "anchor_z_m" else "anchor_ele_m")
  {
  }

  lemma {:induction false} MeasurementValues(r: Measurement)
    ensures var f := MeasurementFields(r);
      && |f| == 11
      && f[0] == r.readingId
      && f[1] == r.nodeId
      && f[2] == r.petalId
      && f[3] == r.metric
      && f[4] == Show(r.value)
      && f[5] == r.units
      && f[6] == r.recordedAt
      && f[7] == ShowInt(r.recordedAtMs)
      && f[8] == (if r.anchor.NoAnchor? then [] else Show(r.anchor.position.x))
      && f[9] == (if r.anchor.NoAnchor? then [] else Show(r.anchor.position.y))
      && f[10] == (if r.anchor.NoAnchor? then [] else Show(r.anchor.position.z))
  {
    hide Show, ShowInt;
  }

  lemma {:induction false} MeasurementColumns(coords: Coords, rows: seq<Measurement>)
    ensures var table := MeasurementRows(coords, rows);
      && |table| == |rows| + 1 && |table[0]| == 11
      && (forall i :: 0 <= i < |rows| ==>
            var r := rows[i];
            && Column(table, i, 0, "reading_id", r.readingId)
            && Column(table, i, 1, "node_id", r.nodeId)
            && Column(table, i, 2, "petal_id", r.petalId)
            && Column(table, i, 3, "metric", r.metric)
            && Column(table, i, 4, "value", Show(r.value))
            && Column(table, i, 5, "units", r.units)
            && Column(table, i, 6, "recorded_at", r.recordedAt)
            && Column(table, i, 7, "recorded_at_ms", ShowInt(r.recordedAtMs))
            && Column(table, i, 8, if coords == Local then "anchor_x_m" else "anchor_lon",
                      if r.anchor.NoAnchor? then [] else Show(r.anchor.position.x))
            && Column(table, i, 9, if coords == Local then "anchor_y_m" else "anchor_lat",
                      if r.anchor.NoAnchor? then [] else Show(r.anchor.position.y))
            && Column(table, i, 10, if coords == Local then "anchor_z_m" else "anchor_ele_m",
                      if r.anchor.NoAnchor? then [] else Show(r.anchor.position.z)))
  {
    hide MeasurementHeader, MeasurementFields, Show, ShowInt;
    MeasurementNames(coords);
    forall i | 0 <= i < |rows| ensures MeasurementRows(coords, rows)[i + 1] == MeasurementFields(rows[i]) {
    }
    forall r: Measurement
      ensures var f := MeasurementFields(r);
        && |f| == 11
        && f[0] == r.readingId
        && f[1] == r.nodeId
        && f[2] == r.petalId
        && f[3] == r.metric
        && f[4] == Show(r.value)
        && f[5] == r.units
        && f[6] == r.recordedAt
        && f[7] == ShowInt(r.recordedAtMs)
        && f[8] == (if r.anchor.NoAnchor? then [] else Show(r.anchor.position.x))
        && f[9] == (if r.anchor.NoAnchor? then [] else Show(r.anchor.position.y))
        && f[10] == (if r.anchor.NoAnchor? then [] else Show(r.anchor.position.z))
    {
      MeasurementValues(r);
    }
  }

  /** Fields are quoted only where they must be: where they hold a comma, a quote or either half of a line break. */
  lemma {:induction false} QuotedExactly(field: string)
    ensures Escape(field) == field <==> ',' !in field && '"' !in field && '\r' !in field && '\n' !in field
  {
    if !IsPlain(field) {
      DoubledGrows(field);
      assert |Escape(field)| > |field|;
    }
  }

  lemma {:induction false} DoubledGrows(field: string)
    ensures |Doubled(field)| >= |field|
  {
    if field != [] {
      DoubledGrows(field[1..]);
    }
  }

  lemma {:induction false} PlainEscape(field: string)
    requires IsPlain(field)
    ensures Escape(field) == field
  {
  }

  lemma {:induction false} TextSnoc(rows: seq<seq<string>>, row: seq<string>)
    ensures Text(rows + [row]) == Text(rows) + Join(EscapeAll(row)) + CRLF
  {
    hide Join, EscapeAll;
    if rows == [] {
      assert [] + [row] == [row] && Text([row]) == Join(EscapeAll(row)) + CRLF + [];
    } else {
      TextSnoc(rows[1..], row);
      assert (rows + [row])[1..] == rows[1..] + [row];
    }
  }

  /** The header names hold no special character, so they are written as they are. */
  lemma {:induction false} SnapshotHeaderPlain(coords: Coords)
    ensures EscapeAll(SnapshotHeader(coords)) == SnapshotHeader(coords)
  {
    hide Escape;
    var header := SnapshotHeader(coords);
    forall i | 0 <= i < |header| ensures Escape(header[i]) == header[i] {
      assert IsPlain(header[i]);
      PlainEscape(header[i]);
    }
  }

  lemma {:induction false} MeasurementHeaderPlain(coords: Coords)
    ensures EscapeAll(MeasurementHeader(coords)) == MeasurementHeader(coords)
  {
    hide Escape;
    var header := MeasurementHeader(coords);
    forall i | 0 <= i < |header| ensures Escape(header[i]) == header[i] {
      assert IsPlain(header[i]);
      PlainEscape(header[i]);
    }
  }

  method SnapshotsToCsv(snapshots: seq<Snapshot>, coords: Coords, crsLabel: string) returns (out: string)
    ensures out == Comment(crsLabel) + Text(SnapshotRows(coords, snapshots))
    ensures Read(SkipLine(out), Bare, [], []) == Records(SnapshotRows(coords, snapshots)) <==> !HoldsBreak(crsLabel)
    ensures "# crs=" + crsLabel + ['\r', '\n'] <= out
    ensures !HoldsBreak(crsLabel) ==>
      var reading := Read(SkipLine(out), Bare, [], []);
      && reading.Records?
      && var table := reading.records;
      && |table| == |snapshots| + 1 && |table[0]| == 13
      && (forall i :: 0 <= i < |snapshots| ==>
            var s := snapshots[i];
            && Column(table, i, 0, "node_id", s.nodeId)
            && Column(table, i, 1, "petal_id", s.petalId)
            && Column(table, i, 2, if coords == Local then "x_m" else "lon", Show(s.position.x))
            && Column(table, i, 3, if coords == Local then "y_m" else "lat", Show(s.position.y))
            && Column(table, i, 4, if coords == Local then "z_m" else "ele_m", Show(s.position.z))
            && Column(table, i, 5, "rotation_x", Show(s.rotation.x))
            && Column(table, i, 6, "rotation_y", Show(s.rotation.y))
            && Column(table, i, 7, "rotation_z", Show(s.rotation.z))
            && Column(table, i, 8, "scale_x", Show(s.scale.x))
            && Column(table, i, 9, "scale_y", Show(s.scale.y))
            && Column(table, i, 10, "scale_z", Show(s.scale.z))
            && Column(table, i, 11, "properties", s.properties)
            && Column(table, i, 12, "updated_at_ms", ShowInt(s.updatedAtMs)))
  {
    hide Text, Join, Escape, EscapeAll, Read, SkipLine, HoldsBreak, SnapshotHeader, SnapshotFields, Column;
    out := Comment(crsLabel);
    out := out + Join(SnapshotHeader(coords)) + CRLF;
    ghost var rows := [SnapshotHeader(coords)];
    SnapshotHeaderPlain(coords);
    TextOne(SnapshotHeader(coords));
    for i := 0 to |snapshots|
      invariant rows == SnapshotRows(coords, snapshots[..i])
      invariant out == Comment(crsLabel) + Text(rows)
    {
      var s := snapshots[i];
      var line := SnapshotLine(s);
      out := out + line + CRLF;
      TextSnoc(rows, SnapshotFields(s));
      rows := rows + [SnapshotFields(s)];
    }
    assert snapshots[..|snapshots|] == snapshots;
    CommentSkippedExactly(crsLabel, rows);
    SnapshotColumns(coords, snapshots);
  }

  lemma {:induction false} TextOne(row: seq<string>)
    ensures Text([row]) == Join(EscapeAll(row)) + CRLF
  {
    hide Join, EscapeAll;
    assert [row][1..] == [];
    assert Text([row]) == Join(EscapeAll(row)) + CRLF + [];
  }

  /** Identifiers and properties are escaped; numbers are written as they are. */
  method SnapshotLine(s: Snapshot) returns (line: string)
    ensures line == Join(EscapeAll(SnapshotFields(s)))
  {
    hide Join, Escape, Show, ShowInt, IsPlain;
    var fields: seq<string> := [
      Escape(s.nodeId), Escape(s.petalId),
      Show(s.position.x), Show(s.position.y), Show(s.position.z),
      Show(s.rotation.x), Show(s.rotation.y), Show(s.rotation.z),
      Show(s.scale.x), Show(s.scale.y), Show(s.scale.z),
      Escape(s.properties), ShowInt(s.updatedAtMs)];
    NumbersEscape();
    assert fields == EscapeAll(SnapshotFields(s));
    line := Join(fields);
  }

  lemma {:induction false} NumbersEscape()
    ensures forall x :: Escape(Show(x)) == Show(x)
    ensures forall n :: Escape(ShowInt(n)) == ShowInt(n)
  {
    hide Escape, Show, ShowInt, IsPlain;
    forall x ensures Escape(Show(x)) == Show(x) {
      ShowIsPlain(x);
      PlainEscape(Show(x));
    }
    forall n ensures Escape(ShowInt(n)) == ShowInt(n) {
      ShowIntIsPlain(n);
      PlainEscape(ShowInt(n));
    }
  }

  method ReadingsToCsv(rows: seq<Measurement>, coords: Coords, crsLabel: string) returns (out: string)
    ensures out == Comment(crsLabel) + Text(MeasurementRows(coords, rows))
    ensures Read(SkipLine(out), Bare, [], []) == Records(MeasurementRows(coords, rows)) <==> !HoldsBreak(crsLabel)
    ensures "# crs=" + crsLabel + ['\r', '\n'] <= out
    ensures !HoldsBreak(crsLabel) ==>
      var reading := Read(SkipLine(out), Bare, [], []);
      && reading.Records?
      && var table := reading.records;
      && |table| == |rows| + 1 && |table[0]| == 11
      && (forall i :: 0 <= i < |rows| ==>
            var r := rows[i];
            && Column(table, i, 0, "reading_id", r.readingId)
            && Column(table, i, 1, "node_id", r.nodeId)
            && Column(table, i, 2, "petal_id", r.petalId)
            && Column(table, i, 3, "metric", r.metric)
            && Column(table, i, 4, "value", Show(r.value))
            && Column(table, i, 5, "units", r.units)
            && Column(table, i, 6, "recorded_at", r.recordedAt)
            && Column(table, i, 7, "recorded_at_ms", ShowInt(r.recordedAtMs))
            && Column(table, i, 8, if coords == Local then "anchor_x_m" else "anchor_lon",
                      if r.anchor.NoAnchor? then [] else Show(r.anchor.position.x))
            && Column(table, i, 9, if coords == Local then "anchor_y_m" else "anchor_lat",
                      if r.anchor.NoAnchor? then [] else Show(r.anchor.position.y))
            && Column(table, i, 10, if coords == Local then "anchor_z_m" else "anchor_ele_m",
                      if r.anchor.NoAnchor? then [] else Show(r.anchor.position.z)))
  {
    hide Text, Join, Escape, EscapeAll, Read, SkipLine, HoldsBreak, MeasurementHeader, MeasurementFields, Column;
    out := Comment(crsLabel);
    out := out + Join(MeasurementHeader(coords)) + CRLF;
    ghost var written := [MeasurementHeader(coords)];
    MeasurementHeaderPlain(coords);
    TextOne(MeasurementHeader(coords));
    for i := 0 to |rows|
      invariant written == MeasurementRows(coords, rows[..i])
      invariant out == Comment(crsLabel) + Text(written)
    {
      var line := MeasurementLine(rows[i]);
      out := out + line + CRLF;
      TextSnoc(written, MeasurementFields(rows[i]));
      written := written + [MeasurementFields(rows[i])];
    }
    assert rows[..|rows|] == rows;
    CommentSkippedExactly(crsLabel, written);
    MeasurementColumns(coords, rows);
  }

  method MeasurementLine(r: Measurement) returns (line: string)
    ensures line == Join(EscapeAll(MeasurementFields(r)))
  {
    hide Join, Escape, Show, ShowInt, IsPlain;
    var px: string, py: string, pz: string := [], [], [];
    if r.anchor.Anchored? {
      px, py, pz := Show(r.anchor.position.x), Show(r.anchor.position.y), Show(r.anchor.position.z);
    }
    var fields: seq<string> := [
      Escape(r.readingId), Escape(r.nodeId), Escape(r.petalId), Escape(r.metric), Show(r.value),
      Escape(r.units), Escape(r.recordedAt), ShowInt(r.recordedAtMs), px, py, pz];
    NumbersEscape();
    NothingEscapes();
    assert fields == EscapeAll(MeasurementFields(r));
    line := Join(fields);
  }

  lemma {:induction false} NothingEscapes()
    ensures Escape([]) == []
  {
  }

  // ---------------------------------------------------------------------------
  // Nothing is lost
  // ---------------------------------------------------------------------------

  lemma {:induction false} VectorDetermined(v: Vector, w: Vector)
    requires AsFields(v) == AsFields(w)
    ensures v == w
  {
    hide Show;
    assert AsFields(v)[0] == AsFields(w)[0] && AsFields(v)[1] == AsFields(w)[1] && AsFields(v)[2] == AsFields(w)[2];
    ShowInjective(v.x, w.x);
    ShowInjective(v.y, w.y);
    ShowInjective(v.z, w.z);
  }

  /** A record determines the snapshot it was written from. */
  lemma {:induction false} SnapshotDetermined(s: Snapshot, t: Snapshot)
    requires SnapshotFields(s) == SnapshotFields(t)
    ensures s == t
  {
    hide Show, ShowInt;
    var a, b := SnapshotFields(s), SnapshotFields(t);
    assert AsFields(s.position) == a[2..5] == AsFields(t.position);
    assert AsFields(s.rotation) == a[5..8] == AsFields(t.rotation);
    assert AsFields(s.scale) == a[8..11] == AsFields(t.scale);
    VectorDetermined(s.position, t.position);
    VectorDetermined(s.rotation, t.rotation);
    VectorDetermined(s.scale, t.scale);
    assert a[0] == b[0] && a[1] == b[1] && a[11] == b[11] && a[12] == b[12];
    ShowIntInjective(s.updatedAtMs, t.updatedAtMs);
  }

  /** A record determines the reading it was written from, anchored or not. */
  lemma {:induction false} MeasurementDetermined(r: Measurement, q: Measurement)
    requires MeasurementFields(r) == MeasurementFields(q)
    ensures r == q
  {
    hide Show, ShowInt;
    var a, b := MeasurementFields(r), MeasurementFields(q);
    assert a[0] == b[0] && a[1] == b[1] && a[2] == b[2] && a[3] == b[3];
    assert a[4] == b[4] && a[5] == b[5] && a[6] == b[6] && a[7] == b[7] && a[8] == b[8];
    ShowInjective(r.value, q.value);
    ShowIntInjective(r.recordedAtMs, q.recordedAtMs);
    AnchorShows(r);
    AnchorShows(q);
    if r.anchor.Anchored? {
      assert AsFields(r.anchor.position) == a[8..11] == AsFields(q.anchor.position);
      VectorDetermined(r.anchor.position, q.anchor.position);
    }
  }

  lemma {:induction false} AnchorShows(r: Measurement)
    ensures r.anchor.NoAnchor? <==> MeasurementFields(r)[8] == []
  {
    hide Show;
    if r.anchor.Anchored? {
      ShowStarts(r.anchor.position.x);
    }
  }

  /** Two exports with the same text were made from the same snapshots. */
  lemma {:induction false} SnapshotsDetermined(coords: Coords, a: seq<Snapshot>, b: seq<Snapshot>)
    requires Text(SnapshotRows(coords, a)) == Text(SnapshotRows(coords, b))
    ensures a == b
  {
    hide Text, Read, SnapshotFields, SnapshotHeader;
    var left, right := SnapshotRows(coords, a), SnapshotRows(coords, b);
    TextRoundTrip(left);
    TextRoundTrip(right);
    assert left == right;
    forall i | 0 <= i < |a| ensures a[i] == b[i] {
      assert left[i + 1] == SnapshotFields(a[i]) && right[i + 1] == SnapshotFields(b[i]);
      SnapshotDetermined(a[i], b[i]);
    }
  }

  /** Two exports with the same text were made from the same readings. */
  lemma {:induction false} MeasurementsDetermined(coords: Coords, a: seq<Measurement>, b: seq<Measurement>)
    requires Text(MeasurementRows(coords, a)) == Text(MeasurementRows(coords, b))
    ensures a == b
  {
    hide Text, Read, MeasurementFields, MeasurementHeader;
    var left, right := MeasurementRows(coords, a), MeasurementRows(coords, b);
    TextRoundTrip(left);
    TextRoundTrip(right);
    assert left == right;
    forall i | 0 <= i < |a| ensures a[i] == b[i] {
      assert left[i + 1] == MeasurementFields(a[i]) && right[i + 1] == MeasurementFields(b[i]);
      MeasurementDetermined(a[i], b[i]);
    }
  }
}
