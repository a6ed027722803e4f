/** The row ingestion of `createMethaneLayer` (src/maps/methane-view.ts:9-37):
    the fetched CSV text becomes a sequence of `VOCData` records. */
module MethaneView {
  import opened Wrappers
  import TextLines
  import RowPattern

  /** A JavaScript number as far as this model needs one. */
  datatype Number = Finite(value: real) | PositiveInfinity | NegativeInfinity | NaN

  /** `parseFloat` and `parseInt`, left uninterpreted: each maps a token, or
      `undefined` for a column the row does not have, to a number. */
  datatype NumberParsers = NumberParsers(
    parseFloat: Option<string> -> Number,
    parseInt: Option<string> -> Number)

  /** The `VOCData` record (src/maps/methane-view.ts:141-152); a text field is
      None where the row had no token at that position. */
  datatype VOCData = VOCData(
    x: Number,
    y: Number,
    objectId: Number,
    company: Option<string>,
    facility: Option<string>,
    permitType: Option<string>,
    vocTonsYear: Number,
    methane75Voc: Number,
    latitude: Number,
    longitude: Number)

  /** `cols[k]`: `undefined` past the end of the array. */
  function Column(cols: seq<string>, k: nat): (c: Option<string>)
    ensures c.Some? <==> k < |cols|
    ensures c.Some? ==> c.value == cols[k]
  {
    if k < |cols| then Some(cols[k]) else None
  }

  /** The object literal built from a row's tokens, by position. Nothing in it
      can throw, so the `catch` never runs. */
  function Attributes(cols: seq<string>, p: NumberParsers): VOCData {
    VOCData(
      x := p.parseFloat(Column(cols, 0)),
      y := p.parseFloat(Column(cols, 1)),
      objectId := p.parseInt(Column(cols, 2)),
      company := Column(cols, 3),
      facility := Column(cols, 4),
      permitType := Column(cols, 5),
      vocTonsYear := p.parseFloat(Column(cols, 6)),
      methane75Voc := p.parseFloat(Column(cols, 7)),
      latitude := p.parseFloat(Column(cols, 8)),
      longitude := p.parseFloat(Column(cols, 9)))
  }

  /** What one row contributes to `data`. The guard at line 31 tests an arrow
      function, which is always truthy, so a row with tokens is always pushed. */
  function RowRecords(row: string, p: NumberParsers): seq<VOCData> {
    match RowPattern.RowMatch(row)
    case None => []
    case Some(cols) => [Attributes(cols, p)]
  }

  /** The records of the data rows, in row order. */
  function IngestRows(rows: seq<string>, p: NumberParsers): seq<VOCData> {
    if rows == [] then [] else RowRecords(rows[0], p) + IngestRows(rows[1..], p)
  }

  /** The whole pass: split on line feeds, drop the first line, ingest the rest. */
  function MethaneData(csvString: string, p: NumberParsers): seq<VOCData> {
    IngestRows(TextLines.Split(csvString)[1..], p)
  }

  /** The parse loop of `createMethaneLayer`: `rows.splice(0, 1)` drops the
      header, then `rows.forEach` pushes each row's record onto `data`. */
  method CreateMethaneData(csvString: string, p: NumberParsers) returns (data: seq<VOCData>)
    ensures data == MethaneData(csvString, p)
  {
    var rows := TextLines.Split(csvString);
    rows := rows[1..];
    data := [];
    var i := 0;
    while i < |rows|
      invariant 0 <= i <= |rows|
      invariant data == IngestRows(rows[..i], p)
    {
      var cols := RowPattern.RowMatch(rows[i]);
      if cols.Some? {
        var attributes := Attributes(cols.value, p);
        data := data + [attributes];
      }
      IngestOneMore(rows, i, p);
      i := i + 1;
    }
    assert rows[..i] == rows;
  }

  lemma IngestOneMore(rows: seq<string>, i: nat, p: NumberParsers)
    requires i < |rows|
    ensures IngestRows(rows[..i + 1], p) == IngestRows(rows[..i], p) + RowRecords(rows[i], p)
  {
    var row := rows[i];
    IngestRowsAppend(rows[..i], [row], p);
    assert rows[..i + 1] == rows[..i] + [row];
    assert [row][1..] == [];
    assert IngestRows([row], p) == RowRecords(row, p);
  }

  /** Ingesting two blocks of rows one after the other. */
  lemma {:induction false} IngestRowsAppend(a: seq<string>, b: seq<string>, p: NumberParsers)
    ensures IngestRows(a + b, p) == IngestRows(a, p) + IngestRows(b, p)
  {
    if a != [] {
      assert (a + b)[0] == a[0] && (a + b)[1..] == a[1..] + b;
      IngestRowsAppend(a[1..], b, p);
    } else {
      assert a + b == b;
    }
  }

  /** Exactly the first line is dropped, whatever it holds: the records come
      from the lines after it and from nothing else. */
  lemma HeaderDropped(header: string, body: string, p: NumberParsers)
    requires '\n' !in header
    ensures MethaneData(header + "\n" + body, p) == IngestRows(TextLines.Split(body), p)
  {
    TextLines.SplitFirstLine(header, body);
  }

  /** A payload of one line, the empty payload included, yields no record. */
  lemma HeaderOnly(header: string, p: NumberParsers)
    requires '\n' !in header
    ensures MethaneData(header, p) == []
  {
    TextLines.SplitSingle(header);
  }

  /** The rows whose match is not null, from index `i` on. */
  function MatchedFrom(rows: seq<string>, i: nat): (idx: seq<nat>)
    requires i <= |rows|
    ensures forall k :: 0 <= k < |idx| ==> i <= idx[k] < |rows|
    ensures forall a, b :: 0 <= a < b < |idx| ==> idx[a] < idx[b]
    decreases |rows| - i
  {
    if i == |rows| then []
    else if RowPattern.RowMatch(rows[i]).Some? then [i] + MatchedFrom(rows, i + 1)
    else MatchedFrom(rows, i + 1)
  }

  /** Exactly one record per row that has at least one token, in row order,
      built from that row's tokens; no row is filtered on its values. */
  lemma OneRecordPerMatchedRow(rows: seq<string>, p: NumberParsers)
    ensures var idx, data := MatchedFrom(rows, 0), IngestRows(rows, p);
      |data| == |idx|
      && (forall i :: 0 <= i < |rows| ==> (i in idx <==> RowPattern.RowMatch(rows[i]).Some?))
      && (forall k :: 0 <= k < |idx| ==>
            data[k] == Attributes(RowPattern.RowMatch(rows[idx[k]]).value, p))
  {
    assert rows[0..] == rows;
    RecordsFrom(rows, 0, p);
    MatchedFromMembers(rows, 0);
  }

  /** `d` is the record built from the tokens of row `j`. */
  predicate RecordOfRow(rows: seq<string>, j: nat, d: VOCData, p: NumberParsers) {
    j < |rows| && RowPattern.RowMatch(rows[j]).Some?
    && d == Attributes(RowPattern.RowMatch(rows[j]).value, p)
  }

  /** `data[k]` is the record built from the tokens of row `idx[k]`. */
  predicate RecordsOfRows(rows: seq<string>, idx: seq<nat>, data: seq<VOCData>, p: NumberParsers) {
    |data| == |idx| && forall k :: 0 <= k < |idx| ==> RecordOfRow(rows, idx[k], data[k], p)
  }

  lemma RecordsOfRowsCons(rows: seq<string>, i: nat, d: VOCData, idx: seq<nat>, data: seq<VOCData>, p: NumberParsers)
    requires RecordOfRow(rows, i, d, p)
    requires RecordsOfRows(rows, idx, data, p)
    ensures RecordsOfRows(rows, [i] + idx, [d] + data, p)
  {
    var idx', data' := [i] + idx, [d] + data;
    forall k | 1 <= k < |idx'| ensures RecordOfRow(rows, idx'[k], data'[k], p) {
      assert data'[k] == data[k - 1] && idx'[k] == idx[k - 1];
    }
  }

  lemma {:induction false} RecordsFrom(rows: seq<string>, i: nat, p: NumberParsers)
    requires i <= |rows|
    ensures RecordsOfRows(rows, MatchedFrom(rows, i), IngestRows(rows[i..], p), p)
    decreases |rows| - i
  {
    if i < |rows| {
      RecordsFrom(rows, i + 1, p);
      var idx := MatchedFrom(rows, i + 1);
      var data := IngestRows(rows[i + 1..], p);
      assert rows[i..][1..] == rows[i + 1..];
      assert IngestRows(rows[i..], p) == RowRecords(rows[i], p) + data;
      match RowPattern.RowMatch(rows[i])
      case Some(cols) =>
        RecordsOfRowsCons(rows, i, Attributes(cols, p), idx, data, p);
      case None =>
    }
  }

  /** A row index is listed exactly when the row's match is not null. */
  lemma {:induction false} MatchedFromMembers(rows: seq<string>, i: nat)
    requires i <= |rows|
    ensures forall j :: i <= j < |rows| ==>
      (j in MatchedFrom(rows, i) <==> RowPattern.RowMatch(rows[j]).Some?)
    decreases |rows| - i
  {
    if i < |rows| {
      MatchedFromMembers(rows, i + 1);
    }
  }



  /** A data row made of plain comma-separated fields, none of them empty,
      gives one record whose text columns are the fields verbatim and whose
      numbers are the parses of the fields at their positions; a column past
      the row's end reads as `undefined`. */
  lemma PlainRowRecord(header: string, fields: seq<string>, p: NumberParsers)
    requires '\n' !in header
    requires |fields| >= 1
    requires forall k :: 0 <= k < |fields| ==>
      fields[k] != "" && RowPattern.IsPlainField(fields[k]) && '\n' !in fields[k]
    ensures var data := MethaneData(header + "\n" + RowPattern.JoinFields(fields), p);
      |data| == 1
      && data[0].x == p.parseFloat(Column(fields, 0))
      && data[0].y == p.parseFloat(Column(fields, 1))
      && data[0].objectId == p.parseInt(Column(fields, 2))
      && data[0].company == Column(fields, 3)
      && data[0].facility == Column(fields, 4)
      && data[0].permitType == Column(fields, 5)
      && data[0].vocTonsYear == p.parseFloat(Column(fields, 6))
      && data[0].methane75Voc == p.parseFloat(Column(fields, 7))
      && data[0].latitude == p.parseFloat(Column(fields, 8))
      && data[0].longitude == p.parseFloat(Column(fields, 9))
  {
    var row := RowPattern.JoinFields(fields);
    NoLineFeedInJoin(fields);
    HeaderDropped(header, row, p);
    TextLines.SplitSingle(row);
    RowPattern.TokenizeJoinFields(fields);
    AllNonEmpty(fields);
    assert IngestRows([row], p) == RowRecords(row, p);
  }

  lemma {:induction false} NoLineFeedInJoin(fields: seq<string>)
    requires forall k :: 0 <= k < |fields| ==> '\n' !in fields[k]
    ensures '\n' !in RowPattern.JoinFields(fields)
  {
    if |fields| > 1 {
      NoLineFeedInJoin(fields[1..]);
    }
  }

  lemma {:induction false} AllNonEmpty(fields: seq<string>)
    requires forall k :: 0 <= k < |fields| ==> fields[k] != ""
    ensures RowPattern.NonEmpty(fields) == fields
  {
    if fields != [] {
      AllNonEmpty(fields[1..]);
    }
  }

  /** JavaScript truthiness of a number: neither zero nor NaN. */
  predicate Truthy(n: Number) {
    match n
    case Finite(v) => v != 0.0
    case NaN => false
    case _ => true
  }

  /** The check line 31 evidently meant to make before pushing. */
  predicate HasRequiredFields(r: VOCData) {
    Truthy(r.latitude) && Truthy(r.longitude) && Truthy(r.vocTonsYear) && Truthy(r.methane75Voc)
  }

  /** As written, a row is pushed whatever its numbers are: with parsers that
      give NaN for every token, the one data row still becomes a record, and
      that record lacks every required field. */
  lemma UnfilteredRowKept()
    ensures var p := NumberParsers(_ => NaN, _ => NaN);
      var data := MethaneData("h\n1", p);
      |data| == 1 && !HasRequiredFields(data[0])
  {
    var p := NumberParsers(_ => NaN, _ => NaN);
    PlainRowRecord("h", ["1"], p);
  }

  /** Ingestion with the required-field check actually applied. */
  function IngestRequiredRows(rows: seq<string>, p: NumberParsers): seq<VOCData> {
    if rows == [] then []
    else
      var kept := match RowPattern.RowMatch(rows[0])
        case None => []
        case Some(cols) =>
          var attributes := Attributes(cols, p);
          if HasRequiredFields(attributes) then [attributes] else [];
      kept + IngestRequiredRows(rows[1..], p)
  }

  /** The as-written records that have all four required fields, in their
      order and with their repetitions. */
  function KeepRequired(records: seq<VOCData>): (kept: seq<VOCData>)
    ensures forall r :: r in kept <==> r in records && HasRequiredFields(r)
  {
    if records == [] then []
    else (if HasRequiredFields(records[0]) then [records[0]] else []) + KeepRequired(records[1..])
  }

  lemma {:induction false} KeepRequiredAppend(a: seq<VOCData>, b: seq<VOCData>)
    ensures KeepRequired(a + b) == KeepRequired(a) + KeepRequired(b)
  {
    if a == [] {
      assert a + b == b;
    } else {
      assert (a + b)[0] == a[0] && (a + b)[1..] == a[1..] + b;
      KeepRequiredAppend(a[1..], b);
    }
  }

  /** With the check applied, the output is the as-written output with the
      records lacking a required field taken out, order and repetitions kept. */
  lemma {:induction false} IngestRequiredRowsFilters(rows: seq<string>, p: NumberParsers)
    ensures IngestRequiredRows(rows, p) == KeepRequired(IngestRows(rows, p))
    ensures forall r :: r in IngestRequiredRows(rows, p) <==> r in IngestRows(rows, p) && HasRequiredFields(r)
  {
    if rows != [] {
      IngestRequiredRowsFilters(rows[1..], p);
      KeepRequiredAppend(RowRecords(rows[0], p), IngestRows(rows[1..], p));
    }
  }
}
