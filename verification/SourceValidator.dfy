/** validate_source_files: every check a manifest's files must pass before they
    are ingested. */
module SourceValidator {
  import opened Text
  import opened SourceFiles

  datatype Error =
    | MissingSchema(file: string) | MissingData(file: string) | SchemaHash(file: string) | DataHash(file: string)
    | Unreadable(table: string) | HeaderOrder(table: string) | ColumnCount(file: string) | MissingKeyFields(fields: seq<string>)
    | DuplicateRow(file: string, number: nat) | InvalidKey(file: string, number: nat) | DuplicateKey(file: string, key: string)
    | RowCount(file: string, actual: nat) | TotalRows(actual: nat)

  // ---- The row loop ----

  predicate HasPayload(rows: seq<ParsedRow>, payload: Payload) {
    exists i :: 0 <= i < |rows| && rows[i].payload == payload
  }

  predicate HasKey(rows: seq<ParsedRow>, fields: seq<string>, key: string) {
    exists i :: 0 <= i < |rows| && SourceKey(fields, rows[i].payload) == Some(key)
  }

  // What one row adds behind `before`; the flag tells whether the loop breaks.
  function RowErrors(before: seq<ParsedRow>, row: ParsedRow, e: Entry): (seq<Error>, bool) {
    if HasPayload(before, row.payload) then ([DuplicateRow(e.dataFile, row.number)], true)
    else
      match SourceKey(e.keyFields, row.payload)
      case None => ([InvalidKey(e.dataFile, row.number)], false)
      case Some(key) => (if HasKey(before, e.keyFields, key) then [DuplicateKey(e.dataFile, key)] else [], false)
  }

  datatype Scan = Scan(errors: seq<Error>, count: nat, stopped: bool)

  // The errors and the row count when the loop has seen these rows.
  function ScanRows(rows: seq<ParsedRow>, e: Entry): Scan {
    if rows == [] then Scan([], 0, false)
    else
      var n := |rows| - 1;
      var before := ScanRows(rows[..n], e);
      if before.stopped then before
      else
        var found := RowErrors(rows[..n], rows[n], e);
        Scan(before.errors + found.0, before.count + 1, found.1)
  }

  lemma ScanOneMore(rows: seq<ParsedRow>, i: nat, e: Entry)
    requires i < |rows| && !ScanRows(rows[..i], e).stopped
    ensures var before, found := ScanRows(rows[..i], e), RowErrors(rows[..i], rows[i], e);
      ScanRows(rows[..i + 1], e) == Scan(before.errors + found.0, before.count + 1, found.1)
  {
    assert rows[..i + 1][..i] == rows[..i];
  }

  lemma {:induction false} ScanStops(rows: seq<ParsedRow>, i: nat, e: Entry)
    requires i <= |rows| && ScanRows(rows[..i], e).stopped
    ensures ScanRows(rows, e) == ScanRows(rows[..i], e)
  {
    if i < |rows| {
      assert rows[..|rows| - 1][..i] == rows[..i];
      ScanStops(rows[..|rows| - 1], i, e);
    } else {
      assert rows[..i] == rows;
    }
  }

  // The payload fingerprints and the keys that the loop has remembered.
  function Payloads(rows: seq<ParsedRow>): set<Payload> {
    set r | r in rows :: r.payload
  }

  function Keys(rows: seq<ParsedRow>, fields: seq<string>): set<string> {
    set r | r in rows && SourceKey(fields, r.payload).Some? :: SourceKey(fields, r.payload).value
  }

  lemma SeenSoFar(rows: seq<ParsedRow>, i: nat, fields: seq<string>)
    requires i < |rows|
    ensures Payloads(rows[..i + 1]) == Payloads(rows[..i]) + {rows[i].payload}
    ensures var key := SourceKey(fields, rows[i].payload);
      Keys(rows[..i + 1], fields) == Keys(rows[..i], fields) + if key.Some? then {key.value} else {}
    ensures forall p :: p in Payloads(rows[..i]) <==> HasPayload(rows[..i], p)
    ensures forall k :: k in Keys(rows[..i], fields) <==> HasKey(rows[..i], fields, k)
  {
    assert rows[..i + 1] == rows[..i] + [rows[i]];
  }

  method ScanDataRows(rows: seq<ParsedRow>, e: Entry) returns (errors: seq<Error>, count: nat)
    ensures errors == ScanRows(rows, e).errors && count == ScanRows(rows, e).count
  {
    errors, count := [], 0;
    var seenRows: set<Payload>, seenKeys: set<string> := {}, {};
    for i := 0 to |rows|
      invariant ScanRows(rows[..i], e) == Scan(errors, count, false)
      invariant seenRows == Payloads(rows[..i]) && seenKeys == Keys(rows[..i], e.keyFields)
    {
      ScanOneMore(rows, i, e);
      SeenSoFar(rows, i, e.keyFields);
      count := count + 1;
      if rows[i].payload in seenRows {
        errors := errors + [DuplicateRow(e.dataFile, rows[i].number)];
        ScanStops(rows, i + 1, e);
        return;
      }
      seenRows := seenRows + {rows[i].payload};
      var key := BuildSourceKey(e.keyFields, rows[i].payload);
      if key.None? {
        errors := errors + [InvalidKey(e.dataFile, rows[i].number)];
        continue;
      }
      if key.value in seenKeys {
        errors := errors + [DuplicateKey(e.dataFile, key.value)];
      }
      seenKeys := seenKeys + {key.value};
    }
    assert rows[..|rows|] == rows;
  }

  // ---- One entry ----

  // Errors of the entry, and its row count unless an early `continue` skips it.
  datatype Report = Report(errors: seq<Error>, count: Option<nat>)

  function HashErrors(e: Entry, schema: SchemaFile, data: DataFile, verifyHashes: bool): seq<Error> {
    (if verifyHashes && schema.sha != e.schemaSha then [SchemaHash(e.schemaFile)] else [])
    + (if verifyHashes && data.sha != e.dataSha then [DataHash(e.dataFile)] else [])
  }

  function AbsentFields(e: Entry, headers: seq<string>): seq<string> {
    Filter(e.keyFields, (f: string) => f !in headers)
  }

  function HeaderErrors(e: Entry, columns: seq<string>, headers: seq<string>): seq<Error> {
    (if columns != headers then [HeaderOrder(e.rawTable)] else [])
    + (if |headers| != e.expectedColumns then [ColumnCount(e.dataFile)] else [])
    + (if AbsentFields(e, headers) != [] then [MissingKeyFields(AbsentFields(e, headers))] else [])
  }

  function CountErrors(e: Entry, count: nat, verifyRowCounts: bool): seq<Error> {
    if verifyRowCounts && count != e.expectedRows then [RowCount(e.dataFile, count)] else []
  }

  function EntryReport(e: Entry, disk: Disk, verifyHashes: bool, verifyRowCounts: bool): Report {
    if e.schemaFile !in disk.schemas then Report([MissingSchema(e.schemaFile)], None)
    else if e.dataFile !in disk.data then Report([MissingData(e.dataFile)], None)
    else
      var schema, data := disk.schemas[e.schemaFile], disk.data[e.dataFile];
      var hashes := HashErrors(e, schema, data, verifyHashes);
      if schema.columns.None? || data.headers.None? then Report(hashes + [Unreadable(e.rawTable)], None)
      else
        var scan := ScanRows(data.rows, e);
        Report(hashes + HeaderErrors(e, schema.columns.value, data.headers.value) + scan.errors + CountErrors(e, scan.count, verifyRowCounts),
               Some(scan.count))
  }

  method ReportHeaders(e: Entry, columns: seq<string>, headers: seq<string>) returns (errors: seq<Error>)
    ensures errors == HeaderErrors(e, columns, headers)
  {
    errors := [];
    if columns != headers { errors := errors + [HeaderOrder(e.rawTable)]; }
    if |headers| != e.expectedColumns { errors := errors + [ColumnCount(e.dataFile)]; }
    var absent := AbsentFields(e, headers);
    if absent != [] { errors := errors + [MissingKeyFields(absent)]; }
  }

  method ReportEntry(e: Entry, disk: Disk, verifyHashes: bool, verifyRowCounts: bool) returns (errors: seq<Error>, count: Option<nat>)
    ensures Report(errors, count) == EntryReport(e, disk, verifyHashes, verifyRowCounts)
  {
    if e.schemaFile !in disk.schemas { return [MissingSchema(e.schemaFile)], None; }
    if e.dataFile !in disk.data { return [MissingData(e.dataFile)], None; }
    var schema, data := disk.schemas[e.schemaFile], disk.data[e.dataFile];
    errors := HashErrors(e, schema, data, verifyHashes);
    if schema.columns.None? || data.headers.None? { return errors + [Unreadable(e.rawTable)], None; }
    var headerErrors := ReportHeaders(e, schema.columns.value, data.headers.value);
    var rowErrors, rowCount := ScanDataRows(data.rows, e);
    errors := errors + headerErrors + rowErrors + CountErrors(e, rowCount, verifyRowCounts);
    count := Some(rowCount);
  }

  // ---- The manifest ----

  // The concatenated errors, and the total of the counts.
  datatype Summary = Summary(errors: seq<Error>, total: nat)

  function Reports(entries: seq<Entry>, disk: Disk, verifyHashes: bool, verifyRowCounts: bool): Summary {
    if entries == [] then Summary([], 0)
    else
      var before := Reports(entries[..|entries| - 1], disk, verifyHashes, verifyRowCounts);
      Added(before, EntryReport(entries[|entries| - 1], disk, verifyHashes, verifyRowCounts))
  }

  function Added(before: Summary, report: Report): Summary {
    Summary(before.errors + report.errors, before.total + CountOr(report.count))
  }

  function CountOr(count: Option<nat>): nat {
    if count.Some? then count.value else 0
  }

  function SourceErrors(m: Manifest, disk: Disk, verifyHashes: bool, verifyRowCounts: bool): seq<Error> {
    var all := Reports(m.datasets, disk, verifyHashes, verifyRowCounts);
    all.errors + if all.total != m.expectedTotal then [TotalRows(all.total)] else []
  }

  lemma OneMoreReport(entries: seq<Entry>, i: nat, disk: Disk, verifyHashes: bool, verifyRowCounts: bool)
    requires i < |entries|
    ensures Reports(entries[..i + 1], disk, verifyHashes, verifyRowCounts) ==
            Added(Reports(entries[..i], disk, verifyHashes, verifyRowCounts), EntryReport(entries[i], disk, verifyHashes, verifyRowCounts))
  {
    assert entries[..i + 1][..i] == entries[..i];
  }

  method ValidateSourceFiles(m: Manifest, disk: Disk, verifyHashes: bool, verifyRowCounts: bool) returns (ok: bool, errors: seq<Error>)
    ensures errors == SourceErrors(m, disk, verifyHashes, verifyRowCounts)
    ensures ok <==> errors == []
  {
    errors := [];
    var total := 0;
    for i := 0 to |m.datasets|
      invariant Reports(m.datasets[..i], disk, verifyHashes, verifyRowCounts) == Summary(errors, total)
    {
      OneMoreReport(m.datasets, i, disk, verifyHashes, verifyRowCounts);
      var found, count := ReportEntry(m.datasets[i], disk, verifyHashes, verifyRowCounts);
      errors := errors + found;
      if count.Some? {
        total := total + count.value;
      }
    }
    assert m.datasets[..|m.datasets|] == m.datasets;
    if total != m.expectedTotal {
      errors := errors + [TotalRows(total)];
    }
    ok := |errors| == 0;
  }

  // ---- What "ok" means ----

  // Every row has a key of its own.
  ghost predicate KeyedApart(rows: seq<ParsedRow>, fields: seq<string>) {
    && (forall i :: 0 <= i < |rows| ==> SourceKey(fields, rows[i].payload).Some?)
    && (forall i, j :: 0 <= i < j < |rows| ==> SourceKey(fields, rows[i].payload) != SourceKey(fields, rows[j].payload))
  }

  lemma RowIsCleanExactlyWhen(before: seq<ParsedRow>, row: ParsedRow, e: Entry)
    requires KeyedApart(before, e.keyFields)
    ensures RowErrors(before, row, e).0 == [] <==> KeyedApart(before + [row], e.keyFields)
    ensures RowErrors(before, row, e).0 == [] ==> !RowErrors(before, row, e).1
  {
    var rows, key := before + [row], SourceKey(e.keyFields, row.payload);
    if RowErrors(before, row, e).0 == [] {
      forall i | 0 <= i < |before| ensures SourceKey(e.keyFields, rows[i].payload) != key {
        assert rows[i] == before[i];
      }
    } else if key.Some? {
      assert exists i :: 0 <= i < |before| && SourceKey(e.keyFields, before[i].payload) == key;
      var i :| 0 <= i < |before| && SourceKey(e.keyFields, before[i].payload) == key;
      assert rows[i] == before[i] && rows[|before|] == row;
    } else {
      assert rows[|before|] == row;
    }
  }

  /** The row loop reports nothing exactly when every row has a key of its own;
      it has then counted every row. */
  lemma {:induction false} ScanIsCleanExactlyWhen(rows: seq<ParsedRow>, e: Entry)
    ensures ScanRows(rows, e).errors == [] <==> KeyedApart(rows, e.keyFields)
    ensures ScanRows(rows, e).errors == [] ==> ScanRows(rows, e).count == |rows| && !ScanRows(rows, e).stopped
    ensures ScanRows(rows, e).stopped ==> ScanRows(rows, e).errors != []
  {
    if rows != [] {
      var before, row := rows[..|rows| - 1], rows[|rows| - 1];
      assert rows == before + [row];
      ScanIsCleanExactlyWhen(before, e);
      if KeyedApart(before, e.keyFields) {
        RowIsCleanExactlyWhen(before, row, e);
      } else if KeyedApart(rows, e.keyFields) {
        KeyedApartPrefix(before, row, e.keyFields);
      }
    }
  }

  lemma KeyedApartPrefix(before: seq<ParsedRow>, row: ParsedRow, fields: seq<string>)
    requires KeyedApart(before + [row], fields)
    ensures KeyedApart(before, fields)
  {
    var rows := before + [row];
    assert forall i :: 0 <= i < |before| ==> rows[i] == before[i];
  }

  ghost predicate EntryIsSound(e: Entry, disk: Disk, verifyHashes: bool, verifyRowCounts: bool) {
    && e.schemaFile in disk.schemas && e.dataFile in disk.data
    && var schema, data := disk.schemas[e.schemaFile], disk.data[e.dataFile];
    && (verifyHashes ==> schema.sha == e.schemaSha && data.sha == e.dataSha)
    && schema.columns.Some? && data.headers == schema.columns && |data.headers.value| == e.expectedColumns
    && (forall f :: f in e.keyFields ==> f in data.headers.value)
    && KeyedApart(data.rows, e.keyFields)
    && (verifyRowCounts ==> |data.rows| == e.expectedRows)
  }

  lemma HeadersAreSoundExactlyWhen(e: Entry, columns: seq<string>, headers: seq<string>)
    ensures HeaderErrors(e, columns, headers) == [] <==>
              columns == headers && |headers| == e.expectedColumns && forall f :: f in e.keyFields ==> f in headers
  {
    FilterMembers(e.keyFields, (f: string) => f !in headers);
    EmptyOrMember(AbsentFields(e, headers));
  }

  lemma EntryIsSoundExactlyWhen(e: Entry, disk: Disk, verifyHashes: bool, verifyRowCounts: bool)
    ensures var report := EntryReport(e, disk, verifyHashes, verifyRowCounts);
      && (report.errors == [] <==> EntryIsSound(e, disk, verifyHashes, verifyRowCounts))
      && (report.errors == [] ==> report.count == Some(|disk.data[e.dataFile].rows|))
  {
    if e.schemaFile in disk.schemas && e.dataFile in disk.data {
      var data := disk.data[e.dataFile];
      var columns := disk.schemas[e.schemaFile].columns;
      ScanIsCleanExactlyWhen(data.rows, e);
      if columns.Some? && data.headers.Some? {
        HeadersAreSoundExactlyWhen(e, columns.value, data.headers.value);
      }
    }
  }

  function TotalRowsOf(entries: seq<Entry>, disk: Disk): nat {
    if entries == [] then 0
    else
      var last := entries[|entries| - 1];
      TotalRowsOf(entries[..|entries| - 1], disk) + if last.dataFile in disk.data then |disk.data[last.dataFile].rows| else 0
  }

  lemma {:induction false} ReportsAreCleanExactlyWhen(entries: seq<Entry>, disk: Disk, verifyHashes: bool, verifyRowCounts: bool)
    ensures var all := Reports(entries, disk, verifyHashes, verifyRowCounts);
      && (all.errors == [] <==> AllSound(entries, disk, verifyHashes, verifyRowCounts))
      && (all.errors == [] ==> all.total == TotalRowsOf(entries, disk))
  {
    if entries != [] {
      var n := |entries| - 1;
      ReportsAreCleanExactlyWhen(entries[..n], disk, verifyHashes, verifyRowCounts);
      OneMoreReport(entries, n, disk, verifyHashes, verifyRowCounts);
      OneMoreSound(entries, n, disk, verifyHashes, verifyRowCounts);
      EntryIsSoundExactlyWhen(entries[n], disk, verifyHashes, verifyRowCounts);
      assert entries[..n + 1] == entries;
    }
  }

  ghost predicate AllSound(entries: seq<Entry>, disk: Disk, verifyHashes: bool, verifyRowCounts: bool) {
    forall i :: 0 <= i < |entries| ==> EntryIsSound(entries[i], disk, verifyHashes, verifyRowCounts)
  }

  lemma OneMoreSound(entries: seq<Entry>, n: nat, disk: Disk, verifyHashes: bool, verifyRowCounts: bool)
    requires n + 1 == |entries|
    ensures AllSound(entries, disk, verifyHashes, verifyRowCounts) <==>
              AllSound(entries[..n], disk, verifyHashes, verifyRowCounts) && EntryIsSound(entries[n], disk, verifyHashes, verifyRowCounts)
  {
  }

  /** Validation reports ok exactly when every entry's files exist, match their
      hashes, headers and counts, every row has a key of its own, and the rows
      add up to the manifest's total. */
  lemma OkExactlyWhen(m: Manifest, disk: Disk, verifyHashes: bool, verifyRowCounts: bool)
    ensures SourceErrors(m, disk, verifyHashes, verifyRowCounts) == [] <==>
              && AllSound(m.datasets, disk, verifyHashes, verifyRowCounts)
              && TotalRowsOf(m.datasets, disk) == m.expectedTotal
  {
    ReportsAreCleanExactlyWhen(m.datasets, disk, verifyHashes, verifyRowCounts);
  }
}
