/** Which errors source validation reports: for every kind of error, exactly
    the fault in the files that it stands for. */
module SourceFaults {
  import opened Text
  import opened SourceFiles
  import opened SourceValidator

  // ---- Rows ----

  // The row is the same as an earlier one.
  predicate Repeats(rows: seq<ParsedRow>, i: int) {
    0 <= i < |rows| && exists j :: 0 <= j < i && rows[j].payload == rows[i].payload
  }

  // The loop sees this row: none before it repeats another.
  predicate Reached(rows: seq<ParsedRow>, i: int) {
    0 <= i < |rows| && forall k :: 0 <= k < i ==> !Repeats(rows, k)
  }

  predicate KeyTaken(rows: seq<ParsedRow>, i: nat, fields: seq<string>, key: string)
    requires i <= |rows|
  {
    exists j :: 0 <= j < i && SourceKey(fields, rows[j].payload) == Some(key)
  }

  // What is reported about row i.
  predicate FaultAt(error: Error, rows: seq<ParsedRow>, i: int, e: Entry) {
    && Reached(rows, i)
    && match error
      case DuplicateRow(file, number) => file == e.dataFile && number == rows[i].number && Repeats(rows, i)
      case InvalidKey(file, number) =>
        file == e.dataFile && number == rows[i].number && !Repeats(rows, i) && SourceKey(e.keyFields, rows[i].payload) == None
      case DuplicateKey(file, key) =>
        file == e.dataFile && !Repeats(rows, i) && SourceKey(e.keyFields, rows[i].payload) == Some(key) && KeyTaken(rows, i, e.keyFields, key)
      case _ => false
  }

  ghost predicate RowFault(error: Error, rows: seq<ParsedRow>, e: Entry) {
    exists i :: FaultAt(error, rows, i, e)
  }

  lemma RepeatsInPrefix(rows: seq<ParsedRow>, n: nat, i: int)
    requires i < n <= |rows|
    ensures Repeats(rows[..n], i) <==> Repeats(rows, i)
    ensures Reached(rows[..n], i) <==> Reached(rows, i)
  {
    forall k | 0 <= k <= i ensures Repeats(rows[..n], k) <==> Repeats(rows, k) {
      if Repeats(rows, k) {
        var j :| 0 <= j < k && rows[j].payload == rows[k].payload;
        assert rows[..n][j] == rows[j] && rows[..n][k] == rows[k];
      }
    }
  }

  lemma FaultInPrefix(error: Error, rows: seq<ParsedRow>, n: nat, i: int, e: Entry)
    requires i < n <= |rows|
    ensures FaultAt(error, rows[..n], i, e) <==> FaultAt(error, rows, i, e)
  {
    RepeatsInPrefix(rows, n, i);
    if 0 <= i && error.DuplicateKey? {
      var key := error.key;
      if KeyTaken(rows, i, e.keyFields, key) {
        var j :| 0 <= j < i && SourceKey(e.keyFields, rows[j].payload) == Some(key);
        assert rows[..n][j] == rows[j];
      }
    }
  }

  // What the last row adds.
  lemma LastRowFaults(error: Error, rows: seq<ParsedRow>, e: Entry)
    requires rows != []
    ensures var n := |rows| - 1;
      && (HasPayload(rows[..n], rows[n].payload) <==> Repeats(rows, n))
      && (Reached(rows, n) ==> (error in RowErrors(rows[..n], rows[n], e).0 <==> FaultAt(error, rows, n, e)))
  {
    var n := |rows| - 1;
    if Repeats(rows, n) {
      var j :| 0 <= j < n && rows[j].payload == rows[n].payload;
      assert rows[..n][j] == rows[j];
    }
    var key := SourceKey(e.keyFields, rows[n].payload);
    if key.Some? {
      if KeyTaken(rows, n, e.keyFields, key.value) {
        var j :| 0 <= j < n && SourceKey(e.keyFields, rows[j].payload) == key;
        assert rows[..n][j] == rows[j];
      }
      assert HasKey(rows[..n], e.keyFields, key.value) <==> KeyTaken(rows, n, e.keyFields, key.value);
    }
  }

  // The number of rows that the loop sees.
  ghost predicate SeesRows(rows: seq<ParsedRow>, n: nat) {
    (n == |rows| || Repeats(rows, n - 1)) && forall i :: 0 <= i < n ==> Reached(rows, i)
  }

  lemma {:induction false} ScanStopsExactlyWhen(rows: seq<ParsedRow>, e: Entry)
    ensures ScanRows(rows, e).stopped <==> exists i :: Repeats(rows, i)
  {
    if rows != [] {
      var n := |rows| - 1;
      ScanStopsExactlyWhen(rows[..n], e);
      forall i | i < n ensures Repeats(rows[..n], i) <==> Repeats(rows, i) { RepeatsInPrefix(rows, n, i); }
      LastRowFaults(TotalRows(0), rows, e);
      if ScanRows(rows[..n], e).stopped {
        var i :| Repeats(rows[..n], i);
        assert Repeats(rows, i);
      }
    }
  }

  lemma SeesOneMore(rows: seq<ParsedRow>, before: seq<ParsedRow>, k: nat)
    requires rows != [] && before == rows[..|rows| - 1] && SeesRows(before, k)
    ensures (exists i :: Repeats(before, i)) ==> SeesRows(rows, k)
    ensures (forall i :: !Repeats(before, i)) ==> SeesRows(rows, k + 1) && k + 1 == |rows|
  {
    var n := |rows| - 1;
    forall i | i < n ensures (Repeats(before, i) <==> Repeats(rows, i)) && (Reached(before, i) <==> Reached(rows, i)) {
      RepeatsInPrefix(rows, n, i);
    }
    if i :| Repeats(before, i) {
      assert k > 0 ==> Repeats(before, k - 1) || Reached(before, k - 1);
    }
  }

  lemma {:induction false} ScanSeesRows(rows: seq<ParsedRow>, e: Entry)
    ensures SeesRows(rows, ScanRows(rows, e).count)
  {
    if rows != [] {
      var n := |rows| - 1;
      ScanSeesRows(rows[..n], e);
      ScanStopsExactlyWhen(rows[..n], e);
      SeesOneMore(rows, rows[..n], ScanRows(rows[..n], e).count);
    }
  }

  /** The row loop reports a row that repeats an earlier one, and stops there;
      and before, each row without a key and each key that is taken. */
  lemma {:induction false} ScanReportsExactly(error: Error, rows: seq<ParsedRow>, e: Entry)
    ensures error in ScanRows(rows, e).errors <==> RowFault(error, rows, e)
  {
    if rows != [] {
      var n := |rows| - 1;
      ScanReportsExactly(error, rows[..n], e);
      ScanStopsExactlyWhen(rows[..n], e);
      forall i | i < n ensures FaultAt(error, rows[..n], i, e) <==> FaultAt(error, rows, i, e) {
        FaultInPrefix(error, rows, n, i, e);
      }
      assert RowFault(error, rows[..n], e) ==> exists i :: i < n && FaultAt(error, rows[..n], i, e);
      forall i | i < n ensures Repeats(rows[..n], i) <==> Repeats(rows, i) { RepeatsInPrefix(rows, n, i); }
      LastRowFaults(error, rows, e);
      assert ScanRows(rows[..n], e).stopped <==> !Reached(rows, n);
    }
  }

  // ---- Entries ----

  predicate FilesExist(e: Entry, disk: Disk) {
    e.schemaFile in disk.schemas && e.dataFile in disk.data
  }

  predicate Readable(e: Entry, disk: Disk) {
    FilesExist(e, disk) && disk.schemas[e.schemaFile].columns.Some? && disk.data[e.dataFile].headers.Some?
  }

  // The fault that the error stands for, in this entry's files.
  ghost predicate EntryFault(error: Error, e: Entry, disk: Disk, verifyHashes: bool, verifyRowCounts: bool) {
    match error
    case MissingSchema(file) => file == e.schemaFile && e.schemaFile !in disk.schemas
    case MissingData(file) => file == e.dataFile && e.schemaFile in disk.schemas && e.dataFile !in disk.data
    case SchemaHash(file) => FilesExist(e, disk) && file == e.schemaFile && verifyHashes && disk.schemas[e.schemaFile].sha != e.schemaSha
    case DataHash(file) => FilesExist(e, disk) && file == e.dataFile && verifyHashes && disk.data[e.dataFile].sha != e.dataSha
    case Unreadable(table) => FilesExist(e, disk) && table == e.rawTable && !Readable(e, disk)
    case HeaderOrder(table) => Readable(e, disk) && table == e.rawTable && disk.schemas[e.schemaFile].columns != disk.data[e.dataFile].headers
    case ColumnCount(file) => Readable(e, disk) && file == e.dataFile && |disk.data[e.dataFile].headers.value| != e.expectedColumns
    case MissingKeyFields(fields) =>
      Readable(e, disk) && fields != [] && fields == Filter(e.keyFields, (f: string) => f !in disk.data[e.dataFile].headers.value)
    case RowCount(file, actual) =>
      Readable(e, disk) && file == e.dataFile && verifyRowCounts && actual == ScanRows(disk.data[e.dataFile].rows, e).count && actual != e.expectedRows
    case TotalRows(_) => false
    case _ => Readable(e, disk) && RowFault(error, disk.data[e.dataFile].rows, e)
  }

  lemma HeaderFaults(error: Error, e: Entry, columns: seq<string>, headers: seq<string>)
    ensures error in HeaderErrors(e, columns, headers) <==>
              || (error == HeaderOrder(e.rawTable) && columns != headers)
              || (error == ColumnCount(e.dataFile) && |headers| != e.expectedColumns)
              || (error.MissingKeyFields? && error.fields != [] && error.fields == Filter(e.keyFields, (f: string) => f !in headers))
  {
  }

  lemma HashFaults(error: Error, e: Entry, schema: SchemaFile, data: DataFile, verifyHashes: bool)
    ensures error in HashErrors(e, schema, data, verifyHashes) <==>
              || (error == SchemaHash(e.schemaFile) && verifyHashes && schema.sha != e.schemaSha)
              || (error == DataHash(e.dataFile) && verifyHashes && data.sha != e.dataSha)
  {
  }

  lemma InFour(x: Error, a: seq<Error>, b: seq<Error>, c: seq<Error>, d: seq<Error>)
    ensures x in a + b + c + d <==> x in a || x in b || x in c || x in d
  {
  }

  // The faults of files that cannot be compared or scanned.
  predicate FileFault(error: Error, e: Entry, disk: Disk, verifyHashes: bool)
    requires FilesExist(e, disk)
  {
    || (error == SchemaHash(e.schemaFile) && verifyHashes && disk.schemas[e.schemaFile].sha != e.schemaSha)
    || (error == DataHash(e.dataFile) && verifyHashes && disk.data[e.dataFile].sha != e.dataSha)
  }

  lemma ReadableReport(error: Error, e: Entry, disk: Disk, verifyHashes: bool, verifyRowCounts: bool)
    requires Readable(e, disk)
    ensures var data := disk.data[e.dataFile];
      error in EntryReport(e, disk, verifyHashes, verifyRowCounts).errors <==>
        || FileFault(error, e, disk, verifyHashes)
        || error in HeaderErrors(e, disk.schemas[e.schemaFile].columns.value, data.headers.value)
        || RowFault(error, data.rows, e)
        || error in CountErrors(e, ScanRows(data.rows, e).count, verifyRowCounts)
  {
    var schema, data := disk.schemas[e.schemaFile], disk.data[e.dataFile];
    var headers, scan := HeaderErrors(e, schema.columns.value, data.headers.value), ScanRows(data.rows, e);
    ScanReportsExactly(error, data.rows, e);
    HashFaults(error, e, schema, data, verifyHashes);
    InFour(error, HashErrors(e, schema, data, verifyHashes), headers, scan.errors, CountErrors(e, scan.count, verifyRowCounts));
  }

  lemma EntryReportsExactly(error: Error, e: Entry, disk: Disk, verifyHashes: bool, verifyRowCounts: bool)
    ensures error in EntryReport(e, disk, verifyHashes, verifyRowCounts).errors <==> EntryFault(error, e, disk, verifyHashes, verifyRowCounts)
  {
    if Readable(e, disk) {
      ReadableReport(error, e, disk, verifyHashes, verifyRowCounts);
      HeaderFaults(error, e, disk.schemas[e.schemaFile].columns.value, disk.data[e.dataFile].headers.value);
    } else if FilesExist(e, disk) {
      HashFaults(error, e, disk.schemas[e.schemaFile], disk.data[e.dataFile], verifyHashes);
    }
  }

  // ---- The manifest ----

  // The rows that are counted: those that the loop sees, of readable files.
  function RowsSeen(entries: seq<Entry>, disk: Disk): nat {
    if entries == [] then 0
    else
      var last := entries[|entries| - 1];
      RowsSeen(entries[..|entries| - 1], disk) + if Readable(last, disk) then ScanRows(disk.data[last.dataFile].rows, last).count else 0
  }

  lemma {:induction false} AllReports(error: Error, entries: seq<Entry>, disk: Disk, verifyHashes: bool, verifyRowCounts: bool)
    ensures var all := Reports(entries, disk, verifyHashes, verifyRowCounts);
      && all.total == RowsSeen(entries, disk)
      && (error in all.errors <==> exists e :: e in entries && EntryFault(error, e, disk, verifyHashes, verifyRowCounts))
  {
    if entries != [] {
      var n := |entries| - 1;
      AllReports(error, entries[..n], disk, verifyHashes, verifyRowCounts);
      EntryReportsExactly(error, entries[n], disk, verifyHashes, verifyRowCounts);
      assert entries == entries[..n] + [entries[n]];
    }
  }

  /** Validation reports an error exactly when one of the manifest's entries has
      the fault it stands for, or the rows seen are not as many as expected. */
  lemma ReportsExactly(error: Error, m: Manifest, disk: Disk, verifyHashes: bool, verifyRowCounts: bool)
    ensures error in SourceErrors(m, disk, verifyHashes, verifyRowCounts) <==>
              || (exists e :: e in m.datasets && EntryFault(error, e, disk, verifyHashes, verifyRowCounts))
              || (error == TotalRows(RowsSeen(m.datasets, disk)) && RowsSeen(m.datasets, disk) != m.expectedTotal)
  {
    AllReports(error, m.datasets, disk, verifyHashes, verifyRowCounts);
  }
}
