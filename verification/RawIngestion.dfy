/** _ingest_dataset_file: the rows of one file enter their raw table in batches. */
module RawIngestion {
  import opened Text
  import opened SourceFiles
  import opened DatasetStore
  import SourceValidator

  datatype IngestionError =
    | InvalidSources | IntegrityError | Fault | UnknownTable(table: string) | Unreadable(file: string) | BadKey(number: nat)
    | PayloadConflict(key: string, number: nat) | CountMismatch(table: string) | TotalMismatch

  const BATCH_SIZE := 500

  function KeyText(row: ParsedRow, fields: seq<string>): string {
    var key := SourceKey(fields, row.payload);
    if key.Some? then key.value else ""
  }

  function Prepared(rows: seq<ParsedRow>, fields: seq<string>, id: nat): (r: seq<Insertion>)
    ensures |r| == |rows|
  {
    seq(|rows|, i requires 0 <= i < |rows| => ((id, KeyText(rows[i], fields)), RawRow(rows[i].number, rows[i].payload)))
  }

  // An earlier row has this row's key and another payload.
  predicate ConflictsWith(before: seq<ParsedRow>, row: ParsedRow, fields: seq<string>) {
    exists i :: 0 <= i < |before| && SourceKey(fields, before[i].payload) == SourceKey(fields, row.payload) && before[i].payload != row.payload
  }

  // The first row that stops the stream.
  function StreamError(rows: seq<ParsedRow>, fields: seq<string>): (r: Option<IngestionError>)
    ensures r.Some? ==> r.value.BadKey? || r.value.PayloadConflict?
  {
    if rows == [] then None
    else
      var before, row := rows[..|rows| - 1], rows[|rows| - 1];
      var earlier := StreamError(before, fields);
      if earlier.Some? then earlier
      else if SourceKey(fields, row.payload).None? then Some(BadKey(row.number))
      else if ConflictsWith(before, row, fields) then Some(PayloadConflict(SourceKey(fields, row.payload).value, row.number))
      else None
  }

  datatype FileOutcome = Loaded(table: RawTable, count: nat) | Stopped(error: IngestionError)

  // One file, without batches and without failing statements.
  function LoadFile(t: RawTable, e: Entry, disk: Disk, id: nat): FileOutcome {
    if e.rawTable !in RAW_TABLES then Stopped(UnknownTable(e.rawTable))
    else if e.dataFile !in disk.data || disk.data[e.dataFile].headers.None? then Stopped(Unreadable(e.dataFile))
    else
      var rows := disk.data[e.dataFile].rows;
      var stopped := StreamError(rows, e.keyFields);
      if stopped.Some? then Stopped(stopped.value)
      else
        var after := InsertAll(t, Prepared(rows, e.keyFields, id));
        if |RowsOf(after, id)| != e.expectedRows then Stopped(CountMismatch(e.rawTable)) else Loaded(after, |RowsOf(after, id)|)
  }

  // ---- The loop ----

  // existing_keys: the payload seen last for each key.
  ghost predicate Remembers(existing: map<string, Payload>, rows: seq<ParsedRow>, fields: seq<string>) {
    && (forall i :: 0 <= i < |rows| ==>
          SourceKey(fields, rows[i].payload).Some? && SourceKey(fields, rows[i].payload).value in existing
          && existing[SourceKey(fields, rows[i].payload).value] == rows[i].payload)
    && (forall k :: k in existing ==> exists i :: 0 <= i < |rows| && SourceKey(fields, rows[i].payload) == Some(k))
  }

  lemma ConflictExactlyWhen(existing: map<string, Payload>, before: seq<ParsedRow>, row: ParsedRow, fields: seq<string>)
    requires Remembers(existing, before, fields) && SourceKey(fields, row.payload).Some?
    ensures var key := SourceKey(fields, row.payload).value;
      ConflictsWith(before, row, fields) <==> key in existing && existing[key] != row.payload
  {
    var key := SourceKey(fields, row.payload).value;
    if key in existing && existing[key] != row.payload {
      var i :| 0 <= i < |before| && SourceKey(fields, before[i].payload) == Some(key);
    }
  }

  lemma RememberOneMore(existing: map<string, Payload>, before: seq<ParsedRow>, row: ParsedRow, fields: seq<string>)
    requires Remembers(existing, before, fields)
    requires SourceKey(fields, row.payload).Some? && !ConflictsWith(before, row, fields)
    ensures Remembers(existing[SourceKey(fields, row.payload).value := row.payload], before + [row], fields)
  {
    var key, rows := SourceKey(fields, row.payload).value, before + [row];
    var next := existing[key := row.payload];
    forall i | 0 <= i < |rows|
      ensures SourceKey(fields, rows[i].payload).Some? && SourceKey(fields, rows[i].payload).value in next
              && next[SourceKey(fields, rows[i].payload).value] == rows[i].payload
    {
      if i < |before| { assert rows[i] == before[i]; }
    }
    forall k | k in next ensures exists i :: 0 <= i < |rows| && SourceKey(fields, rows[i].payload) == Some(k) {
      if k == key {
        assert rows[|before|] == row;
      } else {
        var i :| 0 <= i < |before| && SourceKey(fields, before[i].payload) == Some(k);
        assert rows[i] == before[i];
      }
    }
  }

  lemma StreamOneMore(rows: seq<ParsedRow>, i: nat, fields: seq<string>)
    requires i < |rows| && StreamError(rows[..i], fields).None?
    ensures StreamError(rows[..i + 1], fields) ==
              if SourceKey(fields, rows[i].payload).None? then Some(BadKey(rows[i].number))
              else if ConflictsWith(rows[..i], rows[i], fields) then Some(PayloadConflict(SourceKey(fields, rows[i].payload).value, rows[i].number))
              else None
    ensures rows[..i + 1] == rows[..i] + [rows[i]]
  {
    assert rows[..i + 1][..i] == rows[..i];
  }

  lemma {:induction false} StreamStops(rows: seq<ParsedRow>, i: nat, fields: seq<string>)
    requires i <= |rows| && StreamError(rows[..i], fields).Some?
    ensures StreamError(rows, fields) == StreamError(rows[..i], fields)
  {
    if i < |rows| {
      assert rows[..|rows| - 1][..i] == rows[..i];
      StreamStops(rows[..|rows| - 1], i, fields);
    } else {
      assert rows[..i] == rows;
    }
  }

  // Checks one row and remembers it; an error is the raised exception.
  method CheckRow(existing: map<string, Payload>, rows: seq<ParsedRow>, i: nat, fields: seq<string>)
    returns (error: Option<IngestionError>, next: map<string, Payload>)
    requires i < |rows| && StreamError(rows[..i], fields).None? && Remembers(existing, rows[..i], fields)
    ensures error == StreamError(rows[..i + 1], fields)
    ensures error.Some? ==> StreamError(rows, fields) == error
    ensures error.None? ==> Remembers(next, rows[..i + 1], fields)
  {
    StreamOneMore(rows, i, fields);
    error, next := None, existing;
    var key := BuildSourceKey(fields, rows[i].payload);
    if key.None? {
      StreamStops(rows, i + 1, fields);
      return Some(BadKey(rows[i].number)), existing;
    }
    ConflictExactlyWhen(existing, rows[..i], rows[i], fields);
    if key.value in existing && existing[key.value] != rows[i].payload {
      StreamStops(rows, i + 1, fields);
      return Some(PayloadConflict(key.value, rows[i].number)), existing;
    }
    RememberOneMore(existing, rows[..i], rows[i], fields);
    next := existing[key.value := rows[i].payload];
  }

  // _flush_batch
  method FlushBatch(session: Session, table: string, batch: seq<Insertion>) returns (ok: bool)
    modifies session`working, session`clock
    ensures ok == !session.faults(old(session.clock)) && session.clock == old(session.clock) + 1
    ensures ok ==> session.working == WithTable(old(session.working), table, InsertAll(TableOf(old(session.working).raw, table), batch))
  {
    ok := session.Execute();
    if ok {
      var t := InsertAll(TableOf(session.working.raw, table), batch);
      session.working := WithTable(session.working, table, t);
    }
  }

  function WithTable(db: Database, table: string, t: RawTable): Database {
    db.(raw := db.raw[table := t])
  }

  // ---- How many statements a file takes ----

  // The rows in the batch, and the flushes, after i rows.
  function Pending(i: nat, batchSize: nat): nat {
    if i == 0 || Pending(i - 1, batchSize) + 1 >= batchSize then 0 else Pending(i - 1, batchSize) + 1
  }

  function Flushes(i: nat, batchSize: nat): nat {
    if i == 0 then 0 else Flushes(i - 1, batchSize) + if Pending(i - 1, batchSize) + 1 >= batchSize then 1 else 0
  }

  function RowStatements(n: nat, batchSize: nat): nat {
    Flushes(n, batchSize) + if Pending(n, batchSize) > 0 then 1 else 0
  }

  lemma {:induction false} FlushesGrow(i: nat, n: nat, batchSize: nat)
    requires i <= n
    ensures Flushes(i, batchSize) <= Flushes(n, batchSize)
  {
    if i < n {
      FlushesGrow(i, n - 1, batchSize);
    }
  }

  // The flushes and the count query.
  function FileStatements(e: Entry, disk: Disk, batchSize: nat): nat {
    if e.dataFile in disk.data then RowStatements(|disk.data[e.dataFile].rows|, batchSize) + 1 else 0
  }

  function FilesStatements(entries: seq<Entry>, disk: Disk): nat {
    if entries == [] then 0
    else FilesStatements(entries[..|entries| - 1], disk) + FileStatements(entries[|entries| - 1], disk, BATCH_SIZE)
  }

  lemma {:induction false} FilesStatementsGrow(entries: seq<Entry>, i: nat, disk: Disk)
    requires i <= |entries|
    ensures FilesStatements(entries[..i], disk) <= FilesStatements(entries, disk)
  {
    if i < |entries| {
      assert entries[..|entries| - 1][..i] == entries[..i];
      FilesStatementsGrow(entries[..|entries| - 1], i, disk);
    } else {
      assert entries[..i] == entries;
    }
  }

  datatype FileResult = Counted(n: nat) | Raised(error: IngestionError)

  lemma PreparedInTwo(rows: seq<ParsedRow>, fields: seq<string>, id: nat, k: nat, i: nat)
    requires k <= i <= |rows|
    ensures Prepared(rows[..k], fields, id) + Prepared(rows[k..i], fields, id) == Prepared(rows[..i], fields, id)
  {
  }

  lemma FlushedRows(t: RawTable, rows: seq<ParsedRow>, fields: seq<string>, id: nat, k: nat, i: nat)
    requires k <= i <= |rows|
    ensures InsertAll(InsertAll(t, Prepared(rows[..k], fields, id)), Prepared(rows[k..i], fields, id)) ==
            InsertAll(t, Prepared(rows[..i], fields, id))
  {
    PreparedInTwo(rows, fields, id, k, i);
    InsertInBatches(t, Prepared(rows[..k], fields, id), Prepared(rows[k..i], fields, id));
  }

  // What the session holds once the first k rows are flushed.
  function Flushed(start: Database, table: string, rows: seq<ParsedRow>, fields: seq<string>, id: nat, k: nat): Database
    requires k <= |rows|
  {
    WithTable(start, table, InsertAll(TableOf(start.raw, table), Prepared(rows[..k], fields, id)))
  }

  lemma NothingFlushed(start: Database, table: string, rows: seq<ParsedRow>, fields: seq<string>, id: nat)
    requires table in start.raw
    ensures Flushed(start, table, rows, fields, id, 0) == start && StreamError(rows[..0], fields).None?
    ensures Prepared(rows[0..0], fields, id) == [] && Remembers(map[], rows[..0], fields)
  {
    assert start.raw[table := start.raw[table]] == start.raw;
  }

  method FlushPending(session: Session, table: string, batch: seq<Insertion>, ghost start: Database, ghost rows: seq<ParsedRow>,
                      ghost fields: seq<string>, ghost id: nat, ghost k: nat, ghost i: nat) returns (ok: bool)
    requires k <= i <= |rows| && batch == Prepared(rows[k..i], fields, id)
    requires session.working == Flushed(start, table, rows, fields, id, k)
    modifies session`working, session`clock
    ensures ok ==> session.working == Flushed(start, table, rows, fields, id, i)
    ensures session.clock == old(session.clock) + 1 && ok == !session.faults(old(session.clock))
  {
    FlushedRows(TableOf(start.raw, table), rows, fields, id, k, i);
    ok := FlushBatch(session, table, batch);
  }

  lemma PreparedOneMore(rows: seq<ParsedRow>, fields: seq<string>, id: nat, k: nat, i: nat)
    requires k <= i < |rows|
    ensures Prepared(rows[k..i], fields, id) + [((id, KeyText(rows[i], fields)), RawRow(rows[i].number, rows[i].payload))]
         == Prepared(rows[k..i + 1], fields, id)
    ensures Prepared(rows[i + 1..i + 1], fields, id) == []
  {
  }

  // The flushes up to row i, and all those of the file.
  lemma FlushesSoFar(faults: nat -> bool, first: nat, i: nat, n: nat, batchSize: nat)
    requires i < n
    ensures var step := if Pending(i, batchSize) + 1 >= batchSize then 1 else 0;
      && Flushes(i + 1, batchSize) == Flushes(i, batchSize) + step
      && (AllSucceed(faults, first, Flushes(i + 1, batchSize)) <==>
            AllSucceed(faults, first, Flushes(i, batchSize)) && AllSucceed(faults, first + Flushes(i, batchSize), step))
      && (!AllSucceed(faults, first, Flushes(i + 1, batchSize)) ==> !AllSucceed(faults, first, RowStatements(n, batchSize)))
  {
    var step := if Pending(i, batchSize) + 1 >= batchSize then 1 else 0;
    FlushesGrow(i + 1, n, batchSize);
    SucceedInTwo(faults, first, Flushes(i, batchSize), step);
  }

  // One turn of the loop. `k` rows are flushed, those from k to i are in the batch.
  method IngestRow(session: Session, table: string, rows: seq<ParsedRow>, i: nat, fields: seq<string>, id: nat, batchSize: nat,
                   batch: seq<Insertion>, ghost start: Database, ghost k: nat)
    returns (ok: bool, newBatch: seq<Insertion>, ghost newK: nat)
    requires k <= i < |rows| && batch == Prepared(rows[k..i], fields, id) && |batch| == Pending(i, batchSize)
    requires session.working == Flushed(start, table, rows, fields, id, k)
    modifies session`working, session`clock
    ensures ok ==> newK <= i + 1 && newBatch == Prepared(rows[newK..i + 1], fields, id)
                   && session.working == Flushed(start, table, rows, fields, id, newK)
    ensures ok ==> |newBatch| == Pending(i + 1, batchSize)
    ensures var n := if Pending(i, batchSize) + 1 >= batchSize then 1 else 0;
      session.clock == old(session.clock) + n && (ok <==> AllSucceed(session.faults, old(session.clock), n))
  {
    ok, newK := true, k;
    PreparedOneMore(rows, fields, id, k, i);
    newBatch := batch + [((id, KeyText(rows[i], fields)), RawRow(rows[i].number, rows[i].payload))];
    if |newBatch| >= batchSize {
      ok := FlushPending(session, table, newBatch, start, rows, fields, id, k, i + 1);
      newBatch, newK := [], i + 1;
    }
  }

  // The loop before row i: rows below k are flushed, those from k on are in the
  // batch, and every full batch so far was one statement that succeeded.
  ghost predicate BeforeRow(working: Database, clock: nat, faults: nat -> bool, start: Database, first: nat, table: string,
                            rows: seq<ParsedRow>, fields: seq<string>, id: nat, batchSize: nat, i: nat, k: nat,
                            batch: seq<Insertion>, existing: map<string, Payload>) {
    && k <= i <= |rows| && batch == Prepared(rows[k..i], fields, id) && |batch| == Pending(i, batchSize)
    && working == Flushed(start, table, rows, fields, id, k)
    && StreamError(rows[..i], fields).None? && Remembers(existing, rows[..i], fields)
    && clock == first + Flushes(i, batchSize) && AllSucceed(faults, first, Flushes(i, batchSize))
  }

  // One turn of the loop: check the row, add it to the batch, flush a full batch.
  method TakeRow(session: Session, table: string, rows: seq<ParsedRow>, i: nat, fields: seq<string>, id: nat, batchSize: nat,
                 batch: seq<Insertion>, existing: map<string, Payload>, ghost start: Database, ghost first: nat, ghost k: nat)
    returns (error: Option<IngestionError>, newBatch: seq<Insertion>, next: map<string, Payload>, ghost newK: nat)
    requires i < |rows|
    requires BeforeRow(session.working, session.clock, session.faults, start, first, table, rows, fields, id, batchSize, i, k, batch, existing)
    modifies session`working, session`clock
    ensures error.None? ==> BeforeRow(session.working, session.clock, session.faults, start, first,
                                      table, rows, fields, id, batchSize, i + 1, newK, newBatch, next)
    ensures error.Some? && error != Some(Fault) ==> error == StreamError(rows, fields)
    ensures error == Some(Fault) ==> !AllSucceed(session.faults, first, RowStatements(|rows|, batchSize))
  {
    FlushesSoFar(session.faults, first, i, |rows|, batchSize);
    newBatch, newK := batch, k;
    error, next := CheckRow(existing, rows, i, fields);
    if error.None? {
      var ok;
      ok, newBatch, newK := IngestRow(session, table, rows, i, fields, id, batchSize, batch, start, k);
      if !ok { error := Some(Fault); }
    }
  }

  lemma AllRowsPass(rows: seq<ParsedRow>, fields: seq<string>)
    requires StreamError(rows[..|rows|], fields).None?
    ensures StreamError(rows, fields).None?
  {
    assert rows[..|rows|] == rows;
  }

  // The row loop. What it leaves in the batch is not flushed yet.
  method LoopOverRows(session: Session, table: string, rows: seq<ParsedRow>, fields: seq<string>, id: nat, batchSize: nat)
    returns (error: Option<IngestionError>, batch: seq<Insertion>, ghost k: nat)
    requires table in session.working.raw
    modifies session`working, session`clock
    ensures error.None? ==>
      && k <= |rows| && batch == Prepared(rows[k..|rows|], fields, id) && |batch| == Pending(|rows|, batchSize)
      && session.working == Flushed(old(session.working), table, rows, fields, id, k) && StreamError(rows, fields).None?
      && session.clock == old(session.clock) + Flushes(|rows|, batchSize)
      && AllSucceed(session.faults, old(session.clock), Flushes(|rows|, batchSize))
    ensures error.Some? && error != Some(Fault) ==> error == StreamError(rows, fields)
    ensures error == Some(Fault) ==> !AllSucceed(session.faults, old(session.clock), RowStatements(|rows|, batchSize))
  {
    ghost var start, first := session.working, session.clock;
    var existing: map<string, Payload> := map[];
    error, batch, k := None, [], 0;
    NothingFlushed(start, table, rows, fields, id);
    for i := 0 to |rows|
      invariant error.None?
      invariant BeforeRow(session.working, session.clock, session.faults, start, first, table, rows, fields, id, batchSize, i, k, batch, existing)
    {
      error, batch, existing, k := TakeRow(session, table, rows, i, fields, id, batchSize, batch, existing, start, first, k);
      if error.Some? { return; }
    }
    AllRowsPass(rows, fields);
  }

  lemma LastFlush(faults: nat -> bool, first: nat, n: nat)
    ensures AllSucceed(faults, first, n + 1) <==> AllSucceed(faults, first, n) && !faults(first + n)
  {
  }

  lemma NothingLeft(rows: seq<ParsedRow>, fields: seq<string>, id: nat, k: nat)
    requires k <= |rows| && Prepared(rows[k..|rows|], fields, id) == []
    ensures k == |rows|
  {
  }

  // The flush of the rows that the loop left in the batch.
  method FlushRest(session: Session, table: string, rows: seq<ParsedRow>, fields: seq<string>, id: nat, batch: seq<Insertion>,
                   ghost start: Database, ghost k: nat)
    returns (ok: bool)
    requires k <= |rows| && batch == Prepared(rows[k..|rows|], fields, id)
    requires session.working == Flushed(start, table, rows, fields, id, k)
    modifies session`working, session`clock
    ensures ok ==> session.working == Flushed(start, table, rows, fields, id, |rows|)
    ensures session.clock == old(session.clock) + (if batch == [] then 0 else 1)
    ensures ok == (batch == [] || !session.faults(old(session.clock)))
  {
    if batch == [] {
      NothingLeft(rows, fields, id, k);
      ok := true;
    } else {
      ok := FlushPending(session, table, batch, start, rows, fields, id, k, |rows|);
    }
  }

  // The whole stream; None means that every row is in the table.
  method IngestRows(session: Session, table: string, rows: seq<ParsedRow>, fields: seq<string>, id: nat, batchSize: nat)
    returns (error: Option<IngestionError>)
    requires table in session.working.raw
    modifies session`working, session`clock
    ensures error.None? ==> StreamError(rows, fields).None? && session.working == Flushed(old(session.working), table, rows, fields, id, |rows|)
    ensures error.Some? && error != Some(Fault) ==> error == StreamError(rows, fields)
    ensures var first, n := old(session.clock), RowStatements(|rows|, batchSize);
      && (error.None? ==> session.clock == first + n && AllSucceed(session.faults, first, n))
      && (error == Some(Fault) ==> !AllSucceed(session.faults, first, n))
  {
    ghost var start, first := session.working, session.clock;
    var batch;
    ghost var k;
    error, batch, k := LoopOverRows(session, table, rows, fields, id, batchSize);
    if error.Some? { return; }
    LastFlush(session.faults, first, Flushes(|rows|, batchSize));
    var ok := FlushRest(session, table, rows, fields, id, batch, start, k);
    if !ok { error := Some(Fault); }
  }

  /** Whatever the batch size, a file that loads leaves in its table what one
      unbatched insertion leaves, and a file that raises does so for the reason
      the unbatched one has, unless a statement failed. */
  method IngestDatasetFile(session: Session, e: Entry, disk: Disk, id: nat, batchSize: nat) returns (r: FileResult)
    requires RAW_TABLES <= session.working.raw.Keys
    modifies session`working, session`clock
    ensures var t, outcome := TableOf(old(session.working).raw, e.rawTable), LoadFile(TableOf(old(session.working).raw, e.rawTable), e, disk, id);
      && (r.Counted? ==> outcome.Loaded? && outcome.count == r.n && session.working == WithTable(old(session.working), e.rawTable, outcome.table))
      && (r.Raised? && r.error != Fault ==> outcome == Stopped(r.error))
    ensures var first, n := old(session.clock), FileStatements(e, disk, batchSize);
      && (r.Counted? ==> session.clock == first + n && AllSucceed(session.faults, first, n))
      && (r == Raised(Fault) ==> !AllSucceed(session.faults, first, n))
  {
    if e.rawTable !in RAW_TABLES { return Raised(UnknownTable(e.rawTable)); }
    if e.dataFile !in disk.data || disk.data[e.dataFile].headers.None? { return Raised(Unreadable(e.dataFile)); }
    var error := IngestRows(session, e.rawTable, disk.data[e.dataFile].rows, e.keyFields, id, batchSize);
    if error.Some? { return Raised(error.value); }
    assert disk.data[e.dataFile].rows[..|disk.data[e.dataFile].rows|] == disk.data[e.dataFile].rows;
    var ok := session.Execute();
    if !ok { return Raised(Fault); }
    var count := |RowsOf(TableOf(session.working.raw, e.rawTable), id)|;
    if count != e.expectedRows { return Raised(CountMismatch(e.rawTable)); }
    r := Counted(count);
  }

  // ---- All files ----

  type Counts = seq<(string, nat)>

  // row_counts[table] = n
  function SetCount(counts: Counts, table: string, n: nat): Counts {
    if counts == [] then [(table, n)]
    else if counts[0].0 == table then [(table, n)] + counts[1..]
    else [counts[0]] + SetCount(counts[1..], table, n)
  }

  function SumCounts(counts: Counts): nat {
    if counts == [] then 0 else counts[0].1 + SumCounts(counts[1..])
  }

  datatype FilesOutcome = AllLoaded(raw: map<string, RawTable>, counts: Counts) | Halted(error: IngestionError)

  function LoadFiles(raw: map<string, RawTable>, entries: seq<Entry>, disk: Disk, id: nat): FilesOutcome {
    if entries == [] then AllLoaded(raw, [])
    else LoadNext(LoadFiles(raw, entries[..|entries| - 1], disk, id), entries[|entries| - 1], disk, id)
  }

  function LoadNext(before: FilesOutcome, e: Entry, disk: Disk, id: nat): FilesOutcome {
    if before.Halted? then before
    else
      match LoadFile(TableOf(before.raw, e.rawTable), e, disk, id)
      case Stopped(error) => Halted(error)
      case Loaded(table, count) => AllLoaded(before.raw[e.rawTable := table], SetCount(before.counts, e.rawTable, count))
  }

  lemma LoadOneMore(raw: map<string, RawTable>, entries: seq<Entry>, i: nat, disk: Disk, id: nat)
    requires i < |entries|
    ensures LoadFiles(raw, entries[..i + 1], disk, id) == LoadNext(LoadFiles(raw, entries[..i], disk, id), entries[i], disk, id)
  {
    assert entries[..i + 1][..i] == entries[..i];
  }

  lemma {:induction false} LoadHalts(raw: map<string, RawTable>, entries: seq<Entry>, i: nat, disk: Disk, id: nat)
    requires i <= |entries| && LoadFiles(raw, entries[..i], disk, id).Halted?
    ensures LoadFiles(raw, entries, disk, id) == LoadFiles(raw, entries[..i], disk, id)
  {
    if i < |entries| {
      assert entries[..|entries| - 1][..i] == entries[..i];
      LoadHalts(raw, entries[..|entries| - 1], i, disk, id);
    } else {
      assert entries[..i] == entries;
    }
  }

  method IngestFiles(session: Session, entries: seq<Entry>, disk: Disk, id: nat) returns (error: Option<IngestionError>, counts: Counts)
    requires RAW_TABLES <= session.working.raw.Keys
    modifies session`working, session`clock
    ensures error.None? ==> var raw := old(session.working).raw;
      LoadFiles(raw, entries, disk, id) == AllLoaded(session.working.raw, counts)
      && session.working == old(session.working).(raw := session.working.raw)
    ensures error.Some? && error != Some(Fault) ==> LoadFiles(old(session.working).raw, entries, disk, id) == Halted(error.value)
    ensures var first, n := old(session.clock), FilesStatements(entries, disk);
      && (error.None? ==> session.clock == first + n && AllSucceed(session.faults, first, n))
      && (error == Some(Fault) ==> !AllSucceed(session.faults, first, n))
  {
    error, counts := None, [];
    ghost var raw, first := session.working.raw, session.clock;
    for i := 0 to |entries|
      invariant LoadFiles(raw, entries[..i], disk, id) == AllLoaded(session.working.raw, counts)
      invariant session.working == old(session.working).(raw := session.working.raw)
      invariant RAW_TABLES <= session.working.raw.Keys
      invariant session.clock == first + FilesStatements(entries[..i], disk)
      invariant AllSucceed(session.faults, first, FilesStatements(entries[..i], disk))
    {
      LoadOneMore(raw, entries, i, disk, id);
      FilesOneMore(entries, i, disk);
      var result := IngestDatasetFile(session, entries[i], disk, id, BATCH_SIZE);
      if result.Raised? {
        if result.error != Fault {
          LoadHalts(raw, entries, i + 1, disk, id);
        }
        return Some(result.error), counts;
      }
      counts := SetCount(counts, entries[i].rawTable, result.n);
    }
    assert entries[..|entries|] == entries;
  }

  lemma FilesOneMore(entries: seq<Entry>, i: nat, disk: Disk)
    requires i < |entries|
    ensures FilesStatements(entries[..i + 1], disk) == FilesStatements(entries[..i], disk) + FileStatements(entries[i], disk, BATCH_SIZE)
    ensures FilesStatements(entries[..i + 1], disk) <= FilesStatements(entries, disk)
  {
    assert entries[..i + 1][..i] == entries[..i];
    FilesStatementsGrow(entries, i + 1, disk);
  }

  // ---- What a loaded table holds ----

  ghost predicate ConflictFree(rows: seq<ParsedRow>, fields: seq<string>) {
    && (forall i :: 0 <= i < |rows| ==> SourceKey(fields, rows[i].payload).Some?)
    && (forall i, j :: 0 <= i < j < |rows| && SourceKey(fields, rows[i].payload) == SourceKey(fields, rows[j].payload) ==>
          rows[i].payload == rows[j].payload)
  }

  /** The row loop raises exactly for a row without a key, or two rows that
      share a key and differ. */
  lemma {:induction false} StreamPassesExactlyWhen(rows: seq<ParsedRow>, fields: seq<string>)
    ensures StreamError(rows, fields).None? <==> ConflictFree(rows, fields)
  {
    if rows != [] {
      var before, row := rows[..|rows| - 1], rows[|rows| - 1];
      StreamPassesExactlyWhen(before, fields);
      assert forall i :: 0 <= i < |before| ==> rows[i] == before[i];
      if ConflictFree(before, fields) && SourceKey(fields, row.payload).Some? {
        if ConflictsWith(before, row, fields) {
          var i :| 0 <= i < |before| && SourceKey(fields, before[i].payload) == SourceKey(fields, row.payload) && before[i].payload != row.payload;
          assert rows[i] == before[i];
        }
      }
    }
  }

  // The row at which the stream stops, and why.
  predicate StopsAt(error: IngestionError, rows: seq<ParsedRow>, i: int, fields: seq<string>) {
    && 0 <= i < |rows|
    && match error
      case BadKey(number) => number == rows[i].number && SourceKey(fields, rows[i].payload) == None
      case PayloadConflict(key, number) =>
        && number == rows[i].number && SourceKey(fields, rows[i].payload) == Some(key)
        && exists j :: 0 <= j < i && SourceKey(fields, rows[j].payload) == Some(key) && rows[j].payload != rows[i].payload
      case _ => false
  }

  /** The stream stops for its first row without a key or in conflict with an
      earlier one, and says which row it was. */
  lemma {:induction false} StreamStopsExactlyWhen(rows: seq<ParsedRow>, fields: seq<string>, error: IngestionError)
    ensures StreamError(rows, fields) == Some(error) <==>
              exists i :: 0 <= i < |rows| && ConflictFree(rows[..i], fields) && StopsAt(error, rows, i, fields)
  {
    if rows != [] {
      var n := |rows| - 1;
      StreamStopsExactlyWhen(rows[..n], fields, error);
      StreamPassesExactlyWhen(rows[..n], fields);
      forall i | 0 <= i < n
        ensures rows[..n][..i] == rows[..i] && (StopsAt(error, rows[..n], i, fields) <==> StopsAt(error, rows, i, fields))
      {
        SameStop(error, rows, n, i, fields);
      }
      LastStop(error, rows, fields);
      if i :| 0 <= i < n && ConflictFree(rows[..i], fields) && StopsAt(error, rows, i, fields) {
        assert ConflictFree(rows[..n][..i], fields) && StopsAt(error, rows[..n], i, fields);
      }
    }
  }

  lemma SameStop(error: IngestionError, rows: seq<ParsedRow>, n: nat, i: nat, fields: seq<string>)
    requires i < n <= |rows|
    ensures rows[..n][..i] == rows[..i] && (StopsAt(error, rows[..n], i, fields) <==> StopsAt(error, rows, i, fields))
  {
    assert forall j :: 0 <= j <= i ==> rows[..n][j] == rows[j];
    if error.PayloadConflict? && StopsAt(error, rows, i, fields) {
      var j :| 0 <= j < i && SourceKey(fields, rows[j].payload) == Some(error.key) && rows[j].payload != rows[i].payload;
      assert rows[..n][j] == rows[j];
    }
  }

  lemma LastStop(error: IngestionError, rows: seq<ParsedRow>, fields: seq<string>)
    requires rows != []
    ensures var n := |rows| - 1;
      StreamError(rows[..n], fields).None? ==> (StreamError(rows, fields) == Some(error) <==> StopsAt(error, rows, n, fields))
  {
    var n := |rows| - 1;
    assert forall j :: 0 <= j < n ==> rows[..n][j] == rows[j];
    if error.PayloadConflict? && StopsAt(error, rows, n, fields) {
      var j :| 0 <= j < n && SourceKey(fields, rows[j].payload) == Some(error.key) && rows[j].payload != rows[n].payload;
      assert rows[..n][j] == rows[j];
    }
  }

  predicate Readable(e: Entry, disk: Disk) {
    e.dataFile in disk.data && disk.data[e.dataFile].headers.Some?
  }

  /** What one file comes to when no statement fails: it loads exactly when its
      table is known, it can be read, no row stops the stream, and the version
      then has as many rows as expected. */
  lemma FileLoadsExactlyWhen(t: RawTable, e: Entry, disk: Disk, id: nat)
    ensures var r, known := LoadFile(t, e, disk, id), e.rawTable in RAW_TABLES;
      && (r == Stopped(UnknownTable(e.rawTable)) <==> !known)
      && (r == Stopped(Unreadable(e.dataFile)) <==> known && !Readable(e, disk))
      && (known && Readable(e, disk) ==>
            var rows := disk.data[e.dataFile].rows;
            var after := InsertAll(t, Prepared(rows, e.keyFields, id));
            && (r.Loaded? <==> ConflictFree(rows, e.keyFields) && |RowsOf(after, id)| == e.expectedRows)
            && (r == Stopped(CountMismatch(e.rawTable)) <==> ConflictFree(rows, e.keyFields) && |RowsOf(after, id)| != e.expectedRows)
            && (r.Loaded? ==> r.table == after && r.count == e.expectedRows))
  {
    if e.rawTable in RAW_TABLES && Readable(e, disk) {
      StreamPassesExactlyWhen(disk.data[e.dataFile].rows, e.keyFields);
    }
  }

  // What the dictionary of counts holds for a table.
  function CountFor(counts: Counts, table: string): Option<nat> {
    if counts == [] then None else if counts[0].0 == table then Some(counts[0].1) else CountFor(counts[1..], table)
  }

  lemma {:induction false} SetCountIsUpdate(counts: Counts, table: string, n: nat, other: string)
    ensures CountFor(SetCount(counts, table, n), other) == if other == table then Some(n) else CountFor(counts, other)
    ensures SumCounts(SetCount(counts, table, n)) + (if CountFor(counts, table).Some? then CountFor(counts, table).value else 0) ==
            SumCounts(counts) + n
  {
    if counts != [] && counts[0].0 != table {
      SetCountIsUpdate(counts[1..], table, n, other);
      assert SetCount(counts, table, n)[1..] == SetCount(counts[1..], table, n);
    }
  }

  lemma PreparedKeys(rows: seq<ParsedRow>, fields: seq<string>, id: nat, key: string)
    requires ConflictFree(rows, fields)
    ensures var first := FirstRow(Prepared(rows, fields, id), (id, key));
      && (first.Some? <==> SourceValidator.HasKey(rows, fields, key))
      && (first.Some? ==> exists j :: 0 <= j < |rows| && SourceKey(fields, rows[j].payload) == Some(key) && rows[j].payload == first.value.payload)
  {
    var list := Prepared(rows, fields, id);
    FirstRowFound(list, (id, key));
    forall i | 0 <= i < |rows| ensures list[i].0 == (id, key) <==> SourceKey(fields, rows[i].payload) == Some(key) {}
    if FirstRow(list, (id, key)).Some? {
      var j :| 0 <= j < |list| && list[j] == ((id, key), FirstRow(list, (id, key)).value);
      assert list[j].1.payload == rows[j].payload;
    }
  }

  lemma FirstOfKey(rows: seq<ParsedRow>, fields: seq<string>, id: nat, key: string, j: nat)
    requires ConflictFree(rows, fields)
    requires j < |rows| && SourceKey(fields, rows[j].payload) == Some(key) && forall i :: 0 <= i < j ==> SourceKey(fields, rows[i].payload) != Some(key)
    ensures FirstRow(Prepared(rows, fields, id), (id, key)) == Some(RawRow(rows[j].number, rows[j].payload))
  {
    FirstRowIs(Prepared(rows, fields, id), (id, key), j);
  }

  /** A conflict-free file becomes the plain map from its keys to their
      payloads, each with the number of the first row that has the key, beside
      whatever the table held for other versions. */
  lemma LoadedTableIsPlainMap(t: RawTable, rows: seq<ParsedRow>, fields: seq<string>, id: nat, key: string)
    requires ConflictFree(rows, fields) && (id, key) !in t
    ensures var after := InsertAll(t, Prepared(rows, fields, id));
      && ((id, key) in after <==> SourceValidator.HasKey(rows, fields, key))
      && (forall i :: 0 <= i < |rows| && SourceKey(fields, rows[i].payload) == Some(key) ==>
            (id, key) in after && after[(id, key)].payload == rows[i].payload)
      && (forall j :: 0 <= j < |rows| && SourceKey(fields, rows[j].payload) == Some(key)
                      && (forall i :: 0 <= i < j ==> SourceKey(fields, rows[i].payload) != Some(key)) ==>
            (id, key) in after && after[(id, key)].number == rows[j].number)
  {
    InsertedRow(t, Prepared(rows, fields, id), (id, key));
    PreparedKeys(rows, fields, id, key);
    forall j | 0 <= j < |rows| && SourceKey(fields, rows[j].payload) == Some(key)
               && forall i :: 0 <= i < j ==> SourceKey(fields, rows[i].payload) != Some(key)
      ensures FirstRow(Prepared(rows, fields, id), (id, key)) == Some(RawRow(rows[j].number, rows[j].payload))
    {
      FirstOfKey(rows, fields, id, key, j);
    }
  }

  lemma OtherVersionsKept(t: RawTable, rows: seq<ParsedRow>, fields: seq<string>, id: nat, other: (nat, string))
    requires other.0 != id
    ensures var after := InsertAll(t, Prepared(rows, fields, id));
      (other in after <==> other in t) && (other in t ==> after[other] == t[other])
  {
    InsertedRow(t, Prepared(rows, fields, id), other);
    FirstRowFound(Prepared(rows, fields, id), other);
  }

  // ---- Validated files load ----

  lemma KeyedApartRowsLoad(t: RawTable, rows: seq<ParsedRow>, fields: seq<string>, id: nat)
    requires SourceValidator.KeyedApart(rows, fields) && RowsOf(t, id) == {}
    ensures StreamError(rows, fields).None?
    ensures |RowsOf(InsertAll(t, Prepared(rows, fields, id)), id)| == |rows|
  {
    StreamPassesExactlyWhen(rows, fields);
    var list := Prepared(rows, fields, id);
    forall i, j | 0 <= i < j < |list| ensures list[i].0 != list[j].0 {
      assert SourceKey(fields, rows[i].payload) != SourceKey(fields, rows[j].payload);
    }
    CountAfterInsert(t, list, id);
  }

  /** A file that passed validation raises neither a conflict nor a count
      mismatch, and all its rows are stored. */
  lemma ValidatedFileLoads(t: RawTable, e: Entry, disk: Disk, id: nat, verifyHashes: bool)
    requires SourceValidator.EntryIsSound(e, disk, verifyHashes, true) && e.rawTable in RAW_TABLES && RowsOf(t, id) == {}
    ensures var rows := disk.data[e.dataFile].rows;
      LoadFile(t, e, disk, id) == Loaded(InsertAll(t, Prepared(rows, e.keyFields, id)), |rows|) && |rows| == e.expectedRows
  {
    KeyedApartRowsLoad(t, disk.data[e.dataFile].rows, e.keyFields, id);
  }

  ghost predicate TablesApart(entries: seq<Entry>) {
    && (forall i :: 0 <= i < |entries| ==> entries[i].rawTable in RAW_TABLES)
    && (forall i, j :: 0 <= i < j < |entries| ==> entries[i].rawTable != entries[j].rawTable)
  }

  ghost predicate NoRowsOf(raw: map<string, RawTable>, id: nat) {
    forall name :: name in raw ==> RowsOf(raw[name], id) == {}
  }

  lemma {:induction false} SetNewCount(counts: Counts, table: string, n: nat)
    requires forall c :: c in counts ==> c.0 != table
    ensures SetCount(counts, table, n) == counts + [(table, n)]
    ensures SumCounts(SetCount(counts, table, n)) == SumCounts(counts) + n
  {
    if counts != [] {
      SetNewCount(counts[1..], table, n);
      assert [counts[0]] + (counts[1..] + [(table, n)]) == counts + [(table, n)];
    }
  }

  // The entry's table holds its file's rows on top of what it held before.
  ghost predicate StoredEntry(after: map<string, RawTable>, raw: map<string, RawTable>, e: Entry, disk: Disk, id: nat) {
    && e.dataFile in disk.data && e.rawTable in after
    && after[e.rawTable] == InsertAll(TableOf(raw, e.rawTable), Prepared(disk.data[e.dataFile].rows, e.keyFields, id))
  }

  ghost predicate Names(entries: seq<Entry>, name: string) {
    exists i :: 0 <= i < |entries| && entries[i].rawTable == name
  }

  ghost predicate CountsAddUp(counts: Counts, entries: seq<Entry>, disk: Disk) {
    SumCounts(counts) == SourceValidator.TotalRowsOf(entries, disk) && forall c :: c in counts ==> Names(entries, c.0)
  }

  // Every file is stored in full in its own table, and no other table changes.
  ghost predicate StoredInFull(outcome: FilesOutcome, raw: map<string, RawTable>, entries: seq<Entry>, disk: Disk, id: nat) {
    && outcome.AllLoaded? && CountsAddUp(outcome.counts, entries, disk)
    && (forall i :: 0 <= i < |entries| ==> StoredEntry(outcome.raw, raw, entries[i], disk, id))
    && (forall name :: !Names(entries, name) ==> TableOf(outcome.raw, name) == TableOf(raw, name))
  }

  /** With raw tables distinct across entries, validated files all load: no
      error, the counts add up, and every table holds exactly its file's rows. */
  lemma {:induction false} ValidatedFilesLoad(raw: map<string, RawTable>, entries: seq<Entry>, disk: Disk, id: nat, verifyHashes: bool)
    requires SourceValidator.AllSound(entries, disk, verifyHashes, true) && TablesApart(entries) && NoRowsOf(raw, id)
    ensures StoredInFull(LoadFiles(raw, entries, disk, id), raw, entries, disk, id)
  {
    if entries != [] {
      var n := |entries| - 1;
      SourceValidator.OneMoreSound(entries, n, disk, verifyHashes, true);
      ValidatedFilesLoad(raw, entries[..n], disk, id, verifyHashes);
      OneMoreStored(raw, entries, n, disk, id, verifyHashes);
    }
  }

  lemma OneMoreCount(counts: Counts, entries: seq<Entry>, n: nat, disk: Disk)
    requires n + 1 == |entries| && TablesApart(entries) && entries[n].dataFile in disk.data
    requires CountsAddUp(counts, entries[..n], disk)
    ensures CountsAddUp(SetCount(counts, entries[n].rawTable, |disk.data[entries[n].dataFile].rows|), entries, disk)
  {
    var e := entries[n];
    forall c | c in counts ensures c.0 != e.rawTable && Names(entries, c.0) {
      var i :| 0 <= i < n && entries[..n][i].rawTable == c.0;
      assert entries[i].rawTable == c.0;
    }
    SetNewCount(counts, e.rawTable, |disk.data[e.dataFile].rows|);
    assert Names(entries, e.rawTable);
  }

  lemma TablesStay(before: map<string, RawTable>, table: RawTable, raw: map<string, RawTable>, entries: seq<Entry>, n: nat, disk: Disk, id: nat)
    requires n + 1 == |entries| && TablesApart(entries)
    requires forall i :: 0 <= i < n ==> StoredEntry(before, raw, entries[..n][i], disk, id)
    requires forall name :: !Names(entries[..n], name) ==> TableOf(before, name) == TableOf(raw, name)
    ensures var after := before[entries[n].rawTable := table];
      && (forall i :: 0 <= i < n ==> StoredEntry(after, raw, entries[i], disk, id))
      && (forall name :: !Names(entries, name) ==> TableOf(after, name) == TableOf(raw, name))
  {
    var after := before[entries[n].rawTable := table];
    forall i | 0 <= i < n ensures StoredEntry(after, raw, entries[i], disk, id) {
      assert entries[..n][i] == entries[i] && StoredEntry(before, raw, entries[..n][i], disk, id);
    }
    forall name | !Names(entries, name) ensures TableOf(after, name) == TableOf(raw, name) {
      assert entries[n].rawTable != name;
      assert !Names(entries[..n], name);
    }
  }

  lemma OneMoreStored(raw: map<string, RawTable>, entries: seq<Entry>, n: nat, disk: Disk, id: nat, verifyHashes: bool)
    requires n + 1 == |entries| && TablesApart(entries) && NoRowsOf(raw, id)
    requires SourceValidator.EntryIsSound(entries[n], disk, verifyHashes, true)
    requires StoredInFull(LoadFiles(raw, entries[..n], disk, id), raw, entries[..n], disk, id)
    ensures StoredInFull(LoadFiles(raw, entries, disk, id), raw, entries, disk, id)
  {
    var e, before := entries[n], LoadFiles(raw, entries[..n], disk, id);
    assert !Names(entries[..n], e.rawTable);
    ValidatedFileLoads(TableOf(raw, e.rawTable), e, disk, id, verifyHashes);
    OneMoreCount(before.counts, entries, n, disk);
    var table := InsertAll(TableOf(raw, e.rawTable), Prepared(disk.data[e.dataFile].rows, e.keyFields, id));
    assert LoadFiles(raw, entries, disk, id).raw == before.raw[e.rawTable := table];
    TablesStay(before.raw, table, raw, entries, n, disk, id);
    assert StoredEntry(before.raw[e.rawTable := table], raw, e, disk, id);
  }
}
