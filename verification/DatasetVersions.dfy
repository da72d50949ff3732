/** ingest_manifest: a data set version is loaded, activated in place of the
    previous one, and committed; or nothing changes. */
module DatasetVersions {
  import opened Text
  import opened SourceFiles
  import opened DatasetStore
  import opened RawIngestion
  import opened SourceValidator

  // The first row for which select(...).where(...) holds.
  function FirstVersion(versions: seq<VersionRow>, wanted: VersionRow -> bool): Option<VersionRow> {
    if versions == [] then None
    else if wanted(versions[0]) then Some(versions[0])
    else FirstVersion(versions[1..], wanted)
  }

  function ActiveOf(m: Manifest): VersionRow -> bool {
    (v: VersionRow) => v.version == m.version && v.manifest == m && v.status.ACTIVE?
  }

  function StaleOf(m: Manifest): VersionRow -> bool {
    (v: VersionRow) => v.version == m.version && !v.status.ACTIVE?
  }

  // Rows of ingestion_run or a raw table that point at the version.
  predicate Referenced(db: Database, id: nat) {
    id in db.runs || exists name :: name in db.raw && RowsOf(db.raw[name], id) != {}
  }

  predicate HasLabel(versions: seq<VersionRow>, version: string) {
    exists i :: 0 <= i < |versions| && versions[i].version == version
  }

  function OtherThan(id: nat): VersionRow -> bool {
    (v: VersionRow) => v.id != id
  }

  function Demoted(versions: seq<VersionRow>): (r: seq<VersionRow>)
    ensures |r| == |versions|
  {
    seq(|versions|, i requires 0 <= i < |versions| =>
      if versions[i].status.ACTIVE? then versions[i].(status := VALIDATED) else versions[i])
  }

  /** What a run does when no statement fails. Refused covers every exception. */
  datatype Outcome = AlreadyActive(row: VersionRow) | Refused(error: IngestionError) | Activated(db: Database, row: VersionRow)

  function Plan(db: Database, id: nat, m: Manifest, disk: Disk, verifyHashes: bool): Outcome {
    var active := FirstVersion(db.versions, ActiveOf(m));
    if active.Some? then AlreadyActive(active.value)
    else if SourceErrors(m, disk, verifyHashes, true) != [] then Refused(InvalidSources)
    else
      var stale := FirstVersion(db.versions, StaleOf(m));
      if stale.Some? && Referenced(db, stale.value.id) then Refused(IntegrityError)
      else
        var kept := if stale.Some? then Filter(db.versions, OtherThan(stale.value.id)) else db.versions;
        if HasLabel(kept, m.version) then Refused(IntegrityError) else Loading(db.(versions := kept), id, m, disk)
  }

  // From the insertion of the version row to the commit.
  function Loading(db: Database, id: nat, m: Manifest, disk: Disk): Outcome {
    match LoadFiles(db.raw, m.datasets, disk, id)
    case Halted(error) => Refused(error)
    case AllLoaded(raw, counts) =>
      if SumCounts(counts) != m.expectedTotal then Refused(TotalMismatch)
      else
        var row := VersionRow(id, m.version, m, m.expectedTotal, Some(SumCounts(counts)), ACTIVE);
        Activated(Database(Demoted(db.versions) + [row], db.runs[id := SUCCESS], raw), row)
  }

  // ---- The run ----

  datatype Result = Ingested(row: VersionRow) | Aborted(error: IngestionError)

  // The statements of Prepare: two lookups, the deletion of a stale row, the new row.
  function PrepareStatements(db: Database, m: Manifest): nat {
    if FirstVersion(db.versions, StaleOf(m)).Some? then 4 else 3
  }

  // Those between: the ingestion run, the files, and the demotion of the active version.
  function LoadStatements(m: Manifest, disk: Disk): nat {
    FilesStatements(m.datasets, disk) + 1
  }

  /** The number of statements before the commit. */
  function BeforeCommit(db: Database, m: Manifest, disk: Disk): nat {
    PrepareStatements(db, m) + 1 + LoadStatements(m, disk)
  }

  // Checks, and removes a stale row; everything up to the insertion of the new row.
  method Prepare(session: Session, m: Manifest, disk: Disk, verifyHashes: bool) returns (early: Option<Result>)
    requires session.working == session.committed
    modifies session`working, session`clock
    ensures var db := old(session.working);
      forall id :: match early
        case None => Plan(db, id, m, disk, verifyHashes) == Loading(session.working, id, m, disk)
        case Some(Ingested(row)) => Plan(db, id, m, disk, verifyHashes) == AlreadyActive(row)
        case Some(Aborted(error)) => error == Fault || Plan(db, id, m, disk, verifyHashes) == Refused(error)
    ensures var first, n := old(session.clock), PrepareStatements(old(session.working), m);
      && (early.None? ==> session.clock == first + n && AllSucceed(session.faults, first, n))
      && (early == Some(Aborted(Fault)) ==> !AllSucceed(session.faults, first, n))
    ensures early.None? ==> session.working == old(session.working).(versions := session.working.versions)
  {
    var db := session.working;
    var ok := session.Execute();
    if !ok { return Some(Aborted(Fault)); }
    var active := FirstVersion(db.versions, ActiveOf(m));
    if active.Some? { return Some(Ingested(active.value)); }
    var valid, errors := ValidateSourceFiles(m, disk, verifyHashes, true);
    if !valid { return Some(Aborted(InvalidSources)); }
    ok := session.Execute();
    if !ok { return Some(Aborted(Fault)); }
    var stale := FirstVersion(db.versions, StaleOf(m));
    var kept := db.versions;
    if stale.Some? {
      ok := session.Execute();
      if !ok { return Some(Aborted(Fault)); }
      if Referenced(db, stale.value.id) { return Some(Aborted(IntegrityError)); }
      kept := Filter(db.versions, OtherThan(stale.value.id));
    }
    ok := session.Execute();
    if !ok { return Some(Aborted(Fault)); }
    if HasLabel(kept, m.version) { return Some(Aborted(IntegrityError)); }
    session.working := db.(versions := kept);
    early := None;
  }

  // The try block up to the commit, entered with the LOADING row and its RUNNING run in place.
  method Load(session: Session, before: Database, id: nat, m: Manifest, disk: Disk) returns (error: Option<IngestionError>, row: VersionRow)
    requires RAW_TABLES <= session.working.raw.Keys
    requires session.working == Database(before.versions + [LoadingRow(id, m)], before.runs[id := RUNNING], before.raw)
    modifies session`working, session`clock
    ensures error.None? ==> Loading(before, id, m, disk) == Activated(session.working, row)
    ensures error.Some? && error != Some(Fault) ==> Loading(before, id, m, disk) == Refused(error.value)
    ensures var first, n := old(session.clock), LoadStatements(m, disk);
      && (error.None? ==> session.clock == first + n && AllSucceed(session.faults, first, n))
      && (error == Some(Fault) ==> !AllSucceed(session.faults, first, n))
  {
    row := LoadingRow(id, m);
    SucceedInTwo(session.faults, session.clock, FilesStatements(m.datasets, disk), 1);
    var counts;
    error, counts := IngestFiles(session, m.datasets, disk, id);
    if error.Some? { return; }
    error, row := Activate(session, before, id, m, disk, counts);
  }

  // The total of the loaded files decides whether the version becomes the active one.
  method Activate(session: Session, before: Database, id: nat, m: Manifest, disk: Disk, counts: Counts)
    returns (error: Option<IngestionError>, row: VersionRow)
    requires LoadFiles(before.raw, m.datasets, disk, id) == AllLoaded(session.working.raw, counts)
    requires session.working.runs == before.runs[id := RUNNING]
    modifies session`working, session`clock
    ensures error.None? ==> Loading(before, id, m, disk) == Activated(session.working, row)
    ensures error.Some? && error != Some(Fault) ==> Loading(before, id, m, disk) == Refused(error.value)
    ensures error.None? ==> session.clock == old(session.clock) + 1
    ensures (error.None? ==> AllSucceed(session.faults, old(session.clock), 1))
    ensures error == Some(Fault) ==> !AllSucceed(session.faults, old(session.clock), 1)
  {
    row := LoadingRow(id, m);
    LoadedFiles(before, id, m, disk, session.working.raw, counts);
    var total := SumCounts(counts);
    if total != m.expectedTotal { return Some(TotalMismatch), row; }
    row := row.(actual := Some(total), status := VALIDATED);
    var ok := session.Execute();
    if !ok { return Some(Fault), row; }
    row := row.(status := ACTIVE);
    session.working := Database(Demoted(before.versions) + [row], session.working.runs[id := SUCCESS], session.working.raw);
    error := None;
  }

  // What remains to be decided once the files are loaded.
  lemma LoadedFiles(before: Database, id: nat, m: Manifest, disk: Disk, raw: map<string, RawTable>, counts: Counts)
    requires LoadFiles(before.raw, m.datasets, disk, id) == AllLoaded(raw, counts)
    ensures var row := LoadingRow(id, m).(actual := Some(SumCounts(counts)), status := ACTIVE);
      Loading(before, id, m, disk) ==
        if SumCounts(counts) != m.expectedTotal then Refused(TotalMismatch)
        else Activated(Database(Demoted(before.versions) + [row], before.runs[id := RUNNING][id := SUCCESS], raw), row)
  {
    assert before.runs[id := RUNNING][id := SUCCESS] == before.runs[id := SUCCESS];
  }

  function LoadingRow(id: nat, m: Manifest): VersionRow {
    VersionRow(id, m.version, m, m.expectedTotal, None, LOADING)
  }

  // From the ingestion run to the commit and the reload behind it.
  method LoadAndCommit(session: Session, before: Database, id: nat, m: Manifest, disk: Disk) returns (result: Result)
    requires RAW_TABLES <= before.raw.Keys
    requires session.working == before.(versions := before.versions + [LoadingRow(id, m)])
    modifies session`working, session`committed, session`clock
    ensures var outcome, first, n := Loading(before, id, m, disk), old(session.clock), 1 + LoadStatements(m, disk);
      && session.committed == (if outcome.Activated? && AllSucceed(session.faults, first, n + 1) then outcome.db else old(session.committed))
      && (outcome.Activated? ==> result == if AllSucceed(session.faults, first, n + 2) then Ingested(outcome.row) else Aborted(Fault))
      && (result.Ingested? ==> outcome.Activated?)
      && (result.Aborted? && result.error != Fault ==> outcome == Refused(result.error))
      && (result == Aborted(Fault) ==> !AllSucceed(session.faults, first, n + 2))
  {
    SucceedInTwo(session.faults, session.clock, 1, LoadStatements(m, disk));
    var ok := session.Execute();
    if !ok { return Aborted(Fault); }
    session.working := session.working.(runs := session.working.runs[id := RUNNING]);
    var error, row := Load(session, before, id, m, disk);
    if error.Some? {
      session.Rollback();
      return Aborted(error.value);
    }
    ok := session.Commit();
    if ok { ok := session.Execute(); }
    if !ok {
      session.Rollback();
      return Aborted(Fault);
    }
    result := Ingested(row);
  }

  /** Which statements fail decides everything. The committed state changes
      exactly when the plan activates and neither the commit nor a statement
      before it fails; the run then succeeds exactly when the reload after the
      commit does too. So a run raises although its version is committed exactly
      when that reload is the first statement to fail. */
  method IngestManifest(session: Session, m: Manifest, disk: Disk, verifyHashes: bool) returns (result: Result)
    requires session.working == session.committed && RAW_TABLES <= session.committed.raw.Keys
    modifies session
    ensures var db, outcome := old(session.committed), Plan(old(session.committed), old(session.sequence), m, disk, verifyHashes);
      var first, n := old(session.clock), BeforeCommit(old(session.committed), m, disk);
      && session.committed == (if outcome.Activated? && AllSucceed(session.faults, first, n + 1) then outcome.db else db)
      && (outcome.Activated? ==> result == if AllSucceed(session.faults, first, n + 2) then Ingested(outcome.row) else Aborted(Fault))
      && (result.Ingested? && !outcome.Activated? ==> outcome == AlreadyActive(result.row))
      && (result.Aborted? && result.error != Fault ==> outcome == Refused(result.error))
      && (result == Aborted(Fault) ==> !AllSucceed(session.faults, first, n + 2))
    ensures session.sequence >= old(session.sequence)
  {
    ghost var first, p, l := session.clock, PrepareStatements(session.working, m), LoadStatements(m, disk);
    SucceedInTwo(session.faults, first, p, 1 + l + 1);
    SucceedInTwo(session.faults, first, p, 1 + l + 2);
    var early := Prepare(session, m, disk, verifyHashes);
    if early.Some? { return early.value; }
    var before, id := session.working, session.sequence;
    session.sequence := id + 1;
    session.working := before.(versions := before.versions + [LoadingRow(id, m)]);
    result := LoadAndCommit(session, before, id, m, disk);
  }
}
