/** Sequences of ingest runs from an empty store, each succeeding or failing at
    any point: what every committed state satisfies. */
module DatasetHistory {
  import opened Text
  import opened SourceFiles
  import opened DatasetStore
  import opened RawIngestion
  import opened DatasetVersions
  import SourceValidator

  // ---- What loading leaves alone ----

  ghost predicate OnlyAdds(before: map<string, RawTable>, after: map<string, RawTable>, id: nat) {
    && before.Keys <= after.Keys
    && forall name, other :: other != id ==> RowsOf(TableOf(after, name), other) == RowsOf(TableOf(before, name), other)
  }

  lemma OtherRowsKept(t: RawTable, rows: seq<ParsedRow>, fields: seq<string>, id: nat, other: nat)
    requires other != id
    ensures RowsOf(InsertAll(t, Prepared(rows, fields, id)), other) == RowsOf(t, other)
  {
    var after := InsertAll(t, Prepared(rows, fields, id));
    forall key: (nat, string) | key.0 == other ensures key in after <==> key in t {
      OtherVersionsKept(t, rows, fields, id, key);
    }
  }

  lemma {:induction false} LoadOnlyAdds(raw: map<string, RawTable>, entries: seq<Entry>, disk: Disk, id: nat)
    requires LoadFiles(raw, entries, disk, id).AllLoaded?
    ensures OnlyAdds(raw, LoadFiles(raw, entries, disk, id).raw, id)
  {
    if entries != [] {
      var e, before := entries[|entries| - 1], LoadFiles(raw, entries[..|entries| - 1], disk, id);
      LoadOnlyAdds(raw, entries[..|entries| - 1], disk, id);
      var after := LoadFiles(raw, entries, disk, id).raw;
      forall name, other | other != id ensures RowsOf(TableOf(after, name), other) == RowsOf(TableOf(before.raw, name), other) {
        OtherRowsKept(TableOf(before.raw, e.rawTable), disk.data[e.dataFile].rows, e.keyFields, id, other);
      }
    }
  }

  // Each entry's table holds as many rows of the version as the entry expects.
  ghost predicate Counted(raw: map<string, RawTable>, entries: seq<Entry>, id: nat) {
    forall i :: 0 <= i < |entries| ==> |RowsOf(TableOf(raw, entries[i].rawTable), id)| == entries[i].expectedRows
  }

  lemma OneMoreCounted(before: map<string, RawTable>, table: RawTable, entries: seq<Entry>, n: nat, id: nat)
    requires n + 1 == |entries| && TablesApart(entries) && Counted(before, entries[..n], id)
    requires |RowsOf(table, id)| == entries[n].expectedRows
    ensures Counted(before[entries[n].rawTable := table], entries, id)
  {
    forall i | 0 <= i < n ensures |RowsOf(TableOf(before, entries[i].rawTable), id)| == entries[i].expectedRows {
      assert entries[..n][i] == entries[i];
    }
  }

  lemma {:induction false} LoadedIsCounted(raw: map<string, RawTable>, entries: seq<Entry>, disk: Disk, id: nat)
    requires LoadFiles(raw, entries, disk, id).AllLoaded? && TablesApart(entries)
    ensures Counted(LoadFiles(raw, entries, disk, id).raw, entries, id)
  {
    if entries != [] {
      var n := |entries| - 1;
      var before := LoadFiles(raw, entries[..n], disk, id);
      LoadedIsCounted(raw, entries[..n], disk, id);
      var last := LoadFile(TableOf(before.raw, entries[n].rawTable), entries[n], disk, id);
      OneMoreCounted(before.raw, last.table, entries, n, id);
    }
  }

  // ---- The invariant ----

  // A committed version is VALIDATED or ACTIVE, has the rows it expected, and has its run.
  ghost predicate Settled(db: Database, v: VersionRow) {
    && (v.status.VALIDATED? || v.status.ACTIVE?) && v.actual == Some(v.expected) && v.id in db.runs
    && v.version == v.manifest.version && v.expected == v.manifest.expectedTotal
    && (TablesApart(v.manifest.datasets) ==> Counted(db.raw, v.manifest.datasets, v.id))
  }

  ghost predicate Apart(a: VersionRow, b: VersionRow) {
    a.version != b.version && !(a.status.ACTIVE? && b.status.ACTIVE?)
  }

  // Ids are below the next one of the sequence.
  ghost predicate Below(db: Database, bound: nat) {
    && (forall i :: 0 <= i < |db.versions| ==> db.versions[i].id < bound)
    && (forall name, other :: other >= bound ==> RowsOf(TableOf(db.raw, name), other) == {})
  }

  /** At most one ACTIVE version, none LOADING or FAILED, every version complete
      and with a label of its own. */
  ghost predicate Sound(db: Database) {
    && RAW_TABLES <= db.raw.Keys
    && (forall i :: 0 <= i < |db.versions| ==> Settled(db, db.versions[i]))
    && (forall i, j :: 0 <= i < j < |db.versions| ==> Apart(db.versions[i], db.versions[j]))
  }

  // ---- Lookups ----

  lemma {:induction false} FirstVersionFound(versions: seq<VersionRow>, wanted: VersionRow -> bool)
    ensures FirstVersion(versions, wanted).Some? <==> exists i :: 0 <= i < |versions| && wanted(versions[i])
    ensures FirstVersion(versions, wanted).Some? ==>
              FirstVersion(versions, wanted).value in versions && wanted(FirstVersion(versions, wanted).value)
  {
    if versions != [] && !wanted(versions[0]) {
      FirstVersionFound(versions[1..], wanted);
      if i :| 0 <= i < |versions| && wanted(versions[i]) {
        assert versions[1..][i - 1] == versions[i];
      }
    }
  }

  /** In a sound store a superseded version is never removed, so a run gets past
      its checks exactly when the label is new and the files are valid. */
  lemma PlanInSoundStore(db: Database, id: nat, m: Manifest, disk: Disk, verifyHashes: bool)
    requires Sound(db)
    ensures var plan, valid := Plan(db, id, m, disk, verifyHashes), SourceValidator.SourceErrors(m, disk, verifyHashes, true) == [];
      && (FirstVersion(db.versions, ActiveOf(m)).Some? ==> HasLabel(db.versions, m.version))
      && (valid && !HasLabel(db.versions, m.version) ==> plan == Loading(db, id, m, disk))
      && (!valid || HasLabel(db.versions, m.version) ==> !plan.Activated?)
  {
    FirstVersionFound(db.versions, ActiveOf(m));
    FirstVersionFound(db.versions, StaleOf(m));
    var active, stale := FirstVersion(db.versions, ActiveOf(m)), FirstVersion(db.versions, StaleOf(m));
    if active.Some? {
      var i :| 0 <= i < |db.versions| && db.versions[i] == active.value;
      assert db.versions[i].version == m.version;
    }
    if stale.Some? {
      var i :| 0 <= i < |db.versions| && db.versions[i] == stale.value;
      assert Settled(db, db.versions[i]) && Referenced(db, stale.value.id);
    }
  }

  // ---- One run ----

  lemma DemotedRowsStaySettled(db: Database, after: Database, id: nat, v: VersionRow)
    requires Settled(db, v) && v.id < id && OnlyAdds(db.raw, after.raw, id) && after.runs == db.runs[id := SUCCESS]
    ensures Settled(after, v) && Settled(after, v.(status := VALIDATED))
  {
  }

  lemma ActivationKeepsSound(db: Database, id: nat, m: Manifest, disk: Disk)
    requires Sound(db) && Below(db, id) && !HasLabel(db.versions, m.version) && Loading(db, id, m, disk).Activated?
    ensures var after := Loading(db, id, m, disk);
      && Sound(after.db) && Below(after.db, id + 1) && after.row in after.db.versions && after.row.status.ACTIVE?
      && (forall i :: 0 <= i < |db.versions| ==> after.db.versions[i].status.VALIDATED?)
  {
    var outcome, loaded := Loading(db, id, m, disk), LoadFiles(db.raw, m.datasets, disk, id);
    var after, n := outcome.db, |db.versions|;
    LoadOnlyAdds(db.raw, m.datasets, disk, id);
    if TablesApart(m.datasets) { LoadedIsCounted(db.raw, m.datasets, disk, id); }
    forall i | 0 <= i < |after.versions| ensures Settled(after, after.versions[i]) {
      if i < n { DemotedRowsStaySettled(db, after, id, db.versions[i]); }
    }
    forall i, j | 0 <= i < j < |after.versions| ensures Apart(after.versions[i], after.versions[j]) {
      if j < n { assert Apart(db.versions[i], db.versions[j]); }
    }
    assert after.versions[n] == outcome.row;
  }

  /** A run that activates keeps the store sound, and its version is then the
      only ACTIVE one. */
  lemma PlanKeepsSound(db: Database, id: nat, m: Manifest, disk: Disk, verifyHashes: bool)
    requires Sound(db) && Below(db, id) && Plan(db, id, m, disk, verifyHashes).Activated?
    ensures var plan := Plan(db, id, m, disk, verifyHashes);
      && Sound(plan.db) && Below(plan.db, id + 1) && plan.row in plan.db.versions && plan.row.status.ACTIVE?
      && (forall v :: v in plan.db.versions && v.status.ACTIVE? ==> v == plan.row)
  {
    PlanInSoundStore(db, id, m, disk, verifyHashes);
    ActivationKeepsSound(db, id, m, disk);
    var plan := Plan(db, id, m, disk, verifyHashes);
    forall v | v in plan.db.versions && v.status.ACTIVE? ensures v == plan.row {
      var i :| 0 <= i < |plan.db.versions| && plan.db.versions[i] == v;
    }
  }

  /** Activation succeeds exactly for valid files under a label the store has
      never seen: neither an earlier version nor a changed manifest under an
      existing label can be ingested. */
  lemma ActivatesExactlyWhen(db: Database, id: nat, m: Manifest, disk: Disk, verifyHashes: bool)
    requires Sound(db) && Below(db, id) && TablesApart(m.datasets)
    ensures Plan(db, id, m, disk, verifyHashes).Activated? <==>
              SourceValidator.SourceErrors(m, disk, verifyHashes, true) == [] && !HasLabel(db.versions, m.version)
  {
    PlanInSoundStore(db, id, m, disk, verifyHashes);
    if SourceValidator.SourceErrors(m, disk, verifyHashes, true) == [] && !HasLabel(db.versions, m.version) {
      SourceValidator.OkExactlyWhen(m, disk, verifyHashes, true);
      forall name | name in db.raw ensures RowsOf(db.raw[name], id) == {} {
        assert TableOf(db.raw, name) == db.raw[name];
      }
      ValidatedFilesLoad(db.raw, m.datasets, disk, id, verifyHashes);
    }
  }

  lemma ActiveIsFound(db: Database, id: nat, m: Manifest, disk: Disk, verifyHashes: bool, row: VersionRow)
    requires row in db.versions && ActiveOf(m)(row) && forall v :: v in db.versions && v.status.ACTIVE? ==> v == row
    ensures Plan(db, id, m, disk, verifyHashes) == AlreadyActive(row)
  {
    FirstVersionFound(db.versions, ActiveOf(m));
    var i :| 0 <= i < |db.versions| && db.versions[i] == row;
    assert ActiveOf(m)(db.versions[i]);
  }

  lemma ActivatedRow(db: Database, id: nat, m: Manifest, disk: Disk, verifyHashes: bool)
    requires Plan(db, id, m, disk, verifyHashes).Activated?
    ensures ActiveOf(m)(Plan(db, id, m, disk, verifyHashes).row) && Plan(db, id, m, disk, verifyHashes).row.id == id
  {
  }

  /** Ingesting the active manifest again changes nothing, whatever the files
      have become. */
  lemma ReingestIsNoOp(db: Database, id: nat, m: Manifest, disk: Disk, verifyHashes: bool, laterId: nat, laterDisk: Disk, laterHashes: bool)
    requires Sound(db) && Below(db, id) && Plan(db, id, m, disk, verifyHashes).Activated?
    ensures var plan := Plan(db, id, m, disk, verifyHashes);
      Plan(plan.db, laterId, m, laterDisk, laterHashes) == AlreadyActive(plan.row)
  {
    var plan := Plan(db, id, m, disk, verifyHashes);
    PlanKeepsSound(db, id, m, disk, verifyHashes);
    ActivatedRow(db, id, m, disk, verifyHashes);
    ActiveIsFound(plan.db, laterId, m, laterDisk, laterHashes, plan.row);
  }

  // ---- Every run ----

  datatype Attempt = Attempt(id: nat, manifest: Manifest, disk: Disk, verifyHashes: bool)

  // What IngestManifest ensures of the committed state.
  ghost predicate Step(db: Database, a: Attempt, after: Database) {
    var plan := Plan(db, a.id, a.manifest, a.disk, a.verifyHashes);
    after == db || (plan.Activated? && after == plan.db)
  }

  /** The ingest script: one attempt in a session of its own, whose uncommitted
      rest is lost when it closes, is one Step whichever statements fail. */
  method RunInOwnSession(db: Database, a: Attempt, faults: nat -> bool) returns (after: Database, result: Result)
    requires RAW_TABLES <= db.raw.Keys
    ensures Step(db, a, after)
    ensures result.Aborted? && result.error != Fault ==> after == db
    ensures var plan, n := Plan(db, a.id, a.manifest, a.disk, a.verifyHashes), BeforeCommit(db, a.manifest, a.disk);
      plan.Activated? ==>
        && after == (if AllSucceed(faults, 0, n + 1) then plan.db else db)
        && result == (if AllSucceed(faults, 0, n + 2) then Ingested(plan.row) else Aborted(Fault))
  {
    var session := new Session(db, a.id, faults);
    result := IngestManifest(session, a.manifest, a.disk, a.verifyHashes);
    after := session.committed;
  }

  lemma SettledMember(db: Database, row: VersionRow)
    requires Sound(db) && row in db.versions
    ensures Settled(db, row)
  {
    var i :| 0 <= i < |db.versions| && db.versions[i] == row;
  }

  lemma ActivationAddsRow(db: Database, a: Attempt)
    requires Sound(db) && Below(db, a.id) && Plan(db, a.id, a.manifest, a.disk, a.verifyHashes).Activated?
    ensures var plan := Plan(db, a.id, a.manifest, a.disk, a.verifyHashes);
      && Sound(plan.db) && plan.row in plan.db.versions && plan.row !in db.versions
      && plan.row.status.ACTIVE? && plan.row.actual == Some(plan.row.expected)
  {
    var plan := Plan(db, a.id, a.manifest, a.disk, a.verifyHashes);
    PlanKeepsSound(db, a.id, a.manifest, a.disk, a.verifyHashes);
    SettledMember(plan.db, plan.row);
    ActivatedRow(db, a.id, a.manifest, a.disk, a.verifyHashes);
  }

  /** A failed run that changed the store: only the reload after the commit fails.
      The run raises, and its version is committed, complete and ACTIVE. */
  method CommittedButRaised(db: Database, a: Attempt) returns (after: Database, result: Result)
    requires Sound(db) && Below(db, a.id)
    requires Plan(db, a.id, a.manifest, a.disk, a.verifyHashes).Activated?
    ensures var plan := Plan(db, a.id, a.manifest, a.disk, a.verifyHashes);
      && result == Aborted(Fault) && after == plan.db && after != db && Sound(after)
      && plan.row in after.versions && plan.row.status.ACTIVE? && plan.row.actual == Some(plan.row.expected)
  {
    var n := BeforeCommit(db, a.manifest, a.disk);
    ActivationAddsRow(db, a);
    var onlyReload := (k: nat) => k == n + 1;
    assert onlyReload(n + 1);
    after, result := RunInOwnSession(db, a, onlyReload);
  }

  // One file with one row, under given hashes.
  function OneBond(schemaSha: string, dataSha: string): Disk {
    Disk(
      map["schema.xlsx" := SchemaFile(schemaSha, Some(["pd_no"]))],
      map["data.xlsx" := DataFile(dataSha, Some(["pd_no"]), [ParsedRow(2, map["pd_no" := Words("B1")])])])
  }

  function OneBondManifest(version: string, schemaSha: string, dataSha: string): Manifest {
    Manifest(version, [Entry("raw_bond_kr", "schema.xlsx", "data.xlsx", schemaSha, dataSha, 1, 1, ["pd_no"])], 1)
  }

  function OneBondAttempt(id: nat, version: string, sha: string): Attempt {
    Attempt(id, OneBondManifest(version, sha, sha), OneBond(sha, sha), true)
  }

  lemma OneBondStatements(version: string, sha: string)
    ensures BeforeCommit(EMPTY_DATABASE, OneBondManifest(version, sha, sha), OneBond(sha, sha)) == 7
  {
    var m, disk := OneBondManifest(version, sha, sha), OneBond(sha, sha);
    assert Pending(0, BATCH_SIZE) == 0 && Pending(1, BATCH_SIZE) == 1 && Flushes(1, BATCH_SIZE) == 0;
    assert m.datasets[..0] == [] && FileStatements(m.datasets[0], disk, BATCH_SIZE) == 2;
    assert FilesStatements(m.datasets, disk) == 2;
  }

  /** Such a run exists: the first ingestion of one file with one row, under any
      label and with any hash (the manifest loader wants 64 hex characters). */
  lemma OneBondActivates(version: string, sha: string)
    ensures Sound(EMPTY_DATABASE) && Below(EMPTY_DATABASE, 0)
    ensures Plan(EMPTY_DATABASE, 0, OneBondManifest(version, sha, sha), OneBond(sha, sha), true).Activated?
    ensures BeforeCommit(EMPTY_DATABASE, OneBondManifest(version, sha, sha), OneBond(sha, sha)) == 7
  {
    EmptyIsSound();
    OneBondStatements(version, sha);
    OneBondIsValid(version, sha, sha);
    ActivatesExactlyWhen(EMPTY_DATABASE, 0, OneBondManifest(version, sha, sha), OneBond(sha, sha), true);
  }

  lemma OneBondIsSound(version: string, schemaSha: string, dataSha: string)
    ensures var m, disk := OneBondManifest(version, schemaSha, dataSha), OneBond(schemaSha, dataSha);
      SourceValidator.AllSound(m.datasets, disk, true, true) && SourceValidator.TotalRowsOf(m.datasets, disk) == 1
  {
    var disk := OneBond(schemaSha, dataSha);
    var payload := disk.data["data.xlsx"].rows[0].payload;
    KeyPartsExistExactlyWhen(["pd_no"], payload);
  }

  lemma OneBondIsValid(version: string, schemaSha: string, dataSha: string)
    ensures SourceValidator.SourceErrors(OneBondManifest(version, schemaSha, dataSha), OneBond(schemaSha, dataSha), true, true) == []
  {
    OneBondIsSound(version, schemaSha, dataSha);
    SourceValidator.OkExactlyWhen(OneBondManifest(version, schemaSha, dataSha), OneBond(schemaSha, dataSha), true, true);
  }

  // ---- A label that is taken ----

  // A version of this label and manifest is ACTIVE.
  predicate IsActive(db: Database, m: Manifest) {
    exists i :: 0 <= i < |db.versions| && ActiveOf(m)(db.versions[i])
  }

  /** What a run with valid files under a known label does: nothing when the very
      manifest is ACTIVE, and otherwise, for a changed manifest and for a
      superseded one alike, it is refused by a constraint of the database. */
  lemma KnownLabelIsRefusedExactlyWhen(db: Database, id: nat, m: Manifest, disk: Disk, verifyHashes: bool)
    requires Sound(db) && HasLabel(db.versions, m.version)
    requires SourceValidator.SourceErrors(m, disk, verifyHashes, true) == []
    ensures Plan(db, id, m, disk, verifyHashes) == Refused(IntegrityError) <==> !IsActive(db, m)
    ensures Plan(db, id, m, disk, verifyHashes).AlreadyActive? <==> IsActive(db, m)
  {
    FirstVersionFound(db.versions, ActiveOf(m));
    FirstVersionFound(db.versions, StaleOf(m));
    var stale := FirstVersion(db.versions, StaleOf(m));
    if stale.Some? {
      SettledMember(db, stale.value);
    }
  }

  // What an attempt comes to when no statement fails.
  function PlanOf(db: Database, a: Attempt): Outcome {
    Plan(db, a.id, a.manifest, a.disk, a.verifyHashes)
  }

  lemma ActivationFacts(db: Database, a: Attempt)
    requires Sound(db) && Below(db, a.id) && PlanOf(db, a).Activated?
    ensures var after := PlanOf(db, a);
      && Sound(after.db) && Below(after.db, a.id + 1) && HasLabel(after.db.versions, a.manifest.version)
      && (forall v :: v in after.db.versions && v.status.ACTIVE? ==> v.manifest == a.manifest)
      && (forall version :: HasLabel(db.versions, version) ==> HasLabel(after.db.versions, version))
  {
    var after := PlanOf(db, a);
    PlanKeepsSound(db, a.id, a.manifest, a.disk, a.verifyHashes);
    ActivatedRow(db, a.id, a.manifest, a.disk, a.verifyHashes);
    var i :| 0 <= i < |after.db.versions| && after.db.versions[i] == after.row;
    forall version | HasLabel(db.versions, version) ensures HasLabel(after.db.versions, version) {
      LabelsStay(db, a, version);
    }
  }

  lemma OtherManifestIsRefused(db: Database, a: Attempt, later: Attempt)
    requires Sound(db) && Below(db, a.id) && PlanOf(db, a).Activated? && later.manifest != a.manifest
    requires HasLabel(PlanOf(db, a).db.versions, later.manifest.version)
    requires SourceValidator.SourceErrors(later.manifest, later.disk, later.verifyHashes, true) == []
    ensures PlanOf(PlanOf(db, a).db, later) == Refused(IntegrityError)
  {
    var after := PlanOf(db, a).db;
    ActivationFacts(db, a);
    forall i | 0 <= i < |after.versions| ensures !ActiveOf(later.manifest)(after.versions[i]) {
      assert after.versions[i] in after.versions;
    }
    KnownLabelIsRefusedExactlyWhen(after, later.id, later.manifest, later.disk, later.verifyHashes);
  }

  /** A changed manifest: after the first ingestion of one file, the file with
      another hash is refused under the same label. */
  lemma ChangedManifestIsRefused(version: string, sha: string, other: string)
    requires sha != other
    ensures var first, changed := OneBondAttempt(0, version, sha), OneBondAttempt(1, version, other);
      PlanOf(EMPTY_DATABASE, first).Activated? && PlanOf(PlanOf(EMPTY_DATABASE, first).db, changed) == Refused(IntegrityError)
  {
    var first, changed := OneBondAttempt(0, version, sha), OneBondAttempt(1, version, other);
    OneBondActivates(version, sha);
    OneBondIsValid(version, other, other);
    ActivationFacts(EMPTY_DATABASE, first);
    assert first.manifest.datasets[0].dataSha != changed.manifest.datasets[0].dataSha;
    OtherManifestIsRefused(EMPTY_DATABASE, first, changed);
  }

  /** A superseded manifest: once another label has been activated, the first one
      is refused, unchanged and with the same valid files. */
  lemma SupersededManifestIsRefused(version: string, next: string, sha: string)
    requires version != next
    ensures var first, second, again := OneBondAttempt(0, version, sha), OneBondAttempt(1, next, sha), OneBondAttempt(2, version, sha);
      && PlanOf(EMPTY_DATABASE, first).Activated? && PlanOf(PlanOf(EMPTY_DATABASE, first).db, second).Activated?
      && PlanOf(PlanOf(PlanOf(EMPTY_DATABASE, first).db, second).db, again) == Refused(IntegrityError)
  {
    var first, second, again := OneBondAttempt(0, version, sha), OneBondAttempt(1, next, sha), OneBondAttempt(2, version, sha);
    OneBondActivates(version, sha);
    OneBondIsValid(version, sha, sha);
    OneBondIsValid(next, sha, sha);
    ActivationFacts(EMPTY_DATABASE, first);
    var once := PlanOf(EMPTY_DATABASE, first).db;
    OnlyOneLabel(first, next);
    ActivatesExactlyWhen(once, 1, second.manifest, second.disk, true);
    ActivationFacts(once, second);
    OtherManifestIsRefused(once, second, again);
  }

  lemma OnlyOneLabel(a: Attempt, version: string)
    requires PlanOf(EMPTY_DATABASE, a).Activated? && a.manifest.version != version
    ensures !HasLabel(PlanOf(EMPTY_DATABASE, a).db.versions, version)
  {
  }

  // In a sound store an activation removes no version.
  lemma LabelsStay(db: Database, a: Attempt, version: string)
    requires Sound(db) && Below(db, a.id) && Plan(db, a.id, a.manifest, a.disk, a.verifyHashes).Activated?
    ensures HasLabel(db.versions, version) ==> HasLabel(Plan(db, a.id, a.manifest, a.disk, a.verifyHashes).db.versions, version)
  {
    PlanInSoundStore(db, a.id, a.manifest, a.disk, a.verifyHashes);
    if i :| 0 <= i < |db.versions| && db.versions[i].version == version {
      assert Plan(db, a.id, a.manifest, a.disk, a.verifyHashes).db.versions[i].version == version;
    }
  }

  ghost predicate History(states: seq<Database>, attempts: seq<Attempt>) {
    && |states| == |attempts| + 1 && states[0] == EMPTY_DATABASE
    && (forall i :: 0 <= i < |attempts| ==> Step(states[i], attempts[i], states[i + 1]))
    && (forall i, j :: 0 <= i < j < |attempts| ==> attempts[i].id < attempts[j].id)
  }

  lemma EmptyIsSound()
    ensures Sound(EMPTY_DATABASE) && Below(EMPTY_DATABASE, 0)
  {
  }

  lemma StepKeepsSound(db: Database, a: Attempt, after: Database)
    requires Sound(db) && Below(db, a.id) && Step(db, a, after)
    ensures Sound(after) && Below(after, a.id + 1)
  {
    if after == db {
      BelowGrows(db, a.id, a.id + 1);
    } else {
      PlanKeepsSound(db, a.id, a.manifest, a.disk, a.verifyHashes);
    }
  }

  // The least id that the sequence may give after k runs.
  function NextId(attempts: seq<Attempt>, k: nat): nat
    requires k <= |attempts|
  {
    if k == 0 then 0 else attempts[k - 1].id + 1
  }

  lemma HistoryStep(states: seq<Database>, attempts: seq<Attempt>, k: nat)
    requires History(states, attempts) && k < |attempts|
    ensures NextId(attempts, k) <= attempts[k].id && Step(states[k], attempts[k], states[k + 1])
  {
  }

  ghost predicate SoundAfter(states: seq<Database>, attempts: seq<Attempt>, k: nat)
    requires k <= |attempts| && k < |states|
  {
    Sound(states[k]) && Below(states[k], NextId(attempts, k))
  }

  lemma NextIsSound(states: seq<Database>, attempts: seq<Attempt>, k: nat)
    requires History(states, attempts) && k < |attempts| && SoundAfter(states, attempts, k)
    ensures SoundAfter(states, attempts, k + 1)
  {
    var db, a := states[k], attempts[k];
    HistoryStep(states, attempts, k);
    BelowGrows(db, NextId(attempts, k), a.id);
    StepKeepsSound(db, a, states[k + 1]);
  }

  /** Safety over every sequence of runs: each committed state is sound. */
  lemma {:induction false} EveryCommittedStateIsSound(states: seq<Database>, attempts: seq<Attempt>, k: nat)
    requires History(states, attempts) && k < |states|
    ensures SoundAfter(states, attempts, k)
  {
    if k == 0 {
      EmptyIsSound();
    } else {
      EveryCommittedStateIsSound(states, attempts, k - 1);
      NextIsSound(states, attempts, k - 1);
    }
  }

  lemma BelowGrows(db: Database, bound: nat, larger: nat)
    requires Below(db, bound) && bound <= larger
    ensures Below(db, larger)
  {
  }
}
