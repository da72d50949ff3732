/** The database behind ingestion: dataset versions, ingestion runs, raw tables,
    and a session whose every statement may fail. */
module DatasetStore {
  import opened Text
  import opened SourceFiles

  datatype Status = LOADING | VALIDATED | ACTIVE | FAILED
  datatype RunStatus = RUNNING | SUCCESS

  // manifest_hash is injective, so the manifest stands for its hash.
  datatype VersionRow = VersionRow(
    id: nat, version: string, manifest: Manifest, expected: int, actual: Option<int>, status: Status)

  datatype RawRow = RawRow(number: nat, payload: Payload)

  // Rows of all versions, by the unique pair (dataset_version_id, source_key).
  type RawTable = map<(nat, string), RawRow>

  datatype Database = Database(versions: seq<VersionRow>, runs: map<nat, RunStatus>, raw: map<string, RawTable>)

  const RAW_TABLES := {"raw_bond_kr", "raw_etf_kr", "raw_etf_global", "raw_fund"}

  // The migrated schema without any row.
  const EMPTY_DATABASE := Database([], map[], map name | name in RAW_TABLES :: map[])

  function TableOf(raw: map<string, RawTable>, name: string): RawTable {
    if name in raw then raw[name] else map[]
  }

  /** One session. Statements work on `working`; `faults` says which of them
      raise, counted by `clock`. Ids come from a sequence that never repeats. */
  class Session {
    var committed: Database
    var working: Database
    var clock: nat
    var sequence: nat
    const faults: nat -> bool

    constructor (db: Database, nextId: nat, failing: nat -> bool)
      ensures committed == working == db && clock == 0 && sequence == nextId && faults == failing
    {
      committed, working, clock, sequence, faults := db, db, 0, nextId, failing;
    }

    // Whether the next statement succeeds.
    method Execute() returns (ok: bool)
      modifies this`clock
      ensures ok == !faults(old(clock)) && clock == old(clock) + 1
    {
      ok := !faults(clock);
      clock := clock + 1;
    }

    method Commit() returns (ok: bool)
      modifies this`clock, this`committed
      ensures ok == !faults(old(clock)) && clock == old(clock) + 1
      ensures committed == if ok then working else old(committed)
    {
      ok := Execute();
      if ok { committed := working; }
    }

    method Rollback()
      modifies this`working
      ensures working == committed
    {
      working := committed;
    }
  }

  // None of n statements from the given one raises.
  ghost predicate AllSucceed(faults: nat -> bool, first: nat, n: nat) {
    forall k :: first <= k < first + n ==> !faults(k)
  }

  lemma SucceedInTwo(faults: nat -> bool, first: nat, a: nat, b: nat)
    ensures AllSucceed(faults, first, a + b) <==> AllSucceed(faults, first, a) && AllSucceed(faults, first + a, b)
  {
  }

  // ---- INSERT ... ON CONFLICT DO NOTHING ----

  type Insertion = ((nat, string), RawRow)

  function InsertNew(t: RawTable, row: Insertion): RawTable {
    if row.0 in t then t else t[row.0 := row.1]
  }

  function InsertAll(t: RawTable, rows: seq<Insertion>): RawTable {
    if rows == [] then t else InsertNew(InsertAll(t, rows[..|rows| - 1]), rows[|rows| - 1])
  }

  /** Batches do not matter: inserting two batches is inserting their rows at once. */
  lemma {:induction false} InsertInBatches(t: RawTable, a: seq<Insertion>, b: seq<Insertion>)
    ensures InsertAll(InsertAll(t, a), b) == InsertAll(t, a + b)
  {
    if b == [] {
      assert a + b == a;
    } else {
      InsertInBatches(t, a, b[..|b| - 1]);
      assert (a + b)[..|a + b| - 1] == a + b[..|b| - 1];
    }
  }

  // The row that an insertion list stores under a key: the first one.
  function FirstRow(rows: seq<Insertion>, key: (nat, string)): Option<RawRow> {
    if rows == [] then None
    else
      var before := FirstRow(rows[..|rows| - 1], key);
      if before.Some? then before else if rows[|rows| - 1].0 == key then Some(rows[|rows| - 1].1) else None
  }

  lemma {:induction false} InsertedRow(t: RawTable, rows: seq<Insertion>, key: (nat, string))
    ensures var after := InsertAll(t, rows);
      && (key in t ==> key in after && after[key] == t[key])
      && (key !in t ==> (key in after <==> FirstRow(rows, key).Some?))
      && (key !in t && key in after ==> after[key] == FirstRow(rows, key).value)
  {
    if rows != [] {
      InsertedRow(t, rows[..|rows| - 1], key);
    }
  }

  lemma {:induction false} FirstRowFound(rows: seq<Insertion>, key: (nat, string))
    ensures FirstRow(rows, key).Some? <==> exists i :: 0 <= i < |rows| && rows[i].0 == key
    ensures FirstRow(rows, key).Some? ==> (key, FirstRow(rows, key).value) in rows
  {
    if rows != [] {
      var n := |rows| - 1;
      FirstRowFound(rows[..n], key);
      assert rows == rows[..n] + [rows[n]];
      if FirstRow(rows[..n], key).Some? {
        var i :| 0 <= i < n && rows[..n][i].0 == key;
        assert rows[i].0 == key;
      }
    }
  }

  lemma {:induction false} FirstRowIs(rows: seq<Insertion>, key: (nat, string), j: nat)
    requires j < |rows| && rows[j].0 == key && forall i :: 0 <= i < j ==> rows[i].0 != key
    ensures FirstRow(rows, key) == Some(rows[j].1)
  {
    var n := |rows| - 1;
    if j < n {
      FirstRowIs(rows[..n], key, j);
    } else {
      FirstRowFound(rows[..n], key);
    }
  }

  // select(count).where(dataset_version_id == id)
  function RowsOf(t: RawTable, id: nat): set<(nat, string)> {
    set key | key in t && key.0 == id
  }

  lemma {:induction false} CountAfterInsert(t: RawTable, rows: seq<Insertion>, id: nat)
    requires forall i :: 0 <= i < |rows| ==> rows[i].0.0 == id
    requires forall i, j :: 0 <= i < j < |rows| ==> rows[i].0 != rows[j].0
    requires RowsOf(t, id) == {}
    ensures |RowsOf(InsertAll(t, rows), id)| == |rows|
  {
    if rows != [] {
      var n := |rows| - 1;
      var before, key := InsertAll(t, rows[..n]), rows[n].0;
      CountAfterInsert(t, rows[..n], id);
      InsertedRow(t, rows[..n], key);
      FirstRowFound(rows[..n], key);
      assert key !in before by {
        assert key !in RowsOf(t, id);
      }
      assert RowsOf(before[key := rows[n].1], id) == RowsOf(before, id) + {key};
    }
  }
}
