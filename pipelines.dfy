/**
 * `database_pipeline`: make sure the table exists, find the incoming keys it does not
 * hold yet, and add the records carrying them, committing each change.
 */
module Pipelines {
  import opened Wrappers
  import opened Errors
  import opened Dicts
  import opened Schema
  import opened Records
  import opened Store
  import opened Connection
  import opened Databases

  /** The table the pipeline loads unless told otherwise. */
  const DefaultTable := "gcn"

  /** `if not table_exists(table): create_table(table)`. */
  function EnsureTable(s: State, table: string): (r: (State, Option<Error>))
    ensures r.1.None? <==> !s.aborted
    ensures r.1.None? ==> table in r.0.tables && !r.0.aborted
    ensures s.aborted ==> r.1 == Some(InFailedTransaction) && r.0.tables == s.tables && r.0.committed == s.committed
  {
    var (s1, present) := TableExistsOn(s, table);
    match present
    case Failure(e) => (s1, Some(e))
    case Success(found) => if found then (s1, None) else CreateTableOn(s1, table)
  }

  /** The whole pipeline on a connection in state `s`. */
  function Reconcile(s: State, records: seq<Record>, table: string): Outcome {
    var (s2, created) := EnsureTable(s, table);
    if created.Some? then Outcome(s2, records, created)
    else
      var (s3, missing) := CompareOn(s2, records, table);
      match missing
      case Failure(e) => Outcome(s3, records, Some(e))
      case Success(toAdd) =>
        if |toAdd| == 0 then Outcome(s3, records, None) else AddOn(s3, toAdd, records, table)
  }

  /** `database_pipeline(csv_records, table)` against a server holding `server`. */
  method DatabasePipeline(server: Tables, csv: array<Record>, table: string) returns (db: Database, err: Option<Error>)
    requires Consistent(server)
    modifies csv
    ensures fresh(db)
    ensures var o := Reconcile(Connect(server), old(csv[..]), table);
            db.Snapshot() == o.state && csv[..] == o.records && err == o.error
  {
    db := new Database(server);
    var present := db.TableExists(table);
    match present
    case Success(found) =>
      if !found {
        err := db.CreateTable(table);
        if err.Some? {
          return;
        }
      }
    var missing := db.CompareRecords(csv[..], table);
    match missing
    case Failure(e) =>
      err := Some(e);
    case Success(toAdd) =>
      if |toAdd| > 0 {
        err := db.AddRecords(toAdd, csv, table);
      } else {
        err := None;
      }
  }

  // ---------------------------------------------------------------- what the pipeline does

  /** The rows of `table` before the pipeline runs; none if it has to create the table. */
  function Stored(s: State, table: string): seq<Row> {
    if table in s.tables then s.tables[table] else []
  }

  /** The incoming keys not stored yet, in record order. */
  function Missing(s: State, records: seq<Record>, table: string): seq<Value> {
    CompareDbCsv(Texts(Eans(Stored(s, table))), CsvEans(records))
  }

  /** The requests sent before any record is added. */
  function Opening(s: State, table: string): seq<Op> {
    [Execute(TableQuery(table))]
    + (if table in s.tables then [] else [Execute(CreateTable(table)), Commit])
    + [Execute(SelectEans(table))]
  }

  /** No uncommitted change and no aborted transaction is open on the connection. */
  predicate Settled(s: State) {
    s.tables == s.committed && !s.aborted
  }

  /** The state after the table check, the optional creation and the comparison. */
  function Prepared(s: State, records: seq<Record>, table: string): State {
    CompareOn(EnsureTable(s, table).0, records, table).0
  }

  /**
   * Before any record is added the table exists, created and committed empty if it was
   * absent, and three or five requests have been sent.
   */
  lemma PreparedFacts(s: State, records: seq<Record>, table: string)
    requires !s.aborted
    ensures var p := Prepared(s, records, table);
            && !p.aborted && p.tables == s.tables[table := Stored(s, table)]
            && p.committed == (if table in s.tables then s.committed else s.tables[table := []])
            && p.trace == s.trace + Opening(s, table)
  {
    if table in s.tables {
      assert s.tables[table := Stored(s, table)] == s.tables;
    }
  }

  /**
   * The pipeline in steps: nothing more happens when no key is missing, and `add_records`
   * runs on the missing keys otherwise.
   */
  lemma ReconcileSteps(s: State, records: seq<Record>, table: string)
    requires !s.aborted
    ensures var p := Prepared(s, records, table);
            && !p.aborted && p.tables == s.tables[table := Stored(s, table)]
            && p.committed == (if table in s.tables then s.committed else s.tables[table := []])
            && p.trace == s.trace + Opening(s, table)
    ensures Reconcile(s, records, table)
         == if |Missing(s, records, table)| == 0 then Outcome(Prepared(s, records, table), records, None)
            else AddOn(Prepared(s, records, table), Missing(s, records, table), records, table)
  {
    PreparedFacts(s, records, table);
    var s2 := EnsureTable(s, table).0;
    assert s2.tables[table] == Stored(s, table);
  }

  /** Whatever `add_records` does, it only adds to the requests sent before it. */
  lemma ReconcileTrace(s: State, records: seq<Record>, table: string) returns (tail: seq<Op>)
    requires !s.aborted
    ensures Reconcile(s, records, table).state.trace == s.trace + Opening(s, table) + tail
  {
    ReconcileSteps(s, records, table);
    var p := Prepared(s, records, table);
    var m := Missing(s, records, table);
    tail := [];
    if |m| > 0 {
      var a := AddOn(p, m, records, table);
      if NormalizeAll(records).error.None? {
        var stmt := InsertFor(table, a.records, m);
        tail := if Run(p, stmt).Success? then [Execute(stmt), Commit] else [Execute(stmt)];
      }
    }
  }

  /** The first two requests of the opening: the check, then the creation exactly when needed. */
  lemma OpeningHead(s: State, table: string)
    ensures var opening := Opening(s, table);
            && |opening| >= 2 && opening[0] == Execute(TableQuery(table))
            && (opening[1] == Execute(CreateTable(table)) <==> table !in s.tables)
  {
  }

  /** Position `|before| + k` of `before + middle + after` is position `k` of `middle`. */
  lemma ConcatAt<T>(before: seq<T>, middle: seq<T>, after: seq<T>, k: nat)
    requires k < |middle|
    ensures |before| + k < |before + middle + after| && (before + middle + after)[|before| + k] == middle[k]
  {
  }

  /** The pipeline checks for the table first, and creates it exactly when it is absent. */
  lemma ReconcileCreatesOnlyWhenAbsent(s: State, records: seq<Record>, table: string)
    requires !s.aborted
    ensures var t := Reconcile(s, records, table).state.trace;
            && |s.trace| + 2 <= |t| && t[|s.trace|] == Execute(TableQuery(table))
            && (t[|s.trace| + 1] == Execute(CreateTable(table)) <==> table !in s.tables)
  {
    var tail := ReconcileTrace(s, records, table);
    OpeningHead(s, table);
    ConcatAt(s.trace, Opening(s, table), tail, 0);
    ConcatAt(s.trace, Opening(s, table), tail, 1);
  }

  /** A table the pipeline had to create survives it, committed, whatever else happens. */
  lemma ReconcileKeepsCreatedTable(s: State, records: seq<Record>, table: string)
    requires !s.aborted && table !in s.tables
    ensures table in Reconcile(s, records, table).state.committed
  {
    ReconcileSteps(s, records, table);
    var p := Prepared(s, records, table);
    var m := Missing(s, records, table);
    if |m| > 0 {
      var o := AddOn(p, m, records, table);
      var stmt := InsertFor(table, o.records, m);
      if NormalizeAll(records).error.None? && Run(p, stmt).Success? {
        assert o.state.committed == InsertRows(p.tables, table, stmt.columns, stmt.rows).value;
      }
    }
  }

  /** With nothing missing only the two queries run; the records are not even normalised. */
  lemma ReconcileNothingMissing(s: State, records: seq<Record>, table: string)
    requires !s.aborted && table in s.tables && |Missing(s, records, table)| == 0
    ensures var o := Reconcile(s, records, table);
            && o.error.None? && o.records == records
            && o.state.tables == s.tables && o.state.committed == s.committed
            && o.state.trace == s.trace + [Execute(TableQuery(table)), Execute(SelectEans(table))]
  {
    ReconcileSteps(s, records, table);
  }

  /** The first field of a record is its `ean`, as when `ean` heads the CSV's columns. */
  predicate EanFirst(r: Record) {
    |r| > 0 && r[0].0 == "ean"
  }

  /** The row `add_records` builds from a record carries the record's key in its first cell. */
  lemma SelectedRowKey(records: seq<Record>, toAdd: seq<Value>, i: nat, e: Value)
    returns (j: nat)
    requires i < |records| && EanFirst(records[i]) && IncomingEan(records[i]) == Some(e) && e in toAdd
    requires NormalizeAll(records).error.None?
    ensures var normalized := NormalizeAll(records).records;
            var rows := SelectRows(normalized, toAdd);
            && j == |SelectRows(normalized[..i], toAdd)| && Selected(normalized[i], toAdd)
            && j < |rows| && |rows[j]| > 0 && rows[j][0] == e
  {
    NormalizeAllSucceeds(records);
    var normalized := NormalizeAll(records).records;
    var n := normalized[i];
    assert n == NormalizeRecord(records[i]).record;
    assert Get(n, "ean") == Some(e);
    assert Keys(n)[0] == "ean" by {
      assert Keys(records[i])[0] == "ean";
    }
    GetFirst(n, "ean");
    assert Selected(n, toAdd);
    SelectAt(normalized, toAdd, i);
    j := |SelectRows(normalized[..i], toAdd)|;
  }

  /**
   * The incoming key `e` is held by `rows`: as it is, or as the first 32 characters that
   * `ean VARCHAR(32)` keeps of a longer key ending in spaces.
   */
  predicate KeyStored(e: Value, rows: seq<Row>) {
    e in Texts(Eans(rows)) || (StoredKey(e).Some? && StoredKey(e).value in Texts(Eans(rows)))
  }

  /** Every incoming key is text of at most 32 characters, which `ean VARCHAR(32)` keeps whole. */
  predicate KeysFit(records: seq<Record>) {
    forall e :: e in CsvEans(records) ==> e.Str? && |e.s| <= 32
  }

  /** A key that fits is held only as it is. */
  lemma FitKeyStored(e: Value, rows: seq<Row>)
    requires e.Str? && |e.s| <= 32 && KeyStored(e, rows)
    ensures e in Texts(Eans(rows))
  {
    StoredKeyCases(e.s);
  }

  /** A missing key is stored, by an accepted INSERT, in the row appended for its record. */
  lemma MissingKeyStored(tables: Tables, table: string, columns: seq<string>, records: seq<Record>, missing: seq<Value>, e: Value)
    requires table in tables && |columns| > 0 && columns[0] == "ean"
    requires forall i :: 0 <= i < |records| ==> EanFirst(records[i])
    requires NormalizeAll(records).error.None?
    requires e in CsvEans(records) && e in missing
    requires InsertRows(tables, table, columns, SelectRows(NormalizeAll(records).records, missing)).Success?
    ensures var after := InsertRows(tables, table, columns, SelectRows(NormalizeAll(records).records, missing)).value[table];
            StoredKey(e).Some? && StoredKey(e).value in Texts(Eans(after))
  {
    var rows := SelectRows(NormalizeAll(records).records, missing);
    var after := InsertRows(tables, table, columns, rows).value[table];
    CsvEansMembers(records, e);
    var i :| 0 <= i < |records| && IncomingEan(records[i]) == Some(e);
    var j := SelectedRowKey(records, missing, i, e);
    InsertStoresKey(tables, table, columns, rows, j);
    assert EanIndex(columns) == 0;
    assert Texts(Eans(after))[|tables[table]| + j] == StoredKey(e).value;
  }

  /**
   * An accepted INSERT of the selected rows leaves every incoming key stored: the ones
   * stored before, in their old rows, and the missing ones, in the rows appended.
   */
  lemma KeysAfterInsert(tables: Tables, table: string, columns: seq<string>, records: seq<Record>, missing: seq<Value>)
    requires table in tables && |columns| > 0 && columns[0] == "ean"
    requires forall i :: 0 <= i < |records| ==> EanFirst(records[i])
    requires NormalizeAll(records).error.None?
    requires forall e :: e in CsvEans(records) ==> e in Texts(Eans(tables[table])) || e in missing
    requires InsertRows(tables, table, columns, SelectRows(NormalizeAll(records).records, missing)).Success?
    ensures var after := InsertRows(tables, table, columns, SelectRows(NormalizeAll(records).records, missing)).value[table];
            && |tables[table]| <= |after| && after[..|tables[table]|] == tables[table]
            && forall e :: e in CsvEans(records) ==> KeyStored(e, after)
  {
    var before := tables[table];
    var rows := SelectRows(NormalizeAll(records).records, missing);
    InsertAppends(tables, table, columns, rows);
    var after := InsertRows(tables, table, columns, rows).value[table];
    forall e | e in CsvEans(records)
      ensures KeyStored(e, after)
    {
      if e in Texts(Eans(before)) {
        var k :| 0 <= k < |before| && Texts(Eans(before))[k] == e;
        assert after[k] == before[k];
        assert Texts(Eans(after))[k] == e;
      } else {
        MissingKeyStored(tables, table, columns, records, missing, e);
      }
    }
  }

  /** An `add_records` call that raises nothing stores, and commits, every incoming key. */
  lemma AddOnStoresEveryKey(p: State, missing: seq<Value>, records: seq<Record>, table: string)
    requires table in p.tables
    requires forall i :: 0 <= i < |records| ==> EanFirst(records[i])
    requires forall e :: e in CsvEans(records) ==> e in Texts(Eans(p.tables[table])) || e in missing
    requires AddOn(p, missing, records, table).error.None?
    ensures var after := AddOn(p, missing, records, table).state.committed;
            && table in after
            && |p.tables[table]| <= |after[table]| && after[table][..|p.tables[table]|] == p.tables[table]
            && forall e :: e in CsvEans(records) ==> KeyStored(e, after[table])
  {
    assert NormalizeAll(records).error.None?;
    AddOnSends(p, missing, records, table);
    InsertCommitted(p, table, Columns, SelectRows(NormalizeAll(records).records, missing));
    KeysAfterInsert(p.tables, table, Columns, records, missing);
  }

  /**
   * After a successful run every incoming key is stored, whole when it fits `VARCHAR(32)`,
   * the rows that were stored before still come first, and all of it is committed.
   */
  lemma ReconcileStoresEveryKey(s: State, records: seq<Record>, table: string)
    requires Settled(s)
    requires forall i :: 0 <= i < |records| ==> EanFirst(records[i])
    requires Reconcile(s, records, table).error.None?
    ensures var after := Reconcile(s, records, table).state.committed;
            && table in after
            && |Stored(s, table)| <= |after[table]| && after[table][..|Stored(s, table)|] == Stored(s, table)
            && (forall e :: e in CsvEans(records) ==> KeyStored(e, after[table]))
            && (KeysFit(records) ==> forall e :: e in CsvEans(records) ==> e in Texts(Eans(after[table])))
  {
    ReconcileSteps(s, records, table);
    var p := Prepared(s, records, table);
    var before := Stored(s, table);
    var missing := Missing(s, records, table);
    var after := Reconcile(s, records, table).state.committed;
    assert p.tables[table] == before;
    if |missing| == 0 {
      forall e | e in CsvEans(records)
        ensures e in Texts(Eans(before))
      {
        assert e !in missing;
      }
    } else {
      AddOnStoresEveryKey(p, missing, records, table);
    }
    if KeysFit(records) {
      forall e | e in CsvEans(records)
        ensures e in Texts(Eans(after[table]))
      {
        FitKeyStored(e, after[table]);
      }
    }
  }

  /** Running the pipeline again on the same records finds nothing to add and changes nothing. */
  lemma ReconcileRerun(s: State, records: seq<Record>, table: string)
    requires Settled(s)
    requires forall i :: 0 <= i < |records| ==> EanFirst(records[i])
    requires KeysFit(records)
    requires Reconcile(s, records, table).error.None?
    ensures var first := Reconcile(s, records, table).state;
            var again := Reconcile(first, records, table);
            && again.error.None? && again.records == records
            && again.state.tables == first.tables && again.state.committed == first.committed
            && again.state.trace == first.trace + [Execute(TableQuery(table)), Execute(SelectEans(table))]
  {
    var first := Reconcile(s, records, table).state;
    ReconcileStoresEveryKey(s, records, table);
    ReconcileSettles(s, records, table);
    assert Stored(first, table) == first.committed[table];
    NoneMissing(Texts(Eans(Stored(first, table))), CsvEans(records));
    ReconcileNothingMissing(first, records, table);
  }

  /**
   * The connection is settled, the records normalise, and its table holds the key `e`
   * only as the cut that `ean VARCHAR(32)` keeps of it.
   */
  predicate HeldCut(first: State, records: seq<Record>, table: string, e: Value) {
    && Settled(first) && table in first.committed && NormalizeAll(records).error.None?
    && e !in Texts(Eans(first.committed[table]))
    && StoredKey(e).Some? && StoredKey(e).value in Texts(Eans(first.committed[table]))
  }

  /**
   * On a settled connection whose table holds the key `e` only as its cut, as the first
   * run leaves it, a run over records carrying `e` finds the whole key missing again, and
   * its INSERT repeats the stored cut key, so that run raises.
   */
  lemma ReconcileRerunCutKey(first: State, records: seq<Record>, table: string, e: Value)
    requires forall i :: 0 <= i < |records| ==> EanFirst(records[i])
    requires e in CsvEans(records) && HeldCut(first, records, table, e)
    ensures Reconcile(first, records, table).error.Some?
  {
    PreparedCut(first, records, table, e);
    AddOnRefused(Prepared(first, records, table), Missing(first, records, table), records, table, e);
    ReconcileAdds(first, records, table);
  }

  /** Before the INSERT of the re-run, the key is missing and its cut still stored. */
  lemma PreparedCut(first: State, records: seq<Record>, table: string, e: Value)
    requires e in CsvEans(records) && HeldCut(first, records, table, e)
    ensures var p := Prepared(first, records, table);
            && !p.aborted && table in p.tables && e in Missing(first, records, table)
            && StoredKey(e).value in Texts(Eans(p.tables[table]))
  {
    PreparedFacts(first, records, table);
  }

  /** With a key missing, the pipeline ends in `add_records` on the missing keys. */
  lemma ReconcileAdds(s: State, records: seq<Record>, table: string)
    requires !s.aborted && |Missing(s, records, table)| > 0
    ensures Reconcile(s, records, table) == AddOn(Prepared(s, records, table), Missing(s, records, table), records, table)
  {
    ReconcileSteps(s, records, table);
  }

  /** `add_records` raises when a key to add is already stored as its cut. */
  lemma AddOnRefused(p: State, m: seq<Value>, records: seq<Record>, table: string, e: Value)
    requires !p.aborted && table in p.tables
    requires forall i :: 0 <= i < |records| ==> EanFirst(records[i])
    requires NormalizeAll(records).error.None?
    requires e in CsvEans(records) && e in m
    requires StoredKey(e).Some? && StoredKey(e).value in Texts(Eans(p.tables[table]))
    ensures AddOn(p, m, records, table).error.Some?
  {
    SelectedInsertRefused(p.tables, table, records, m, e);
    AddOnRaises(p, m, records, table);
  }

  /** `add_records` raises when PostgreSQL refuses its INSERT. */
  lemma AddOnRaises(p: State, m: seq<Value>, records: seq<Record>, table: string)
    requires !p.aborted && NormalizeAll(records).error.None?
    requires InsertRows(p.tables, table, Columns, SelectRows(NormalizeAll(records).records, m)).Failure?
    ensures AddOn(p, m, records, table).error.Some?
  {
    RunRefused(p, InsertFor(table, NormalizeAll(records).records, m));
    AddOnSends(p, m, records, table);
  }

  /** The INSERT of the selected records is refused when one of their keys is stored as its cut. */
  lemma SelectedInsertRefused(tables: Tables, table: string, records: seq<Record>, m: seq<Value>, e: Value)
    requires table in tables
    requires forall i :: 0 <= i < |records| ==> EanFirst(records[i])
    requires NormalizeAll(records).error.None?
    requires e in CsvEans(records) && e in m
    requires StoredKey(e).Some? && StoredKey(e).value in Texts(Eans(tables[table]))
    ensures InsertRows(tables, table, Columns, SelectRows(NormalizeAll(records).records, m)).Failure?
  {
    CsvEansMembers(records, e);
    var i :| 0 <= i < |records| && IncomingEan(records[i]) == Some(e);
    var j := SelectedRowKey(records, m, i, e);
    InsertRefusesStored(tables, table, Columns, SelectRows(NormalizeAll(records).records, m), j);
  }

  /** A statement PostgreSQL refuses is refused on a connection with no aborted transaction. */
  lemma RunRefused(p: State, stmt: Statement)
    requires !p.aborted && stmt.Insert? && InsertRows(p.tables, stmt.table, stmt.columns, stmt.rows).Failure?
    ensures Run(p, stmt).Failure?
  {
  }

  /** An INSERT whose tuple `j` has a key already stored, once cut to fit, is refused. */
  lemma InsertRefusesStored(tables: Tables, table: string, columns: seq<string>, rows: seq<Cells>, j: nat)
    requires table in tables && |columns| > 0 && columns[0] == "ean"
    requires j < |rows| && |rows[j]| > 0
    requires StoredKey(rows[j][0]).Some? && StoredKey(rows[j][0]).value in Texts(Eans(tables[table]))
    ensures InsertRows(tables, table, columns, rows).Failure?
  {
    if InsertRows(tables, table, columns, rows).Success? {
      assert EanIndex(columns) == 0;
      InsertKeysFresh(tables, table, columns, rows);
    }
  }

  /** After the first run such a key is held, committed, only as its cut. */
  lemma CutKeyStored(s: State, records: seq<Record>, table: string, e: Value)
    requires Settled(s)
    requires forall i :: 0 <= i < |records| ==> EanFirst(records[i])
    requires Reconcile(s, records, table).error.None?
    requires e in CsvEans(records) && e !in Texts(Eans(Stored(s, table))) && e.Str? && |e.s| > 32
    ensures var after := Reconcile(s, records, table).state.committed;
            && table in after && e !in Texts(Eans(after[table]))
            && StoredKey(e).Some? && StoredKey(e).value in Texts(Eans(after[table]))
  {
    var after := Reconcile(s, records, table).state.committed;
    var before := Stored(s, table);
    assert table in after && |before| <= |after[table]| && after[table][..|before|] == before
           && KeyStored(e, after[table]) by {
      ReconcileStoresEveryKey(s, records, table);
    }
    assert forall k :: |before| <= k < |after[table]| ==> |after[table][k].ean| <= 32 by {
      ReconcileKeysFit(s, records, table);
    }
    OnlyCutKey(before, after[table], e);
  }

  /**
   * Rows that extend `before` with keys of at most 32 characters hold a longer key `e`,
   * absent from `before`, at most as its cut.
   */
  lemma OnlyCutKey(before: seq<Row>, after: seq<Row>, e: Value)
    requires |before| <= |after| && after[..|before|] == before
    requires forall k :: |before| <= k < |after| ==> |after[k].ean| <= 32
    requires e !in Texts(Eans(before)) && e.Str? && |e.s| > 32 && KeyStored(e, after)
    ensures e !in Texts(Eans(after)) && StoredKey(e).Some? && StoredKey(e).value in Texts(Eans(after))
  {
    forall k | 0 <= k < |after|
      ensures Texts(Eans(after))[k] != e
    {
      if k < |before| {
        assert after[k] == before[k];
        assert Texts(Eans(before))[k] == Texts(Eans(after))[k];
      }
    }
  }

  /** A run that raises nothing with a key missing has normalised every record. */
  lemma MissingNormalized(s: State, records: seq<Record>, table: string, e: Value)
    requires Settled(s) && Reconcile(s, records, table).error.None?
    requires e in CsvEans(records) && e !in Texts(Eans(Stored(s, table)))
    ensures NormalizeAll(records).error.None?
  {
    ReconcileSteps(s, records, table);
    assert e in Missing(s, records, table);
  }

  /** The keys a run that raises nothing appends have at most 32 characters. */
  lemma ReconcileKeysFit(s: State, records: seq<Record>, table: string)
    requires Settled(s) && Reconcile(s, records, table).error.None?
    ensures var after := Reconcile(s, records, table).state.committed;
            && table in after && |Stored(s, table)| <= |after[table]|
            && forall k :: |Stored(s, table)| <= k < |after[table]| ==> |after[table][k].ean| <= 32
  {
    ReconcileSteps(s, records, table);
    var p := Prepared(s, records, table);
    var m := Missing(s, records, table);
    if |m| > 0 {
      assert NormalizeAll(records).error.None?;
      var rows := SelectRows(NormalizeAll(records).records, m);
      AddOnSends(p, m, records, table);
      InsertCommitted(p, table, Columns, rows);
      assert p.tables[table] == Stored(s, table);
      InsertKeysFit(p.tables, table, Columns, rows);
      InsertAppends(p.tables, table, Columns, rows);
    }
  }

  /** A run that raises nothing leaves no uncommitted change. */
  lemma ReconcileSettles(s: State, records: seq<Record>, table: string)
    requires Settled(s) && Reconcile(s, records, table).error.None?
    ensures Settled(Reconcile(s, records, table).state)
  {
    ReconcileSteps(s, records, table);
    var p := Prepared(s, records, table);
    var m := Missing(s, records, table);
    if |m| == 0 {
      assert p.tables == p.committed by {
        if table in s.tables {
          assert s.tables[table := s.tables[table]] == s.tables;
        }
      }
    } else {
      assert NormalizeAll(records).error.None?;
      AddOnSends(p, m, records, table);
    }
  }

  /** What is committed when the run raises: the table as it was, or the new empty table. */
  function CommittedOnError(s: State, table: string): Tables {
    if table in s.tables then s.committed else s.tables[table := []]
  }

  /**
   * A run that raises commits no record: the committed tables are those from before, plus
   * the empty table if the run had to create it.
   */
  lemma ReconcileFailureAddsNothing(s: State, records: seq<Record>, table: string)
    requires !s.aborted && Reconcile(s, records, table).error.Some?
    ensures Reconcile(s, records, table).state.committed == CommittedOnError(s, table)
  {
    ReconcileSteps(s, records, table);
  }

  /**
   * Two records carrying the same key that is not stored yet make the run raise: the
   * INSERT would give the key twice, or the normalisation fails first.
   */
  lemma ReconcileDuplicateKey(s: State, records: seq<Record>, table: string, i: nat, k: nat, e: Value)
    requires !s.aborted
    requires i < k < |records| && EanFirst(records[i]) && EanFirst(records[k])
    requires IncomingEan(records[i]) == Some(e) && IncomingEan(records[k]) == Some(e)
    requires e !in Texts(Eans(Stored(s, table)))
    ensures Reconcile(s, records, table).error.Some?
    ensures Reconcile(s, records, table).state.committed == CommittedOnError(s, table)
  {
    ReconcileSteps(s, records, table);
    var missing := Missing(s, records, table);
    CsvEansMembers(records, e);
    assert e in missing;
    if NormalizeAll(records).error.None? {
      var normalized := NormalizeAll(records).records;
      var rows := SelectRows(normalized, missing);
      var p := Prepared(s, records, table);
      var a, b := TwoSelected(records, missing, i, k, e);
      InsertKeysFresh(p.tables, table, Columns, rows);
      assert EanIndex(Columns) == 0;
    }
    ReconcileFailureAddsNothing(s, records, table);
  }

  /** Two selected records give two distinct rows, both starting with their key. */
  lemma TwoSelected(records: seq<Record>, toAdd: seq<Value>, i: nat, k: nat, e: Value)
    returns (a: nat, b: nat)
    requires i < k < |records| && EanFirst(records[i]) && EanFirst(records[k])
    requires IncomingEan(records[i]) == Some(e) && IncomingEan(records[k]) == Some(e) && e in toAdd
    requires NormalizeAll(records).error.None?
    ensures var rows := SelectRows(NormalizeAll(records).records, toAdd);
            && a < b < |rows| && |rows[a]| > 0 && |rows[b]| > 0 && rows[a][0] == e && rows[b][0] == e
  {
    a := SelectedRowKey(records, toAdd, i, e);
    b := SelectedRowKey(records, toAdd, k, e);
    SelectGrows(NormalizeAll(records).records, toAdd, i, k);
  }
}
