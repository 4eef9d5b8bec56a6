/**
 * `Database`: the high-level interface the pipeline uses. Its fields are the state of the
 * one connection it opens; each method does what the function of the same name in
 * `Connection` says to that state.
 */
module Databases {
  import opened Wrappers
  import opened Errors
  import opened Schema
  import opened Records
  import opened Store
  import opened Connection

  class Database {
    /** The tables the connection sees, its open transaction included. */
    var tables: Tables
    /** The tables as last committed; what survives the connection. */
    var committed: Tables
    /** The unread rows of the cursor's last result set, if it has one. */
    var pending: Option<seq<Cells>>
    /** Whether a refused statement has aborted the open transaction. */
    var aborted: bool
    /** Every request sent over the connection, in order. */
    var trace: seq<Op>

    function Snapshot(): State
      reads this
    {
      State(tables, committed, pending, aborted, trace)
    }

    ghost predicate Valid()
      reads this
    {
      Sound(Snapshot())
    }

    /** Connects to a server holding `server`. */
    constructor(server: Tables)
      requires Consistent(server)
      ensures Snapshot() == Connect(server) && Valid()
    {
      tables, committed, pending, aborted, trace := server, server, None, false, [];
    }

    /** `execute_query(stmt)`. */
    method ExecuteQuery(stmt: Statement) returns (err: Option<Error>)
      requires Valid()
      modifies this
      ensures (Snapshot(), err) == Send(old(Snapshot()), stmt) && Valid()
    {
      SendSound(Snapshot(), stmt);
      trace := trace + [Execute(stmt)];
      if aborted {
        pending, err := None, Some(InFailedTransaction);
        return;
      }
      match Apply(tables, stmt)
      case Success(a) =>
        tables, pending, err := a.tables, a.result, None;
      case Failure(e) =>
        pending, aborted, err := None, true, Some(e);
    }

    /** `fetch(how_many)`: 0 is `fetchall()`, 1 is `[fetchone()]`, more is `fetchmany`. */
    method Fetch(howMany: nat) returns (r: Result<seq<Option<Cells>>, Error>)
      requires Valid()
      modifies this
      ensures (Snapshot(), r) == FetchOn(old(Snapshot()), howMany) && Valid()
    {
      match pending
      case None =>
        r := Failure(NoResults);
      case Some(rows) =>
        var (fetched, rest) := FetchResult(rows, howMany);
        pending, r := Some(rest), Success(fetched);
    }

    /** `commit()`, which rolls back instead when the transaction was aborted. */
    method Commit()
      requires Valid()
      modifies this
      ensures Snapshot() == CommitOn(old(Snapshot())) && Valid()
    {
      if aborted {
        tables, aborted := committed, false;
      } else {
        committed := tables;
      }
      trace := trace + [Op.Commit];
    }

    /** `execute_query(stmt)`, then `commit()` unless the statement raised. */
    method ExecuteCommit(stmt: Statement) returns (err: Option<Error>)
      requires Valid()
      modifies this
      ensures (Snapshot(), err) == SendCommit(old(Snapshot()), stmt) && Valid()
    {
      err := ExecuteQuery(stmt);
      if err.None? {
        Commit();
      }
    }

    /** `table_exists(table)`. */
    method TableExists(table: string) returns (r: Result<bool, Error>)
      requires Valid()
      modifies this
      ensures (Snapshot(), r) == TableExistsOn(old(Snapshot()), table) && Valid()
      ensures !old(aborted) ==> r == Success(table in old(tables))
    {
      var err := ExecuteQuery(TableQuery(table));
      if err.Some? {
        return Failure(err.value);
      }
      var fetched := Fetch(0);
      match fetched
      case Success(rows) =>
        r := Success(|rows| > 0);
      case Failure(e) =>
        r := Failure(e);
    }

    /** `create_table(table)` with the default schema. */
    method CreateTable(table: string) returns (err: Option<Error>)
      requires Valid()
      modifies this
      ensures (Snapshot(), err) == CreateTableOn(old(Snapshot()), table) && Valid()
    {
      err := ExecuteCommit(Statement.CreateTable(table));
    }

    /** `drop_table(table)`, `answer` being the reply typed at the confirmation prompt. */
    method DropTable(table: string, answer: string) returns (err: Option<Error>)
      requires Valid()
      modifies this
      ensures (Snapshot(), err) == DropTableOn(old(Snapshot()), table, answer) && Valid()
    {
      if !Confirmed(answer) {
        return None;
      }
      err := ExecuteCommit(Statement.DropTable(table));
    }

    /** `_get_db_eans_records(table)`. */
    method GetDbEans(table: string) returns (r: Result<seq<string>, Error>)
      requires Valid()
      modifies this
      ensures (Snapshot(), r) == DbEansOn(old(Snapshot()), table) && Valid()
    {
      ghost var before := Snapshot();
      var err := ExecuteQuery(SelectEans(table));
      if err.Some? {
        return Failure(err.value);
      }
      var fetched := Fetch(0);
      match fetched
      case Failure(e) =>
        r := Failure(e);
      case Success(f) =>
        CarriedSomes(EanCells(before.tables[table]));
        UnpackStored(before.tables[table]);
        r := Success(UnpackDbEans(Carried(f)));
    }

    /** `compare_records(records, table)`. */
    method CompareRecords(records: seq<Record>, table: string) returns (r: Result<seq<Value>, Error>)
      requires Valid()
      modifies this
      ensures (Snapshot(), r) == CompareOn(old(Snapshot()), records, table) && Valid()
    {
      var csvEans := CsvEans(records);
      var db := GetDbEans(table);
      match db
      case Failure(e) =>
        r := Failure(e);
      case Success(eans) =>
        r := Success(CompareDbCsv(Texts(eans), csvEans));
    }

    /**
     * `add_records(to_add, csv, table)`: the records of `csv` are normalised in place, as the
     * dictionaries of the caller's list are, and stay so if the INSERT then fails.
     */
    method AddRecords(toAdd: seq<Value>, csv: array<Record>, table: string) returns (err: Option<Error>)
      requires Valid()
      modifies this, csv
      ensures var added := AddOn(old(Snapshot()), toAdd, old(csv[..]), table);
              Snapshot() == added.state && csv[..] == added.records && err == added.error
      ensures Valid()
    {
      ghost var before := Snapshot();
      ghost var original := csv[..];
      err := NormalizePrices(csv);
      if err.Some? {
        AddOnStops(before, toAdd, original, table);
        return;
      }
      err := InsertSelected(toAdd, csv[..], table);
      AddOnSends(before, toAdd, original, table);
    }

    /**
     * The end of `add_records`: the tuples of the records whose key is to be added, one
     * INSERT of them under the schema's columns, then the commit.
     */
    method InsertSelected(toAdd: seq<Value>, normalized: seq<Record>, table: string) returns (err: Option<Error>)
      requires Valid()
      modifies this
      ensures (Snapshot(), err) == SendCommit(old(Snapshot()), InsertFor(table, normalized, toAdd)) && Valid()
    {
      var rows := SelectRows(normalized, toAdd);
      var columns := DefaultColumns();
      err := ExecuteCommit(Insert(table, columns, rows));
    }
  }

  /**
   * The loop at the head of `add_records`: `price`, then `old_price`, of each record in
   * turn, through `conv_float`; the first error stops it, leaving that record half done.
   */
  method NormalizePrices(csv: array<Record>) returns (err: Option<Error>)
    modifies csv
    ensures csv[..] == NormalizeAll(old(csv[..])).records && err == NormalizeAll(old(csv[..])).error
  {
    err := UpdateEach(NormalizeRecord, csv);
  }

  /**
   * `for record in csv_records: <step>`: each record in turn is replaced, in place, by what
   * `step` makes of it; an error raised by a step ends the loop there.
   */
  method UpdateEach(step: Record -> Normalized, csv: array<Record>) returns (err: Option<Error>)
    modifies csv
    ensures csv[..] == Steps(step, old(csv[..])).records && err == Steps(step, old(csv[..])).error
  {
    ghost var original := csv[..];
    var i := 0;
    while i < csv.Length
      invariant 0 <= i <= csv.Length
      invariant Steps(step, original[..i]) == Batch(csv[..i], None)
      invariant csv[i..] == original[i..]
    {
      var n := step(csv[i]);
      assert original[..i + 1] == original[..i] + [original[i]];
      if n.error.Some? {
        ghost var done := csv[..i];
        csv[i] := n.record;
        assert csv[..i] == done && csv[i + 1..] == original[i + 1..];
        StoppedAt(step, original, csv[..], i);
        return n.error;
      }
      StepsSnoc(step, original[..i], original[i]);
      csv[i] := n.record;
      assert csv[..i + 1] == csv[..i] + [n.record];
      i := i + 1;
    }
    assert original[..i] == original && csv[..i] == csv[..];
    return None;
  }

  /** The loop state when the step at `i` failed: the records after `i` are untouched. */
  lemma StoppedAt(step: Record -> Normalized, original: seq<Record>, current: seq<Record>, i: nat)
    requires i < |original| == |current|
    requires Steps(step, original[..i]) == Batch(current[..i], None)
    requires step(original[i]).error.Some? && current[i] == step(original[i]).record
    requires current[i + 1..] == original[i + 1..]
    ensures Steps(step, original) == Batch(current, step(original[i]).error)
  {
    StepsStop(step, original[..i], original[i], original[i + 1..]);
    assert original[..i] + [original[i]] + original[i + 1..] == original;
    assert current[..i] + [current[i]] + current[i + 1..] == current;
  }
}
