/**
 * One connection to the database, as a value: what the cursor and the connection of
 * `Database` do for each call, and what each higher-level method of `Database` does as a
 * whole. The class in `Databases` is specified by these functions.
 */
module Connection {
  import opened Wrappers
  import opened Errors
  import opened Text
  import opened Schema
  import opened Records
  import opened Store

  /**
   * The tables this connection sees (its open transaction included), the tables last
   * committed, the result set of the last statement that is still unread (`None` when the
   * last statement returned none), whether a refused statement has aborted the open
   * transaction, and every request sent, in order.
   */
  datatype State = State(tables: Tables, committed: Tables, pending: Option<seq<Cells>>, aborted: bool, trace: seq<Op>)

  /** A fresh connection to a server holding `server`. */
  function Connect(server: Tables): (s: State)
    ensures s.tables == server && s.committed == server && !s.aborted && s.trace == []
  {
    State(server, server, None, false, [])
  }

  /**
   * What PostgreSQL does with `stmt` on this connection: in an aborted transaction it
   * refuses every statement until the transaction ends.
   */
  function Run(s: State, stmt: Statement): Result<Applied, Error> {
    if s.aborted then Failure(InFailedTransaction) else Apply(s.tables, stmt)
  }

  /**
   * `cursor.execute(stmt)`: a refused statement changes no table, leaves no result set and
   * aborts the open transaction.
   */
  function Send(s: State, stmt: Statement): (State, Option<Error>) {
    match Run(s, stmt)
    case Success(a) => (s.(tables := a.tables, pending := a.result, trace := s.trace + [Execute(stmt)]), None)
    case Failure(e) => (s.(pending := None, aborted := true, trace := s.trace + [Execute(stmt)]), Some(e))
  }

  /**
   * `connection.commit()`: the open transaction becomes the committed state; an aborted
   * one is rolled back instead, to the committed state.
   */
  function CommitOn(s: State): State {
    if s.aborted then s.(tables := s.committed, aborted := false, trace := s.trace + [Commit])
    else s.(committed := s.tables, trace := s.trace + [Commit])
  }

  /** `fetch(how_many)`: without a result set psycopg2 raises "no results to fetch". */
  function FetchOn(s: State, howMany: nat): (State, Result<seq<Option<Cells>>, Error>) {
    match s.pending
    case None => (s, Failure(NoResults))
    case Some(rows) =>
      var (fetched, rest) := FetchResult(rows, howMany);
      (s.(pending := Some(rest)), Success(fetched))
  }

  /** Both the open transaction and the committed tables keep their keys unique. */
  predicate Sound(s: State) {
    Consistent(s.tables) && Consistent(s.committed)
  }

  /** No request of the connection can break uniqueness of keys. */
  lemma SendSound(s: State, stmt: Statement)
    requires Sound(s)
    ensures Sound(Send(s, stmt).0) && Sound(CommitOn(s)) && Sound(FetchOn(s, 0).0)
  {
    if Run(s, stmt).Success? {
      ApplyConsistent(s.tables, stmt);
    }
  }

  /** What a request does, in terms of what PostgreSQL does with the statement. */
  lemma SendFacts(s: State, stmt: Statement)
    ensures Send(s, stmt).0.committed == s.committed && Send(s, stmt).0.trace == s.trace + [Execute(stmt)]
    ensures Send(s, stmt).1.None? <==> !s.aborted && Apply(s.tables, stmt).Success?
    ensures s.aborted ==> Send(s, stmt).1 == Some(InFailedTransaction)
    ensures Send(s, stmt).0.aborted <==> Send(s, stmt).1.Some?
    ensures Send(s, stmt).1.None? ==> Send(s, stmt).0.tables == Apply(s.tables, stmt).value.tables
    ensures !s.aborted && Apply(s.tables, stmt).Failure? ==>
              Send(s, stmt).0.tables == s.tables && Send(s, stmt).1 == Some(Apply(s.tables, stmt).error)
  {
  }

  /**
   * After a refused statement every further statement is refused, and `commit()` brings
   * the connection back to the committed state, with nothing of the transaction kept.
   */
  lemma RefusedRollsBack(s: State, stmt: Statement, next: Statement)
    requires Send(s, stmt).1.Some?
    ensures Send(Send(s, stmt).0, next).1 == Some(InFailedTransaction)
    ensures var back := CommitOn(Send(s, stmt).0);
            back.tables == s.committed && back.committed == s.committed && !back.aborted
  {
  }

  /**
   * `execute_query(stmt)` then `commit()`, the pattern of every method that changes the
   * database; an error raised by the statement skips the commit.
   */
  function SendCommit(s: State, stmt: Statement): (r: (State, Option<Error>))
    ensures r.1.None? <==> Run(s, stmt).Success?
    ensures Run(s, stmt).Success? ==>
              && r.0.tables == Run(s, stmt).value.tables && r.0.committed == r.0.tables && !r.0.aborted
              && r.0.trace == s.trace + [Execute(stmt), Commit]
    ensures Run(s, stmt).Failure? ==>
              && r.0.tables == s.tables && r.0.committed == s.committed && r.0.aborted
              && r.1 == Some(Run(s, stmt).error) && r.0.trace == s.trace + [Execute(stmt)]
  {
    var (s1, err) := Send(s, stmt);
    if err.Some? then (s1, err) else (CommitOn(s1), None)
  }

  /** Fetching reads the result set and nothing else. */
  lemma FetchKeepsTables(s: State, howMany: nat)
    ensures FetchOn(s, howMany).0.tables == s.tables
    ensures FetchOn(s, howMany).0.committed == s.committed
    ensures FetchOn(s, howMany).0.aborted == s.aborted
    ensures FetchOn(s, howMany).0.trace == s.trace
    ensures FetchOn(s, howMany).1.Success? <==> s.pending.Some?
  {
  }

  // ---------------------------------------------------------------- Database methods

  /** `table_exists`: the metadata query, then `bool(fetch())`. */
  function TableExistsOn(s: State, table: string): (r: (State, Result<bool, Error>))
    ensures s.aborted ==> r.1 == Failure(InFailedTransaction)
    ensures !s.aborted ==> r.1 == Success(table in s.tables)
    ensures r.0.tables == s.tables && r.0.committed == s.committed && r.0.aborted == s.aborted
    ensures r.0.trace == s.trace + [Execute(TableQuery(table))]
  {
    var (s1, err) := Send(s, TableQuery(table));
    if err.Some? then (s1, Failure(err.value))
    else
      TableQueryRows(s.tables, table);
      var (s2, fetched) := FetchOn(s1, 0);
      match fetched
      case Success(rows) => (s2, Success(|rows| > 0))
      case Failure(e) => (s2, Failure(e))
  }

  /** `create_table` with the default schema: CREATE TABLE, then commit. */
  function CreateTableOn(s: State, table: string): (r: (State, Option<Error>))
    ensures s.aborted ==> r.1 == Some(InFailedTransaction) && r.0.tables == s.tables && r.0.committed == s.committed
    ensures !s.aborted && table in s.tables ==>
              r.1 == Some(DuplicateTable(table)) && r.0.tables == s.tables && r.0.committed == s.committed
              && r.0.aborted && r.0.trace == s.trace + [Execute(CreateTable(table))]
    ensures !s.aborted && table !in s.tables ==>
              r.1.None? && r.0.tables == s.tables[table := []] && r.0.committed == r.0.tables && !r.0.aborted
              && r.0.trace == s.trace + [Execute(CreateTable(table)), Commit]
  {
    SendCommit(s, CreateTable(table))
  }

  /** The reply to "Are you sure? y/yes" that lets `drop_table` go on. */
  predicate Confirmed(answer: string) {
    Lower(Strip(answer)) in ["y", "yes"]
  }

  /** `drop_table`: nothing is sent without confirmation; otherwise DROP TABLE, then commit. */
  function DropTableOn(s: State, table: string, answer: string): (r: (State, Option<Error>))
    ensures !Confirmed(answer) ==> r == (s, None)
    ensures Confirmed(answer) && s.aborted ==>
              r.1 == Some(InFailedTransaction) && r.0.tables == s.tables && r.0.committed == s.committed
    ensures Confirmed(answer) && !s.aborted && table !in s.tables ==>
              r.1 == Some(UndefinedTable(table)) && r.0.tables == s.tables && r.0.committed == s.committed
    ensures Confirmed(answer) && !s.aborted && table in s.tables ==>
              r.1.None? && r.0.tables == s.tables - {table} && r.0.committed == r.0.tables
              && r.0.trace == s.trace + [Execute(DropTable(table)), Commit]
  {
    if !Confirmed(answer) then (s, None)
    else
      SendCommit(s, DropTable(table))
  }

  /** `_get_db_eans_records`: SELECT ean, fetch all, unpack. */
  function DbEansOn(s: State, table: string): (r: (State, Result<seq<string>, Error>))
    ensures s.aborted ==> r.1 == Failure(InFailedTransaction)
    ensures !s.aborted && table in s.tables ==> r.1 == Success(Eans(s.tables[table]))
    ensures !s.aborted && table !in s.tables ==> r.1 == Failure(UndefinedTable(table))
    ensures r.0.tables == s.tables && r.0.committed == s.committed && (r.0.aborted <==> r.1.Failure?)
    ensures r.0.trace == s.trace + [Execute(SelectEans(table))]
  {
    var (s1, err) := Send(s, SelectEans(table));
    if err.Some? then (s1, Failure(err.value))
    else
      var (s2, fetched) := FetchOn(s1, 0);
      match fetched
      case Failure(e) => (s2, Failure(e))
      case Success(f) =>
        CarriedSomes(EanCells(s.tables[table]));
        UnpackStored(s.tables[table]);
        (s2, Success(UnpackDbEans(Carried(f))))
  }

  /** `compare_records`: the incoming keys that are not stored yet, in record order. */
  function CompareOn(s: State, records: seq<Record>, table: string): (r: (State, Result<seq<Value>, Error>))
    ensures !s.aborted && table in s.tables <==> r.1.Success?
    ensures s.aborted ==> r.1 == Failure(InFailedTransaction)
    ensures !s.aborted && table !in s.tables ==> r.1 == Failure(UndefinedTable(table))
    ensures r.1.Success? ==> r.1.value == CompareDbCsv(Texts(Eans(s.tables[table])), CsvEans(records))
    ensures r.1.Success? ==> forall e :: e in r.1.value <==> e in CsvEans(records) && e !in Texts(Eans(s.tables[table]))
    ensures r.0.tables == s.tables && r.0.committed == s.committed && (r.0.aborted <==> r.1.Failure?)
    ensures r.0.trace == s.trace + [Execute(SelectEans(table))]
  {
    var csvEans := CsvEans(records);
    var (s1, db) := DbEansOn(s, table);
    match db
    case Failure(e) => (s1, Failure(e))
    case Success(eans) => (s1, Success(CompareDbCsv(Texts(eans), csvEans)))
  }

  /** The INSERT that `add_records` sends for normalised records. */
  function InsertFor(table: string, normalized: seq<Record>, toAdd: seq<Value>): Statement {
    Insert(table, Columns, SelectRows(normalized, toAdd))
  }

  /** What a step of the pipeline leaves: the connection, the records as left in the caller's list, the error raised, if any. */
  datatype Outcome = Outcome(state: State, records: seq<Record>, error: Option<Error>)

  /**
   * `add_records`: normalise the prices of every record in place, select the rows whose
   * key is to be added, INSERT them under the columns read off the schema, commit.
   */
  function AddOn(s: State, toAdd: seq<Value>, records: seq<Record>, table: string): (r: Outcome)
    ensures r.records == NormalizeAll(records).records
    ensures NormalizeAll(records).error.Some? ==> r.state == s && r.error == NormalizeAll(records).error
    ensures NormalizeAll(records).error.None? ==>
              var stmt := InsertFor(table, r.records, toAdd);
              var applied := Run(s, stmt);
              && (r.error.None? <==> applied.Success?)
              && (applied.Success? ==> r.state.tables == applied.value.tables && r.state.committed == r.state.tables
                                       && !r.state.aborted && r.state.trace == s.trace + [Execute(stmt), Commit])
              && (applied.Failure? ==> r.state.tables == s.tables && r.state.committed == s.committed
                                       && r.state.aborted && r.error == Some(applied.error)
                                       && r.state.trace == s.trace + [Execute(stmt)])
  {
    var batch := NormalizeAll(records);
    if batch.error.Some? then Outcome(s, batch.records, batch.error)
    else
      var rows := SelectRows(batch.records, toAdd);
      var columns := DefaultColumns();
      var (s1, err) := SendCommit(s, Insert(table, columns, rows));
      Outcome(s1, batch.records, err)
  }

  /** `add_records` when normalisation raises: nothing is sent. */
  lemma AddOnStops(s: State, toAdd: seq<Value>, records: seq<Record>, table: string)
    requires NormalizeAll(records).error.Some?
    ensures AddOn(s, toAdd, records, table) == Outcome(s, NormalizeAll(records).records, NormalizeAll(records).error)
  {
  }

  /** `add_records` when normalisation goes through: the INSERT and its commit. */
  lemma AddOnSends(s: State, toAdd: seq<Value>, records: seq<Record>, table: string)
    requires NormalizeAll(records).error.None?
    ensures var sent := SendCommit(s, InsertFor(table, NormalizeAll(records).records, toAdd));
            AddOn(s, toAdd, records, table) == Outcome(sent.0, NormalizeAll(records).records, sent.1)
  {
  }

  /** An INSERT that raised nothing is committed, with the rows PostgreSQL appended. */
  lemma InsertCommitted(s: State, table: string, columns: seq<string>, rows: seq<seq<Value>>)
    requires SendCommit(s, Insert(table, columns, rows)).1.None?
    ensures !s.aborted && InsertRows(s.tables, table, columns, rows).Success?
    ensures SendCommit(s, Insert(table, columns, rows)).0.committed == InsertRows(s.tables, table, columns, rows).value
  {
  }
}
