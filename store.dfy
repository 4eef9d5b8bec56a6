/**
 * The database behind the connection, as abstract state: named tables of rows, the
 * statements the code sends (not their SQL text) and what PostgreSQL does with each.
 */
module Store {
  import opened Wrappers
  import opened Errors
  import opened Numbers
  import opened Schema
  import opened Records

  /** A stored row: its `ean`, and the other columns the INSERT gave (a column not given is NULL). */
  datatype Row = Row(ean: string, fields: map<string, Value>)

  /** The tables of the database, by name. */
  type Tables = map<string, seq<Row>>

  /** One tuple of a result set, or of a VALUES list. */
  type Cells = seq<Value>

  /** The statements the code executes, in place of their SQL text. */
  datatype Statement =
    | TableQuery(name: string)       // select * from information_schema.tables where table_name = name
    | SelectEans(table: string)      // SELECT ean FROM table
    | CreateTable(table: string)     // CREATE TABLE table (the default schema)
    | DropTable(table: string)       // DROP TABLE table
    | Insert(table: string, columns: seq<string>, rows: seq<Cells>)  // INSERT INTO table (columns) VALUES rows

  /** What the connection is asked to do, in order. */
  datatype Op = Execute(stmt: Statement) | Commit

  /** The tables after a statement and the rows it returns, if it is a query. */
  datatype Applied = Applied(tables: Tables, result: Option<seq<Cells>>)

  function Eans(rows: seq<Row>): (r: seq<string>)
    ensures |r| == |rows|
    ensures forall i :: 0 <= i < |rows| ==> r[i] == rows[i].ean
  {
    seq(|rows|, i requires 0 <= i < |rows| => rows[i].ean)
  }

  /** The result set of `SELECT ean`: one single-cell tuple per row, in table order. */
  function EanCells(rows: seq<Row>): (r: seq<Cells>)
    ensures |r| == |rows|
    ensures forall i :: 0 <= i < |rows| ==> r[i] == [Str(rows[i].ean)]
  {
    seq(|rows|, i requires 0 <= i < |rows| => [Str(rows[i].ean)])
  }

  /** Unpacking the result of `SELECT ean` gives back the stored keys, in order. */
  lemma UnpackStored(rows: seq<Row>)
    ensures UnpackDbEans(EanCells(rows)) == Eans(rows)
  {
  }

  predicate Distinct(s: seq<string>) {
    forall i, j :: 0 <= i < j < |s| ==> s[i] != s[j]
  }

  /** What `ean ... UNIQUE` keeps true of every table. */
  predicate Consistent(tables: Tables) {
    forall t :: t in tables ==> Distinct(Eans(tables[t]))
  }

  // ---------------------------------------------------------------- columns

  /** The type of a named column among `defs`. */
  function KindIn(defs: seq<ColumnDef>, column: string): (k: Option<ColumnType>)
    ensures k.Some? <==> exists i :: 0 <= i < |defs| && defs[i].name == column
  {
    if |defs| == 0 then None
    else if defs[0].name == column then Some(defs[0].kind)
    else
      var k := KindIn(defs[1..], column);
      assert forall i :: 1 <= i < |defs| ==> defs[i] == defs[1..][i - 1];
      k
  }

  /** The type of a column of the schema, if the schema has it. */
  function KindOf(column: string): Option<ColumnType> {
    KindIn(Definitions, column)
  }

  /** A column's type is the type of its first definition. */
  lemma {:induction false} KindAtFirst(defs: seq<ColumnDef>, i: nat)
    requires i < |defs| && forall j :: 0 <= j < i ==> defs[j].name != defs[i].name
    ensures KindIn(defs, defs[i].name) == Some(defs[i].kind)
  {
    if i > 0 {
      assert forall j :: 0 <= j < i - 1 ==> defs[1..][j] == defs[j + 1];
      KindAtFirst(defs[1..], i - 1);
    }
  }

  /** `ean` is a VARCHAR(32). */
  lemma EanKind()
    ensures KindOf("ean") == Some(VarChar(32))
  {
    KindAtFirst(Definitions, 1);
  }

  /** Both prices are REAL. */
  lemma PriceKinds()
    ensures KindOf("price") == Some(Real) && KindOf("old_price") == Some(Real)
  {
    PriceKind();
    OldPriceKind();
  }

  lemma PriceKind()
    ensures KindOf("price") == Some(Real)
  {
    KindAtFirst(Definitions, 4);
  }

  lemma OldPriceKind()
    ensures KindOf("old_price") == Some(Real)
  {
    KindAtFirst(Definitions, 5);
  }

  /** `discount` is a VARCHAR(4). */
  lemma DiscountKind()
    ensures KindOf("discount") == Some(VarChar(4))
  {
    var d := Definitions;
    assert d[10].name == "discount";
    KindAtFirst(d, 10);
  }

  /** Every derived column is one the schema defines. */
  lemma ColumnsDefined()
    ensures forall c :: c in Columns ==> KindOf(c).Some?
  {
    assert Definitions[1].name == "ean" && Definitions[2].name == "title";
    assert Definitions[3].name == "description" && Definitions[4].name == "price";
    assert Definitions[5].name == "old_price" && Definitions[6].name == "status";
    assert Definitions[7].name == "brand" && Definitions[8].name == "color";
    assert Definitions[9].name == "url" && Definitions[10].name == "discount";
  }

  /** Every character of `s` from position `n` on is a space. */
  predicate SpacesFrom(s: string, n: nat) {
    forall k :: n <= k < |s| ==> s[k] == ' '
  }

  /**
   * What a VARCHAR(n) column stores for `v`: text of at most `n` characters as it is, longer
   * text cut to `n` when only spaces stand past the limit; anything else is refused.
   */
  function VarCharValue(n: nat, v: Value): (r: Option<Value>)
    ensures r.Some? <==> v.Str? && SpacesFrom(v.s, n)
    ensures r.Some? ==> r.value.Str? && r.value.s <= v.s && |r.value.s| == (if |v.s| <= n then |v.s| else n)
  {
    if v.Str? && SpacesFrom(v.s, n) then Some(Str(if |v.s| <= n then v.s else v.s[..n])) else None
  }

  /**
   * The value a column of type `kind` stores for `v`, or `None` if PostgreSQL refuses it:
   * text longer than a VARCHAR, unless only spaces stand past the limit (they are cut off),
   * text that does not read as a REAL, a number in a text column.
   */
  function Cell(kind: ColumnType, v: Value): (r: Option<Value>)
    ensures kind.VarChar? ==> (r.Some? <==> v.Str? && SpacesFrom(v.s, kind.limit))
    ensures kind.VarChar? && r.Some? ==>
              && r.value.Str? && r.value.s <= v.s
              && |r.value.s| == (if |v.s| <= kind.limit then |v.s| else kind.limit)
    ensures kind.TextType? ==> (r.Some? <==> v.Str?) && (r.Some? ==> r.value == v)
    ensures kind.Real? ==> (r.Some? <==> v.Num? || ParseFloat(v.s).Some?)
    ensures kind.Real? && r.Some? ==> r.value.Num?
  {
    match kind
    case VarChar(n) => VarCharValue(n, v)
    case TextType => if v.Str? then Some(v) else None
    case Real =>
      (match v
       case Num(_) => Some(v)
       case Str(s) => if ParseFloat(s).Some? then Some(Num(ParseFloat(s).value)) else None)
    case Serial => if v.Num? then Some(v) else None
  }

  /** The key `ean VARCHAR(32)` stores for the cell `v`, or `None` if it refuses it. */
  function StoredKey(v: Value): Option<Value> {
    VarCharValue(32, v)
  }

  /**
   * A key of at most 32 characters is stored as it is; a longer one ending in spaces is
   * stored as its first 32 characters; a longer one with anything else past 32 is refused.
   */
  lemma StoredKeyCases(s: string)
    ensures |s| <= 32 ==> StoredKey(Str(s)) == Some(Str(s))
    ensures |s| > 32 && SpacesFrom(s, 32) ==> StoredKey(Str(s)) == Some(Str(s[..32]))
    ensures |s| > 32 && !SpacesFrom(s, 32) ==> StoredKey(Str(s)).None?
  {
  }

  predicate AllDefined(columns: seq<string>) {
    forall i :: 0 <= i < |columns| ==> KindOf(columns[i]).Some?
  }

  /** The position of the first column `defs` does not define, or the length when there is none. */
  function UndefinedIndexIn(defs: seq<ColumnDef>, columns: seq<string>): (k: nat)
    ensures k <= |columns|
    ensures forall i :: 0 <= i < k ==> KindIn(defs, columns[i]).Some?
    ensures k < |columns| ==> KindIn(defs, columns[k]).None?
  {
    if |columns| == 0 || KindIn(defs, columns[0]).None? then 0
    else
      var k := UndefinedIndexIn(defs, columns[1..]);
      assert forall i :: 1 <= i < k + 1 ==> columns[i] == columns[1..][i - 1];
      k + 1
  }

  /** The first column the schema does not define. */
  function FirstUndefined(columns: seq<string>): (c: Option<string>)
    ensures c.None? <==> AllDefined(columns)
    ensures c.Some? ==> exists k :: 0 <= k < |columns| && columns[k] == c.value && KindOf(c.value).None? && AllDefined(columns[..k])
  {
    var k := UndefinedIndexIn(Definitions, columns);
    if k < |columns| then
      assert AllDefined(columns[..k]) by {
        assert forall i :: 0 <= i < k ==> columns[..k][i] == columns[i];
      }
      Some(columns[k])
    else
      None
  }

  /** The stored values of one VALUES tuple, by column. */
  function ConvertCells(columns: seq<string>, cells: Cells): (r: Result<map<string, Value>, Error>)
    requires |columns| == |cells| && AllDefined(columns)
    ensures r.Success? ==> r.value.Keys == set c | c in columns
    ensures r.Success? ==> forall i :: 0 <= i < |columns| ==> Cell(KindOf(columns[i]).value, cells[i]).Some?
    ensures r.Failure? <==> exists i :: 0 <= i < |columns| && Cell(KindOf(columns[i]).value, cells[i]).None?
  {
    if |columns| == 0 then Success(map[])
    else
      var c := columns[0];
      assert forall i :: 1 <= i < |columns| ==> columns[i] == columns[1..][i - 1] && cells[i] == cells[1..][i - 1];
      match Cell(KindOf(c).value, cells[0])
      case None => Failure(InvalidCell(c))
      case Some(v) =>
        match ConvertCells(columns[1..], cells[1..])
        case Failure(e) => Failure(e)
        case Success(m) => Success(m[c := v])
  }

  /** One VALUES tuple as a stored row. */
  function BuildRow(columns: seq<string>, cells: Cells): (r: Result<Row, Error>)
    requires |columns| == |cells| && AllDefined(columns) && "ean" in columns
  {
    match ConvertCells(columns, cells)
    case Failure(e) => Failure(e)
    case Success(m) =>
      assert "ean" in m;
      if m["ean"].Str? then Success(Row(m["ean"].s, m - {"ean"})) else Failure(InvalidCell("ean"))
  }

  /** `f` applied to each element in turn; the first failure is the result. */
  function Collect<A, B>(f: A --> Result<B, Error>, xs: seq<A>): (r: Result<seq<B>, Error>)
    requires forall i :: 0 <= i < |xs| ==> f.requires(xs[i])
    ensures r.Success? ==> |r.value| == |xs|
  {
    if |xs| == 0 then Success([])
    else
      match f(xs[0])
      case Failure(e) => Failure(e)
      case Success(y) =>
        match Collect(f, xs[1..])
        case Failure(e) => Failure(e)
        case Success(rest) => Success([y] + rest)
  }

  /** Element `i` of a collected result is what `f` makes of element `i`. */
  lemma {:induction false} CollectAt<A, B>(f: A --> Result<B, Error>, xs: seq<A>, i: nat)
    requires forall k :: 0 <= k < |xs| ==> f.requires(xs[k])
    requires Collect(f, xs).Success? && i < |xs|
    ensures f(xs[i]) == Success(Collect(f, xs).value[i])
  {
    if i > 0 {
      CollectAt(f, xs[1..], i - 1);
      assert xs[1..][i - 1] == xs[i];
    }
  }

  /** Every tuple of a VALUES list as a stored row, in order; the first bad tuple fails them all. */
  function BuildRows(columns: seq<string>, rows: seq<Cells>): (r: Result<seq<Row>, Error>)
    requires AllDefined(columns) && "ean" in columns
    requires forall i :: 0 <= i < |rows| ==> |rows[i]| == |columns|
    ensures r.Success? ==> |r.value| == |rows|
  {
    Collect((cells: Cells) requires |cells| == |columns| && AllDefined(columns) && "ean" in columns =>
              BuildRow(columns, cells), rows)
  }

  /** The position of `ean` in a column list that holds it. */
  function EanIndex(columns: seq<string>): (i: nat)
    requires "ean" in columns
    ensures i < |columns| && columns[i] == "ean"
  {
    if columns[0] == "ean" then 0 else 1 + EanIndex(columns[1..])
  }

  /** A stored row keeps the `ean` cell of its tuple. */
  lemma {:induction false} BuildRowEan(columns: seq<string>, cells: Cells)
    requires |columns| == |cells| && AllDefined(columns) && "ean" in columns
    requires Distinct(columns)
    requires BuildRow(columns, cells).Success?
    ensures StoredKey(cells[EanIndex(columns)]) == Some(Str(BuildRow(columns, cells).value.ean))
  {
    ConvertCellsAt(columns, cells, EanIndex(columns));
    EanKind();
  }

  /** Each converted cell is stored under its column. */
  lemma {:induction false} ConvertCellsAt(columns: seq<string>, cells: Cells, i: nat)
    requires |columns| == |cells| && AllDefined(columns) && Distinct(columns)
    requires i < |columns| && ConvertCells(columns, cells).Success?
    ensures ConvertCells(columns, cells).value[columns[i]] == Cell(KindOf(columns[i]).value, cells[i]).value
  {
    if i > 0 {
      assert AllDefined(columns[1..]) && Distinct(columns[1..]) by { DefinedDistinctTail(columns); }
      ConvertCellsAt(columns[1..], cells[1..], i - 1);
      assert columns[1..][i - 1] == columns[i] && cells[1..][i - 1] == cells[i];
      assert columns[0] != columns[i];
    }
  }

  lemma DefinedDistinctTail(columns: seq<string>)
    requires AllDefined(columns) && Distinct(columns) && |columns| > 0
    ensures AllDefined(columns[1..]) && Distinct(columns[1..])
  {
    forall a, b | 0 <= a < b < |columns[1..]|
      ensures columns[1..][a] != columns[1..][b]
    {
      assert columns[a + 1] != columns[b + 1];
    }
  }

  /** The `i`-th stored row is what the `i`-th tuple makes. */
  lemma BuildRowsAt(columns: seq<string>, rows: seq<Cells>, i: nat)
    requires AllDefined(columns) && "ean" in columns
    requires forall k :: 0 <= k < |rows| ==> |rows[k]| == |columns|
    requires BuildRows(columns, rows).Success? && i < |rows|
    ensures BuildRow(columns, rows[i]) == Success(BuildRows(columns, rows).value[i])
  {
    CollectAt((cells: Cells) requires |cells| == |columns| && AllDefined(columns) && "ean" in columns =>
                BuildRow(columns, cells), rows, i);
  }

  /** The keys of the stored rows are the `ean` cells of the tuples, in order. */
  lemma BuildRowsEans(columns: seq<string>, rows: seq<Cells>)
    requires AllDefined(columns) && "ean" in columns && Distinct(columns)
    requires forall i :: 0 <= i < |rows| ==> |rows[i]| == |columns|
    requires BuildRows(columns, rows).Success?
    ensures forall i :: 0 <= i < |rows| ==> StoredKey(rows[i][EanIndex(columns)]) == Some(Str(Eans(BuildRows(columns, rows).value)[i]))
  {
    forall i | 0 <= i < |rows|
      ensures StoredKey(rows[i][EanIndex(columns)]) == Some(Str(Eans(BuildRows(columns, rows).value)[i]))
    {
      BuildRowsEanAt(columns, rows, i);
    }
  }

  /** The key of the `i`-th stored row is the `ean` cell of the `i`-th tuple. */
  lemma BuildRowsEanAt(columns: seq<string>, rows: seq<Cells>, i: nat)
    requires AllDefined(columns) && "ean" in columns && Distinct(columns)
    requires forall k :: 0 <= k < |rows| ==> |rows[k]| == |columns|
    requires BuildRows(columns, rows).Success? && i < |rows|
    ensures StoredKey(rows[i][EanIndex(columns)]) == Some(Str(BuildRows(columns, rows).value[i].ean))
  {
    var row := BuildRows(columns, rows).value[i];
    assert BuildRow(columns, rows[i]) == Success(row) by { BuildRowsAt(columns, rows, i); }
    assert StoredKey(rows[i][EanIndex(columns)]) == Some(Str(row.ean)) by { BuildRowEan(columns, rows[i]); }
  }

  // ---------------------------------------------------------------- statements

  /**
   * `INSERT INTO table (columns) VALUES rows`: a syntax error on an empty VALUES list, then
   * the checks on the table and the column list, then the cells, then NOT NULL and UNIQUE on
   * `ean`; on success the rows are appended and nothing else changes.
   */
  function InsertRows(tables: Tables, table: string, columns: seq<string>, rows: seq<Cells>): (r: Result<Tables, Error>)
    ensures r.Success? ==> table in tables && table in r.value && r.value == tables[table := r.value[table]]
    ensures r.Success? ==> "ean" in columns && forall i :: 0 <= i < |rows| ==> |rows[i]| == |columns|
    ensures |rows| == 0 ==> r == Failure(EmptyValues)
    ensures |rows| > 0 && table !in tables ==> r == Failure(UndefinedTable(table))
  {
    if |rows| == 0 then Failure(EmptyValues)
    else if table !in tables then Failure(UndefinedTable(table))
    else if FirstUndefined(columns).Some? then Failure(UndefinedColumn(FirstUndefined(columns).value))
    else if !Distinct(columns) then Failure(DuplicateColumn)
    else if exists i :: 0 <= i < |rows| && |rows[i]| != |columns| then Failure(ArityMismatch)
    else if "ean" !in columns then Failure(NotNullViolation("ean"))
    else
      match BuildRows(columns, rows)
      case Failure(e) => Failure(e)
      case Success(added) =>
        var all := tables[table] + added;
        if !Distinct(Eans(all)) then Failure(UniqueViolation)
        else Success(tables[table := all])
  }

  /** An accepted INSERT appends one row per tuple, keys all distinct, and touches no other table. */
  lemma InsertAppends(tables: Tables, table: string, columns: seq<string>, rows: seq<Cells>)
    requires InsertRows(tables, table, columns, rows).Success?
    ensures var after := InsertRows(tables, table, columns, rows).value;
            && |after[table]| == |tables[table]| + |rows|
            && after[table][..|tables[table]|] == tables[table]
            && Distinct(Eans(after[table]))
  {
    var added := BuildRows(columns, rows).value;
    var all := tables[table] + added;
    assert InsertRows(tables, table, columns, rows).value[table] == all;
    assert all[..|tables[table]|] == tables[table];
  }

  /** What PostgreSQL does with one statement. */
  function Apply(tables: Tables, stmt: Statement): (r: Result<Applied, Error>)
    ensures r.Success? && !stmt.Insert? && !stmt.CreateTable? && !stmt.DropTable? ==> r.value.tables == tables
    ensures r.Success? <==> match stmt
                            case TableQuery(_) => true
                            case SelectEans(t) => t in tables
                            case CreateTable(t) => t !in tables
                            case DropTable(t) => t in tables
                            case Insert(t, cs, rs) => InsertRows(tables, t, cs, rs).Success?
    ensures r.Success? && stmt.Insert? ==> r.value.tables == InsertRows(tables, stmt.table, stmt.columns, stmt.rows).value
  {
    match stmt
    case TableQuery(name) =>
      Success(Applied(tables, Some(if name in tables then [[Str(name)]] else [])))
    case SelectEans(t) =>
      if t in tables then Success(Applied(tables, Some(EanCells(tables[t])))) else Failure(UndefinedTable(t))
    case CreateTable(t) =>
      if t in tables then Failure(DuplicateTable(t)) else Success(Applied(tables[t := []], None))
    case DropTable(t) =>
      if t in tables then Success(Applied(tables - {t}, None)) else Failure(UndefinedTable(t))
    case Insert(t, cs, rs) =>
      match InsertRows(tables, t, cs, rs)
      case Failure(e) => Failure(e)
      case Success(after) => Success(Applied(after, None))
  }

  /** No statement makes two rows of a table share a key. */
  lemma ApplyConsistent(tables: Tables, stmt: Statement)
    requires Consistent(tables) && Apply(tables, stmt).Success?
    ensures Consistent(Apply(tables, stmt).value.tables)
  {
    var after := Apply(tables, stmt).value.tables;
    if stmt.CreateTable? {
      assert after == tables[stmt.table := []];
      assert Eans([]) == [];
    }
  }

  /** The metadata query returns a row exactly when the table exists. */
  lemma TableQueryRows(tables: Tables, name: string)
    ensures |Apply(tables, TableQuery(name)).value.result.value| > 0 <==> name in tables
  {
  }

  /** Every key of an accepted INSERT is stored afterwards, in the order of the VALUES list. */
  lemma InsertStoresKeys(tables: Tables, table: string, columns: seq<string>, rows: seq<Cells>)
    requires InsertRows(tables, table, columns, rows).Success?
    ensures "ean" in columns
    ensures var after := InsertRows(tables, table, columns, rows).value[table];
            forall i :: 0 <= i < |rows| ==> StoredKey(rows[i][EanIndex(columns)]) == Some(Str(after[|tables[table]| + i].ean))
  {
    var added := BuildRows(columns, rows).value;
    BuildRowsEans(columns, rows);
    assert InsertRows(tables, table, columns, rows).value[table] == tables[table] + added;
    InsertAppends(tables, table, columns, rows);
  }

  /** The key of one tuple of an accepted INSERT is stored in the row appended for it. */
  lemma InsertStoresKey(tables: Tables, table: string, columns: seq<string>, rows: seq<Cells>, i: nat)
    requires InsertRows(tables, table, columns, rows).Success? && i < |rows|
    ensures "ean" in columns && |tables[table]| + i < |InsertRows(tables, table, columns, rows).value[table]|
    ensures StoredKey(rows[i][EanIndex(columns)]) == Some(Str(InsertRows(tables, table, columns, rows).value[table][|tables[table]| + i].ean))
  {
    InsertStoresKeys(tables, table, columns, rows);
    InsertAppends(tables, table, columns, rows);
  }

  /** Every key an accepted INSERT appends has at most 32 characters. */
  lemma InsertKeysFit(tables: Tables, table: string, columns: seq<string>, rows: seq<Cells>)
    requires InsertRows(tables, table, columns, rows).Success?
    ensures var after := InsertRows(tables, table, columns, rows).value[table];
            forall k :: |tables[table]| <= k < |after| ==> |after[k].ean| <= 32
  {
    var after := InsertRows(tables, table, columns, rows).value[table];
    var n := |tables[table]|;
    assert |after| == n + |rows| by { InsertAppends(tables, table, columns, rows); }
    forall k | n <= k < |after|
      ensures |after[k].ean| <= 32
    {
      InsertStoresKey(tables, table, columns, rows, k - n);
      StoredKeyFits(rows[k - n][EanIndex(columns)], after[k].ean);
    }
  }

  /** A key as `VARCHAR(32)` stores it has at most 32 characters. */
  lemma StoredKeyFits(v: Value, s: string)
    requires StoredKey(v) == Some(Str(s))
    ensures |s| <= 32
  {
  }

  /**
   * An accepted INSERT had distinct keys, none of them stored before, once cut to fit
   * `VARCHAR(32)`: two tuples with the same key, or a tuple whose key is stored, make it fail.
   */
  lemma InsertKeysFresh(tables: Tables, table: string, columns: seq<string>, rows: seq<Cells>)
    ensures InsertRows(tables, table, columns, rows).Success? ==>
              && (forall i, j :: 0 <= i < j < |rows| ==> StoredKey(rows[i][EanIndex(columns)]) != StoredKey(rows[j][EanIndex(columns)]))
              && (forall i :: 0 <= i < |rows| ==>
                    StoredKey(rows[i][EanIndex(columns)]).Some?
                    && StoredKey(rows[i][EanIndex(columns)]).value !in Texts(Eans(tables[table])))
  {
    if InsertRows(tables, table, columns, rows).Success? {
      InsertStoresKeys(tables, table, columns, rows);
      InsertAppends(tables, table, columns, rows);
      var after := InsertRows(tables, table, columns, rows).value[table];
      var n := |tables[table]|;
      var e := EanIndex(columns);
      forall i, j | 0 <= i < j < |rows|
        ensures StoredKey(rows[i][e]) != StoredKey(rows[j][e])
      {
        assert after[n + i].ean != after[n + j].ean;
      }
      forall i | 0 <= i < |rows|
        ensures StoredKey(rows[i][e]).value !in Texts(Eans(tables[table]))
      {
        forall k | 0 <= k < n
          ensures Texts(Eans(tables[table]))[k] != StoredKey(rows[i][e]).value
        {
          assert after[k] == tables[table][k];
          assert after[k].ean != after[n + i].ean;
        }
      }
    }
  }

  // ---------------------------------------------------------------- cursor

  function Somes(rows: seq<Cells>): (r: seq<Option<Cells>>)
    ensures |r| == |rows|
    ensures forall i :: 0 <= i < |rows| ==> r[i] == Some(rows[i])
  {
    seq(|rows|, i requires 0 <= i < |rows| => Some(rows[i]))
  }

  /** The rows a fetch result actually carries, without the `None` of an exhausted `fetchone`. */
  function Carried(fetched: seq<Option<Cells>>): seq<Cells> {
    if |fetched| == 0 then []
    else (if fetched[0].Some? then [fetched[0].value] else []) + Carried(fetched[1..])
  }

  lemma {:induction false} CarriedSomes(rows: seq<Cells>)
    ensures Carried(Somes(rows)) == rows
  {
    if |rows| > 0 {
      CarriedSomes(rows[1..]);
      assert Somes(rows)[1..] == Somes(rows[1..]);
    }
  }

  /**
   * `fetch(how_many)` on a cursor with `rows` unread: what it returns and what stays unread.
   * `0` is `fetchall`, `1` is `[fetchone()]`, anything else is `fetchmany`.
   */
  function FetchResult(rows: seq<Cells>, howMany: nat): (r: (seq<Option<Cells>>, seq<Cells>))
    ensures howMany == 0 ==> r.0 == Somes(rows) && r.1 == []
    ensures howMany == 1 ==> |r.0| == 1 && (r.0[0].None? <==> rows == [])
    ensures howMany > 1 ==> |r.0| == if howMany < |rows| then howMany else |rows|
    ensures howMany != 1 ==> forall i :: 0 <= i < |r.0| ==> r.0[i].Some?
    ensures Carried(r.0) + r.1 == rows
  {
    if howMany == 0 then
      CarriedSomes(rows);
      (Somes(rows), [])
    else if howMany == 1 then
      if rows == [] then ([None], []) else ([Some(rows[0])], rows[1..])
    else
      var k := if howMany < |rows| then howMany else |rows|;
      CarriedSomes(rows[..k]);
      assert rows[..k] + rows[k..] == rows;
      (Somes(rows[..k]), rows[k..])
  }

  /** `bool(fetch())` is whether any row was unread; `bool(fetch(1))` is always true. */
  lemma FetchTruthiness(rows: seq<Cells>)
    ensures |FetchResult(rows, 0).0| > 0 <==> rows != []
    ensures |FetchResult(rows, 1).0| > 0
  {
  }
}
