/**
 * The fixed table schema (`DatabaseBase._schema`) and the column list derived from its
 * text by `_columns_from_schema`.
 */
module Schema {
  import opened Text

  /** The SQL types the schema uses. */
  datatype ColumnType = Serial | VarChar(limit: nat) | TextType | Real

  /** The column constraints the schema uses. */
  datatype Constraint = NoConstraint | PrimaryKey | UniqueNotNull

  /** One line of the schema: a name, a type and an optional constraint. */
  datatype ColumnDef = ColumnDef(name: string, kind: ColumnType, constraint: Constraint)

  /** The default schema, line by line. */
  const Definitions: seq<ColumnDef> := [
    ColumnDef("id", Serial, PrimaryKey),
    ColumnDef("ean", VarChar(32), UniqueNotNull),
    ColumnDef("title", TextType, NoConstraint),
    ColumnDef("description", TextType, NoConstraint),
    ColumnDef("price", Real, NoConstraint),
    ColumnDef("old_price", Real, NoConstraint),
    ColumnDef("status", VarChar(256), NoConstraint),
    ColumnDef("brand", VarChar(256), NoConstraint),
    ColumnDef("color", VarChar(256), NoConstraint),
    ColumnDef("url", TextType, NoConstraint),
    ColumnDef("discount", VarChar(4), NoConstraint)
  ]

  /** The ten data columns, in schema order, without `id`. */
  const Columns: seq<string> :=
    ["ean", "title", "description", "price", "old_price", "status", "brand", "color", "url", "discount"]

  /** The sixteen spaces that indent every line of the schema literal. */
  const Indent: string := "                "

  function TypeText(kind: ColumnType): string {
    match kind
    case Serial => "SERIAL"
    case VarChar(n) => "VARCHAR(" + NatToString(n) + ")"
    case TextType => "TEXT"
    case Real => "REAL"
  }

  function ConstraintText(k: Constraint): string {
    match k
    case NoConstraint => ""
    case PrimaryKey => " PRIMARY KEY"
    case UniqueNotNull => " UNIQUE NOT NULL"
  }

  /** The text of one definition, as written in the schema. */
  function DefinitionText(c: ColumnDef): string {
    c.name + " " + TypeText(c.kind) + ConstraintText(c.constraint)
  }

  /** The text of one schema line: a line break, the indentation, the definition. */
  function Line(c: ColumnDef): string {
    "\n" + Indent + DefinitionText(c)
  }

  /** The schema lines of `defs`, in order. */
  function Lines(defs: seq<ColumnDef>): (r: seq<string>)
    ensures |r| == |defs|
    ensures forall i :: 0 <= i < |defs| ==> r[i] == Line(defs[i])
  {
    if |defs| == 0 then [] else [Line(defs[0])] + Lines(defs[1..])
  }

  /**
   * The pieces of the schema between commas: the first definition (the leading line break
   * and indentation belong to the whole text), then each later line.
   */
  function Pieces(defs: seq<ColumnDef>): (r: seq<string>)
    requires |defs| > 0
    ensures |r| == |defs| && r[0] == DefinitionText(defs[0])
    ensures forall i :: 1 <= i < |defs| ==> r[i] == Line(defs[i])
  {
    [DefinitionText(defs[0])] + Lines(defs[1..])
  }

  /** The triple-quoted schema: the lines joined by commas, then a line break and indentation. */
  function SchemaText(defs: seq<ColumnDef>): string
    requires |defs| > 0
  {
    "\n" + Indent + Join(Pieces(defs), ',') + "\n" + Indent
  }

  /** `column.strip().split(" ")[0].strip()`. */
  function ColumnName(piece: string): string {
    Strip(Split(Strip(piece), ' ')[0])
  }

  /** The names of the pieces in order, dropping every one named `id`. */
  function NamesExceptId(pieces: seq<string>): (r: seq<string>)
    ensures |r| <= |pieces|
    ensures forall i :: 0 <= i < |r| ==> r[i] != "id"
  {
    if |pieces| == 0 then []
    else
      var name := ColumnName(pieces[0]);
      (if name == "id" then [] else [name]) + NamesExceptId(pieces[1..])
  }

  /** `_columns_from_schema` over a schema text. */
  function ColumnsFromSchema(schema: string): (r: seq<string>)
    ensures forall i :: 0 <= i < |r| ==> r[i] != "id"
  {
    NamesExceptId(Split(Strip(schema), ','))
  }

  /** The names of the definitions in order, `id` left out. */
  function DefinedNames(defs: seq<ColumnDef>): (r: seq<string>)
    ensures |r| <= |defs|
  {
    if |defs| == 0 then []
    else (if defs[0].name == "id" then [] else [defs[0].name]) + DefinedNames(defs[1..])
  }

  /** The characters the schema uses in column names. */
  predicate IsNameChar(ch: char) {
    'a' <= ch <= 'z' || ch == '_'
  }

  /** A definition whose text the strip/split steps read back correctly. */
  predicate WellFormed(c: ColumnDef) {
    && c.name != ""
    && (forall i :: 0 <= i < |c.name| ==> IsNameChar(c.name[i]))
  }

  predicate AllWellFormed(defs: seq<ColumnDef>) {
    forall i :: 0 <= i < |defs| ==> WellFormed(defs[i])
  }

  lemma ConstraintTextShape(k: Constraint)
    ensures var t := ConstraintText(k); ',' !in t && (t == "" || !IsSpace(t[|t| - 1]))
  {
  }

  lemma TypeTextShape(kind: ColumnType)
    ensures |TypeText(kind)| > 0 && !IsSpace(TypeText(kind)[|TypeText(kind)| - 1])
  {
  }

  lemma TypeTextNoComma(kind: ColumnType)
    ensures ',' !in TypeText(kind)
  {
    if kind.VarChar? {
      var d := NatToString(kind.limit);
      var t := TypeText(kind);
      assert t == "VARCHAR(" + d + ")";
      forall i | 0 <= i < |t|
        ensures t[i] != ','
      {
        if 8 <= i < 8 + |d| {
          assert t[i] == d[i - 8];
        }
      }
    }
  }

  /** The definition text starts with its name and ends with a non-space. */
  lemma DefinitionShape(c: ColumnDef)
    requires WellFormed(c)
    ensures var t := DefinitionText(c); t != [] && !IsSpace(t[0]) && !IsSpace(t[|t| - 1])
    ensures ',' !in DefinitionText(c)
  {
    var t := DefinitionText(c);
    TypeTextShape(c.kind);
    TypeTextNoComma(c.kind);
    ConstraintTextShape(c.constraint);
    assert t[0] == c.name[0];
    var typ, con := TypeText(c.kind), ConstraintText(c.constraint);
    var tail := typ + con;
    assert t == c.name + " " + tail;
    assert t[|t| - 1] == tail[|tail| - 1] == if con == "" then typ[|typ| - 1] else con[|con| - 1];
  }

  /** A name of name characters is trimmed and holds no space. */
  lemma NameShape(name: string)
    requires name != "" && forall i :: 0 <= i < |name| ==> IsNameChar(name[i])
    ensures Strip(name) == name && ' ' !in name
  {
    StripTrimmed(name);
  }

  /** The first space-separated word of `name + " " + tail`, stripped, is `name`. */
  lemma FirstWord(name: string, tail: string)
    requires name != "" && forall i :: 0 <= i < |name| ==> IsNameChar(name[i])
    ensures Strip(Split(name + " " + tail, ' ')[0]) == name
  {
    NameShape(name);
    assert name + " " + tail == name + [' '] + tail;
    SplitAfterPiece(name, ' ', tail);
  }

  /** The line break and indentation before a definition are stripped away. */
  lemma StripLine(c: ColumnDef)
    requires WellFormed(c)
    ensures Strip(Line(c)) == DefinitionText(c)
  {
    DefinitionShape(c);
    assert AllSpaces("\n" + Indent);
    StripAround("\n" + Indent, DefinitionText(c), "");
    assert Line(c) == "\n" + Indent + DefinitionText(c) + "";
  }

  /** The name is read back from the definition text. */
  lemma NameOfDefinition(c: ColumnDef)
    requires WellFormed(c)
    ensures ColumnName(DefinitionText(c)) == c.name
  {
    var tail := TypeText(c.kind) + ConstraintText(c.constraint);
    var t := DefinitionText(c);
    assert t == c.name + " " + tail;
    DefinitionShape(c);
    StripTrimmed(t);
    FirstWord(c.name, tail);
  }

  /** The name is read back from the schema line. */
  lemma NameOfLine(c: ColumnDef)
    requires WellFormed(c)
    ensures ColumnName(Line(c)) == c.name
  {
    StripLine(c);
    NameOfDefinition(c);
  }

  /** The pieces hold no comma, so splitting the joined text gives them back. */
  lemma PiecesSplit(defs: seq<ColumnDef>)
    requires |defs| > 0
    requires AllWellFormed(defs)
    ensures Split(Join(Pieces(defs), ','), ',') == Pieces(defs)
  {
    var ps := Pieces(defs);
    forall i | 0 <= i < |ps|
      ensures ',' !in ps[i]
    {
      DefinitionShape(defs[i]);
      if i > 0 {
        assert ps[i] == "\n" + Indent + DefinitionText(defs[i]);
      }
    }
    SplitJoin(ps, ',');
  }

  /** Joined pieces begin with the first piece's first character and end with the last piece's last. */
  lemma {:induction false} JoinEnds(parts: seq<string>, sep: char)
    requires |parts| > 0
    requires forall i :: 0 <= i < |parts| ==> parts[i] != ""
    ensures var j := Join(parts, sep); j != [] && j[0] == parts[0][0]
    ensures var j := Join(parts, sep); j != [] && j[|j| - 1] == parts[|parts| - 1][|parts[|parts| - 1]| - 1]
  {
    if |parts| > 1 {
      JoinEnds(parts[1..], sep);
    }
  }

  /** The joined pieces start and end with a non-space. */
  lemma JoinedPiecesTrimmed(defs: seq<ColumnDef>)
    requires |defs| > 0
    requires AllWellFormed(defs)
    ensures var j := Join(Pieces(defs), ','); j != [] && !IsSpace(j[0]) && !IsSpace(j[|j| - 1])
  {
    var ps := Pieces(defs);
    forall i | 0 <= i < |ps|
      ensures ps[i] != ""
    {
      DefinitionShape(defs[i]);
    }
    JoinEnds(ps, ',');
    DefinitionShape(defs[0]);
    var last := defs[|defs| - 1];
    DefinitionShape(last);
    if |defs| > 1 {
      LineEnd(last);
      assert ps[|ps| - 1] == Line(last);
    }
  }

  lemma LineEnd(c: ColumnDef)
    requires WellFormed(c)
    ensures var l := Line(c); l != [] && !IsSpace(l[|l| - 1])
  {
    var t := DefinitionText(c);
    DefinitionShape(c);
    assert Line(c)[|Line(c)| - 1] == t[|t| - 1];
  }

  /** Stripping the schema text leaves the comma-joined pieces. */
  lemma SchemaStrip(defs: seq<ColumnDef>)
    requires |defs| > 0
    requires AllWellFormed(defs)
    ensures Strip(SchemaText(defs)) == Join(Pieces(defs), ',')
  {
    var j := Join(Pieces(defs), ',');
    var margin := "\n" + Indent;
    JoinedPiecesTrimmed(defs);
    assert AllSpaces(margin);
    StripAround(margin, j, margin);
    assert SchemaText(defs) == margin + j + margin;
  }

  /** Pieces that each read back as their definition's name give the defined names. */
  lemma {:induction false} NamesRead(pieces: seq<string>, defs: seq<ColumnDef>)
    requires |pieces| == |defs|
    requires forall i :: 0 <= i < |defs| ==> ColumnName(pieces[i]) == defs[i].name
    ensures NamesExceptId(pieces) == DefinedNames(defs)
  {
    if |defs| > 0 {
      forall i | 0 <= i < |defs| - 1
        ensures ColumnName(pieces[1..][i]) == defs[1..][i].name
      {
        assert pieces[1..][i] == pieces[i + 1] && defs[1..][i] == defs[i + 1];
      }
      NamesRead(pieces[1..], defs[1..]);
    }
  }

  /** Reading the names off the pieces gives the defined names. */
  lemma NamesOfPieces(defs: seq<ColumnDef>)
    requires |defs| > 0
    requires AllWellFormed(defs)
    ensures NamesExceptId(Pieces(defs)) == DefinedNames(defs)
  {
    forall i | 0 <= i < |defs|
      ensures ColumnName(Pieces(defs)[i]) == defs[i].name
    {
      PieceName(defs, i);
    }
    NamesRead(Pieces(defs), defs);
  }

  /** Each piece reads back as the name of its definition. */
  lemma PieceName(defs: seq<ColumnDef>, i: nat)
    requires i < |defs| && WellFormed(defs[i])
    ensures ColumnName(Pieces(defs)[i]) == defs[i].name
  {
    if i == 0 {
      NameOfDefinition(defs[0]);
    } else {
      NameOfLine(defs[i]);
    }
  }

  /** For any schema written in this layout, `_columns_from_schema` gives the names without `id`. */
  lemma ColumnsOfSchema(defs: seq<ColumnDef>)
    requires |defs| > 0
    requires AllWellFormed(defs)
    ensures ColumnsFromSchema(SchemaText(defs)) == DefinedNames(defs)
  {
    var joined := Join(Pieces(defs), ',');
    assert Strip(SchemaText(defs)) == joined by {
      SchemaStrip(defs);
    }
    assert Split(joined, ',') == Pieces(defs) by {
      PiecesSplit(defs);
    }
    assert NamesExceptId(Pieces(defs)) == DefinedNames(defs) by {
      NamesOfPieces(defs);
    }
    ColumnsThroughPieces(SchemaText(defs), joined, Pieces(defs), DefinedNames(defs));
  }

  /** `_columns_from_schema` step by step: strip, split at commas, read each name. */
  lemma ColumnsThroughPieces(schema: string, joined: string, pieces: seq<string>, names: seq<string>)
    requires Strip(schema) == joined && Split(joined, ',') == pieces && NamesExceptId(pieces) == names
    ensures ColumnsFromSchema(schema) == names
  {
  }

  lemma DefinitionsWellFormed()
    ensures AllWellFormed(Definitions)
  {
    var d := Definitions;
    assert WellFormed(d[0]) && WellFormed(d[1]) && WellFormed(d[2]) && WellFormed(d[3]);
    assert WellFormed(d[4]) && WellFormed(d[5]) && WellFormed(d[6]) && WellFormed(d[7]);
    assert WellFormed(d[8]) && WellFormed(d[9]) && WellFormed(d[10]);
  }

  /** The names of the definitions, in order. */
  function Names(defs: seq<ColumnDef>): (r: seq<string>)
    ensures |r| == |defs|
  {
    seq(|defs|, i requires 0 <= i < |defs| => defs[i].name)
  }

  /** Definitions none of which is named `id` give all their names, in order. */
  lemma {:induction false} NamesNoId(defs: seq<ColumnDef>)
    requires forall i :: 0 <= i < |defs| ==> defs[i].name != "id"
    ensures DefinedNames(defs) == Names(defs)
  {
    if |defs| > 0 {
      NamesNoId(defs[1..]);
      assert Names(defs) == [defs[0].name] + Names(defs[1..]);
    }
  }

  /** A schema whose first column, and only that one, is `id` gives the names of the others. */
  lemma IdFirstColumns(defs: seq<ColumnDef>)
    requires |defs| > 0 && defs[0].name == "id"
    requires forall i :: 1 <= i < |defs| ==> defs[i].name != "id"
    requires AllWellFormed(defs)
    ensures ColumnsFromSchema(SchemaText(defs)) == Names(defs[1..])
  {
    ColumnsOfSchema(defs);
    IdFirstNames(defs);
  }

  /** With `id` first and nowhere else, the defined names are the names after it. */
  lemma IdFirstNames(defs: seq<ColumnDef>)
    requires |defs| > 0 && defs[0].name == "id"
    requires forall i :: 1 <= i < |defs| ==> defs[i].name != "id"
    ensures DefinedNames(defs) == Names(defs[1..])
  {
    assert DefinedNames(defs) == DefinedNames(defs[1..]);
    assert forall i :: 0 <= i < |defs| - 1 ==> defs[1..][i] == defs[i + 1];
    NamesNoId(defs[1..]);
  }

  /** The data columns of the default schema are the ten columns, in schema order. */
  lemma DefinedColumns()
    ensures Definitions[0].name == "id" && forall i :: 1 <= i < |Definitions| ==> Definitions[i].name != "id"
    ensures Names(Definitions[1..]) == Columns
  {
  }

  /** `_columns_from_schema()` is the ten data columns in schema order. */
  lemma SchemaColumns()
    ensures ColumnsFromSchema(SchemaText(Definitions)) == Columns
  {
    DefinitionsWellFormed();
    DefinedColumns();
    IdFirstColumns(Definitions);
  }

  /** `_columns_from_schema()` on the default schema. */
  function DefaultColumns(): (c: seq<string>)
    ensures c == Columns
  {
    SchemaColumns();
    ColumnsFromSchema(SchemaText(Definitions))
  }
}
