/** insert (core.py:214-232, and the earlier guarded one at core.py:110-126):
    one row built from raw strings, cast column by column after the first
    schema entry. The row ID is the caller's business and is not added here. */
module InsertOps {

  import opened Errors
  import opened Values
  import opened SchemaBuilder
  import opened CatalogOps
  import opened Text
  import opened RowOps

  /** The effective cast_value, or with strict the earlier one, which no code
      in force reaches; the lemmas below hold for both. */
  function Cast(value: string, kind: string, strict: bool): Result<Value> {
    if strict then CastValueStrict(value, kind) else CastValue(value, kind)
  }

  /** Every value cast to the type of its column, position by position. */
  function Casts(cols: Schema, values: seq<string>, strict: bool): (casts: seq<Result<Value>>)
    requires |cols| == |values|
    ensures |casts| == |cols|
    ensures forall i :: 0 <= i < |cols| ==> casts[i] == Cast(values[i], cols[i].kind, strict)
  {
    seq(|cols|, i requires 0 <= i < |cols| => Cast(values[i], cols[i].kind, strict))
  }

  /** The row the loop at core.py:229-230 assembles from the columns and the
      cast results, one assignment per column; or the first failed cast. */
  function RowFrom(cols: Schema, casts: seq<Result<Value>>): (r: Result<Fields>)
    requires |cols| == |casts|
  {
    if cols == [] then Ok(map[])
    else
      var n := |cols| - 1;
      match RowFrom(cols[..n], casts[..n])
      case Err(e) => Err(e)
      case Ok(f) =>
        match casts[n]
        case Err(e) => Err(e)
        case Ok(v) => Ok(f[cols[n].name := v])
  }

  /** The row insert builds: each value cast to its column's type. */
  function RowOf(cols: Schema, values: seq<string>, strict: bool): Result<Fields>
    requires |cols| == |values|
  {
    RowFrom(cols, Casts(cols, values, strict))
  }

  lemma RowFromStep(cols: Schema, casts: seq<Result<Value>>, i: nat)
    requires |cols| == |casts| && i < |cols|
    ensures RowFrom(cols[..i + 1], casts[..i + 1]) ==
      match RowFrom(cols[..i], casts[..i])
      case Err(e) => Err(e)
      case Ok(f) =>
        match casts[i]
        case Err(e) => Err(e)
        case Ok(v) => Ok(f[cols[i].name := v])
  {
    assert cols[..i + 1][..i] == cols[..i];
    assert casts[..i + 1][..i] == casts[..i];
  }

  /** The row is assembled exactly when no cast failed. */
  lemma {:induction false} RowFromOk(cols: Schema, casts: seq<Result<Value>>)
    requires |cols| == |casts|
    ensures RowFrom(cols, casts).Ok? <==> forall i :: 0 <= i < |casts| ==> casts[i].Ok?
  {
    if cols != [] {
      var n := |cols| - 1;
      RowFromOk(cols[..n], casts[..n]);
      assert forall i :: 0 <= i < n ==> casts[..n][i] == casts[i];
    }
  }

  /** Once a prefix fails, the whole row fails with the same error. */
  lemma {:induction false} RowFromErrPrefix(cols: Schema, casts: seq<Result<Value>>, k: nat)
    requires |cols| == |casts| && k <= |cols|
    requires RowFrom(cols[..k], casts[..k]).Err?
    ensures RowFrom(cols, casts) == RowFrom(cols[..k], casts[..k])
    decreases |cols| - k
  {
    if k < |cols| {
      var n := |cols| - 1;
      assert cols[..n][..k] == cols[..k] && casts[..n][..k] == casts[..k];
      RowFromErrPrefix(cols[..n], casts[..n], k);
    } else {
      assert cols[..k] == cols && casts[..k] == casts;
    }
  }

  /** The error is that of the first failed cast; no partial row comes back. */
  lemma RowFromFirstError(cols: Schema, casts: seq<Result<Value>>, i: nat)
    requires |cols| == |casts| && i < |cols|
    requires casts[i].Err? && forall j :: 0 <= j < i ==> casts[j].Ok?
    ensures RowFrom(cols, casts) == Err(casts[i].error)
  {
    assert forall j :: 0 <= j < i ==> casts[..i][j] == casts[j];
    RowFromOk(cols[..i], casts[..i]);
    RowFromStep(cols, casts, i);
    RowFromErrPrefix(cols, casts, i + 1);
  }

  /** A row that fails carries the error of one of the casts. */
  lemma {:induction false} RowFromErrIsCast(cols: Schema, casts: seq<Result<Value>>)
    requires |cols| == |casts| && RowFrom(cols, casts).Err?
    ensures exists i :: 0 <= i < |casts| && casts[i] == Err(RowFrom(cols, casts).error)
  {
    var n := |cols| - 1;
    if RowFrom(cols[..n], casts[..n]).Err? {
      RowFromErrIsCast(cols[..n], casts[..n]);
      var i :| 0 <= i < n && casts[..n][i] == Err(RowFrom(cols[..n], casts[..n]).error);
      assert casts[i] == casts[..n][i];
    } else {
      assert casts[n] == Err(RowFrom(cols, casts).error);
    }
  }

  /** An assembled row has one key per column name, and no other key. */
  lemma {:induction false} RowFromKeys(cols: Schema, casts: seq<Result<Value>>)
    requires |cols| == |casts| && RowFrom(cols, casts).Ok?
    ensures RowFrom(cols, casts).value.Keys == set c | c in cols :: c.name
  {
    if cols != [] {
      var n := |cols| - 1;
      RowFromKeys(cols[..n], casts[..n]);
      assert cols == cols[..n] + [cols[n]];
      assert (set c | c in cols :: c.name) == (set c | c in cols[..n] :: c.name) + {cols[n].name};
    }
  }

  /** Each column's field holds its own cast value, unless a later column has
      the same name: the dict assignment of the last one wins. */
  lemma {:induction false} RowFromValueAt(cols: Schema, casts: seq<Result<Value>>, i: nat)
    requires |cols| == |casts| && i < |cols| && RowFrom(cols, casts).Ok?
    requires forall j :: i < j < |cols| ==> cols[j].name != cols[i].name
    ensures casts[i].Ok? && cols[i].name in RowFrom(cols, casts).value
    ensures RowFrom(cols, casts).value[cols[i].name] == casts[i].value
    decreases |cols|
  {
    var n := |cols| - 1;
    var prefix := RowFrom(cols[..n], casts[..n]);
    assert prefix.Ok? && casts[n].Ok?;
    assert RowFrom(cols, casts).value == prefix.value[cols[n].name := casts[n].value];
    if i < n {
      assert cols[..n][i] == cols[i] && casts[..n][i] == casts[i];
      assert forall j :: i < j < n ==> cols[..n][j] == cols[j];
      RowFromValueAt(cols[..n], casts[..n], i);
    }
  }

  lemma RowFromValues(cols: Schema, casts: seq<Result<Value>>)
    requires |cols| == |casts| && RowFrom(cols, casts).Ok?
    ensures forall i :: 0 <= i < |cols| && (forall j :: i < j < |cols| ==> cols[j].name != cols[i].name) ==>
      && casts[i].Ok?
      && cols[i].name in RowFrom(cols, casts).value
      && RowFrom(cols, casts).value[cols[i].name] == casts[i].value
  {
    forall i | 0 <= i < |cols| && (forall j :: i < j < |cols| ==> cols[j].name != cols[i].name)
      ensures casts[i].Ok? && cols[i].name in RowFrom(cols, casts).value
      ensures RowFrom(cols, casts).value[cols[i].name] == casts[i].value
    {
      RowFromValueAt(cols, casts, i);
    }
  }

  /** insert's row is built exactly when every value casts to its column's type. */
  lemma RowOfOk(cols: Schema, values: seq<string>, strict: bool)
    requires |cols| == |values|
    ensures RowOf(cols, values, strict).Ok? <==>
      forall i :: 0 <= i < |cols| ==> Cast(values[i], cols[i].kind, strict).Ok?
  {
    RowFromOk(cols, Casts(cols, values, strict));
  }

  /** A failed insert reports the first value that does not cast. */
  lemma RowOfFirstError(cols: Schema, values: seq<string>, strict: bool, i: nat)
    requires |cols| == |values| && i < |cols|
    requires Cast(values[i], cols[i].kind, strict).Err?
    requires forall j :: 0 <= j < i ==> Cast(values[j], cols[j].kind, strict).Ok?
    ensures RowOf(cols, values, strict) == Err(Cast(values[i], cols[i].kind, strict).error)
  {
    RowFromFirstError(cols, Casts(cols, values, strict), i);
  }

  /** The row carries each column's cast value under the column's name, the
      last column winning when two share a name. */
  lemma RowOfValues(cols: Schema, values: seq<string>, strict: bool)
    requires |cols| == |values| && RowOf(cols, values, strict).Ok?
    ensures forall i :: 0 <= i < |cols| && (forall j :: i < j < |cols| ==> cols[j].name != cols[i].name) ==>
      && Cast(values[i], cols[i].kind, strict).Ok?
      && cols[i].name in RowOf(cols, values, strict).value
      && RowOf(cols, values, strict).value[cols[i].name] == Cast(values[i], cols[i].kind, strict).value
  {
    RowFromValues(cols, Casts(cols, values, strict));
  }

  /** The loop at core.py:227-230: the row, one cast at a time, in schema order. */
  method BuildRow(cols: Schema, values: seq<string>, strict: bool) returns (r: Result<Fields>)
    requires |cols| == |values|
    ensures r == RowOf(cols, values, strict)
  {
    ghost var casts := Casts(cols, values, strict);
    var newRow: Fields := map[];
    var failure: Option<DbError> := None;
    var i := 0;
    while i < |cols| && failure.None?
      invariant 0 <= i <= |cols|
      invariant failure.None? ==> RowFrom(cols[..i], casts[..i]) == Ok(newRow)
      invariant failure.Some? ==> RowFrom(cols[..i], casts[..i]) == Err(failure.value)
      decreases |cols| - i
    {
      RowFromStep(cols, casts, i);
      var cast := Cast(values[i], cols[i].kind, strict);
      assert cast == casts[i];
      match cast {
        case Err(e) =>
          failure := Some(e);
        case Ok(v) =>
          newRow := newRow[cols[i].name := v];
      }
      i := i + 1;
    }
    if failure.Some? {
      RowFromErrPrefix(cols, casts, i);
      r := Err(failure.value);
    } else {
      assert cols[..i] == cols && casts[..i] == casts;
      r := Ok(newRow);
    }
  }

  /** What insert returns for a catalog: the missing table, the wrong number
      of values (one per schema column after the first), a failed cast, or
      the row built from schema[1:] with the status 0. */
  function InsertResult(tables: map<string, Schema>, tableName: string, values: seq<string>, strict: bool)
    : (r: Result<(Fields, int)>)
    ensures tableName !in tables ==> r == Err(TableNotFound(tableName))
    ensures r.Err? ==> r.error.TableNotFound? || r.error.ArityMismatch? || r.error.BadValue?
    ensures r.Ok? ==> tableName in tables && |values| == |tables[tableName]| - 1
    ensures r.Ok? ==> r.value.1 == 0 && r.value.0.Keys == set c | c in tables[tableName][1..] :: c.name
  {
    if tableName !in tables then Err(TableNotFound(tableName))
    else
      var schema := tables[tableName];
      if |values| != |schema| - 1 then Err(ArityMismatch(|schema| - 1, |values|))
      else
        var casts := Casts(schema[1..], values, strict);
        match RowFrom(schema[1..], casts)
        case Err(e) =>
          RowFromErrIsCast(schema[1..], casts);
          Err(e)
        case Ok(f) =>
          RowFromKeys(schema[1..], casts);
          Ok((f, 0))
  }

  /** The effective insert (core.py:214-232): metadata[table_name] raises on a
      missing table, then the count check, then the row. */
  method Insert(metadata: Metadata, tableName: string, values: seq<string>) returns (r: Result<(Fields, int)>)
    ensures r == InsertResult(metadata.tables, tableName, values, false)
  {
    if tableName !in metadata.tables {
      return Err(TableNotFound(tableName));
    }
    var schema := metadata.tables[tableName];
    if |values| != |schema| - 1 {
      return Err(ArityMismatch(|schema| - 1, |values|));
    }
    var row := BuildRow(schema[1..], values, false);
    match row {
      case Err(e) => r := Err(e);
      case Ok(f) => r := Ok((f, 0));
    }
  }

  /** The earlier insert (core.py:110-126): the same steps behind an explicit
      membership test. Its call to cast_value looks the name up when it runs
      and so reaches the effective cast_value (core.py:201), not the strict
      one defined above it; its error handler turns every failure into an
      error result. */
  method InsertGuarded(metadata: Metadata, tableName: string, values: seq<string>) returns (r: Result<(Fields, int)>)
    ensures r == InsertResult(metadata.tables, tableName, values, false)
  {
    if tableName !in metadata.tables {
      return Err(TableNotFound(tableName));
    }
    var schema := metadata.tables[tableName];
    if |values| != |schema| - 1 {
      return Err(ArityMismatch(|schema| - 1, |values|));
    }
    var row := BuildRow(schema[1..], values, false);
    match row {
      case Err(e) => r := Err(e);
      case Ok(f) => r := Ok((f, 0));
    }
  }

  /** insert succeeds exactly when the table exists, the count is
      |schema| - 1 and every value casts to the type of its column, taken
      from the second schema column on. */
  lemma InsertOk(tables: map<string, Schema>, tableName: string, values: seq<string>, strict: bool)
    ensures InsertResult(tables, tableName, values, strict).Ok? <==>
      && tableName in tables
      && |values| == |tables[tableName]| - 1
      && forall i :: 0 <= i < |values| ==> Cast(values[i], tables[tableName][i + 1].kind, strict).Ok?
  {
    if tableName in tables && |values| == |tables[tableName]| - 1 {
      var cols := tables[tableName][1..];
      RowOfOk(cols, values, strict);
      assert forall i :: 0 <= i < |values| ==> cols[i] == tables[tableName][i + 1];
    }
  }

  /** The columns other than the identifier columns, in schema order. */
  function NonIdColumns(schema: Schema): (cols: Schema)
    ensures forall c :: c in cols <==> c in schema && c.name != "ID"
  {
    if schema == [] then []
    else
      var rest := NonIdColumns(schema[1..]);
      if schema[0].name == "ID" then rest else [schema[0]] + rest
  }

  /** insert as the schema rule intends it: one value per non-identifier
      column, wherever the identifier column stands. */
  function InsertCorrected(tables: map<string, Schema>, tableName: string, values: seq<string>, strict: bool)
    : Result<(Fields, int)>
  {
    if tableName !in tables then Err(TableNotFound(tableName))
    else
      var cols := NonIdColumns(tables[tableName]);
      if |values| != |cols| then Err(ArityMismatch(|cols|, |values|))
      else
        match RowOf(cols, values, strict)
        case Err(e) => Err(e)
        case Ok(f) => Ok((f, 0))
  }

  /** The corrected insert fills exactly the non-identifier columns: every
      one of them gets a field, and the row never carries an ID. */
  lemma InsertCorrectedKeys(tables: map<string, Schema>, tableName: string, values: seq<string>, strict: bool)
    requires InsertCorrected(tables, tableName, values, strict).Ok?
    ensures var row := InsertCorrected(tables, tableName, values, strict).value.0;
      && "ID" !in row
      && row.Keys == set c | c in tables[tableName] && c.name != "ID" :: c.name
  {
    var cols := NonIdColumns(tables[tableName]);
    RowFromKeys(cols, Casts(cols, values, strict));
    assert (set c | c in cols :: c.name) == set c | c in tables[tableName] && c.name != "ID" :: c.name;
  }

  /** When the identifier column is the first column and the only one, as
      create_table makes it without a user id, the two inserts agree. */
  lemma InsertCorrectedAgrees(tables: map<string, Schema>, tableName: string, values: seq<string>, strict: bool)
    requires tableName in tables && |tables[tableName]| > 0 && tables[tableName][0].name == "ID"
    requires forall i :: 0 < i < |tables[tableName]| ==> tables[tableName][i].name != "ID"
    ensures InsertCorrected(tables, tableName, values, strict) == InsertResult(tables, tableName, values, strict)
  {
    var schema := tables[tableName];
    NonIdTail(schema[1..]);
  }

  lemma {:induction false} NonIdTail(cols: Schema)
    requires forall i :: 0 <= i < |cols| ==> cols[i].name != "ID"
    ensures NonIdColumns(cols) == cols
  {
    if cols != [] {
      NonIdTail(cols[1..]);
    }
  }

  /** A str column casts any value by stripping its quotes, strict or not. */
  lemma CastStr(v: string, strict: bool)
    ensures Cast(v, "str", strict) == Ok(StrV(StripQuotes(v)))
  {
    assert "str" != "int" && "str" != "bool";
  }

  lemma NameStrColumn()
    ensures ColumnOf("name:str") == Ok(Column("name", "str"))
  {
    IndexOfAt("name:str", ':', 4);
    assert NameOf("name:str") == "name" && KindOfSpec("name:str") == "str";
    IsAllowedTypeIsMembership("str");
  }

  lemma IdStrColumn()
    ensures ColumnOf("id:str") == Ok(Column("ID", "str"))
  {
    IndexOfAt("id:str", ':', 2);
    assert NameOf("id:str") == "id" && KindOfSpec("id:str") == "str";
    IsAllowedTypeIsMembership("str");
  }

  lemma ColumnsOfPair(s1: string, s2: string, c1: Column, c2: Column)
    requires ColumnOf(s1) == Ok(c1) && ColumnOf(s2) == Ok(c2)
    ensures ColumnsOf([s1, s2]) == Ok([c1, c2])
  {
    var specs := [s1, s2];
    var first := [s1];
    assert first[..|first| - 1] == [];
    assert ColumnsOf(first[..|first| - 1]) == Ok([]);
    assert [] + [c1] == [c1];
    assert ColumnsOf(first) == Ok([c1]);
    assert specs[..|specs| - 1] == first;
    assert [c1] + [c2] == [c1, c2];
  }

  /** create_table on ["name:str", "id:str"] keeps the user's column first and
      puts the identifier column second. */
  lemma IdSecondSchema()
    ensures SchemaFor(["name:str", "id:str"]) == Ok([Column("name", "str"), Column("ID", "str")])
  {
    var specs := ["name:str", "id:str"];
    NameStrColumn();
    IdStrColumn();
    ColumnsOfPair(specs[0], specs[1], Column("name", "str"), Column("ID", "str"));
    IndexOfAt("id:str", ':', 2);
    assert DeclaresId(specs) by {
      assert HasColon(specs[1]) && IsIdName(NameOf(specs[1]));
    }
  }

  lemma RowFromSingle(c: Column, x: Result<Value>)
    ensures RowFrom([c], [x]) == match x
      case Err(e) => Err(e)
      case Ok(v) => Ok(map[c.name := v])
  {
    assert [c][..0] == [] && [x][..0] == [];
  }

  /** On a two-column table insert takes one value, casts it to the second
      column's type and stores it under the second column's name: the first
      column never gets a field, whatever its name. */
  lemma InsertSkipsFirstColumn(tables: map<string, Schema>, tableName: string, a: Column, b: Column, v: string, strict: bool)
    requires tableName in tables && tables[tableName] == [a, b]
    ensures InsertResult(tables, tableName, [v], strict) == match Cast(v, b.kind, strict)
      case Err(e) => Err(e)
      case Ok(x) => Ok((map[b.name := x], 0))
    ensures InsertResult(tables, tableName, [v], strict).Ok? && a.name != b.name ==>
      a.name !in InsertResult(tables, tableName, [v], strict).value.0
  {
    assert tables[tableName][1..] == [b];
    var casts := Casts([b], [v], strict);
    assert casts == [Cast(v, b.kind, strict)];
    RowFromSingle(b, Cast(v, b.kind, strict));
  }

  /** On that table insert takes the one value for the identifier column:
      the row is {"ID": v}. */
  lemma InsertFillsIdColumn(tables: map<string, Schema>, v: string)
    requires "users" in tables && tables["users"] == [Column("name", "str"), Column("ID", "str")]
    ensures InsertResult(tables, "users", [v], false) == Ok((map["ID" := StrV(StripQuotes(v))], 0))
  {
    InsertSkipsFirstColumn(tables, "users", Column("name", "str"), Column("ID", "str"), v, false);
    CastStr(v, false);
  }

  /** ... and the user's "name" column is missing from the row. */
  lemma InsertDropsFirstColumn(tables: map<string, Schema>, v: string)
    requires "users" in tables && tables["users"] == [Column("name", "str"), Column("ID", "str")]
    ensures InsertResult(tables, "users", [v], false).Ok?
    ensures "name" !in InsertResult(tables, "users", [v], false).value.0
  {
    InsertFillsIdColumn(tables, v);
    assert "name" != "ID";
    InsertSkipsFirstColumn(tables, "users", Column("name", "str"), Column("ID", "str"), v, false);
  }

  /** The corrected insert fills the "name" column and leaves ID to the caller. */
  lemma InsertCorrectedKeepsName(tables: map<string, Schema>, v: string)
    requires "users" in tables && tables["users"] == [Column("name", "str"), Column("ID", "str")]
    ensures InsertCorrected(tables, "users", [v], false) == Ok((map["name" := StrV(StripQuotes(v))], 0))
  {
    var schema := tables["users"];
    assert schema[1..][1..] == [];
    assert NonIdColumns(schema[1..]) == [] by {
      assert NonIdColumns(schema[1..][1..]) == [];
    }
    assert "name" != "ID";
    var cols := NonIdColumns(schema);
    assert cols == [Column("name", "str")];
    var casts := Casts(cols, [v], false);
    assert casts == [Cast(v, "str", false)];
    CastStr(v, false);
    RowFromSingle(Column("name", "str"), Cast(v, "str", false));
  }
}
