/** Schema building in create_table (core.py:58-74): column specs "name:type"
    become an ordered list of columns, with an identifier column named ID. */
module SchemaBuilder {

  import opened Errors
  import opened Text

  /** One {name, type} entry of a table's schema. */
  datatype Column = Column(name: string, kind: string)

  type Schema = seq<Column>

  /** ALLOWED_TYPES (constants.py:18). */
  const AllowedTypes: set<string> := {"int", "str", "bool"}

  /** col_type in ALLOWED_TYPES, compared character by character. */
  predicate IsAllowedType(kind: string) {
    || (|kind| == 3 && kind[0] == 'i' && kind[1] == 'n' && kind[2] == 't')
    || (|kind| == 3 && kind[0] == 's' && kind[1] == 't' && kind[2] == 'r')
    || (|kind| == 4 && kind[0] == 'b' && kind[1] == 'o' && kind[2] == 'o' && kind[3] == 'l')
  }

  /** IsAllowedType is exactly membership in AllowedTypes. */
  lemma IsAllowedTypeIsMembership(kind: string)
    ensures IsAllowedType(kind) <==> kind in AllowedTypes
  {
    if IsAllowedType(kind) {
      if kind[0] == 'i' {
        assert kind == "int";
      } else if kind[0] == 's' {
        assert kind == "str";
      } else {
        assert kind == "bool";
      }
    }
  }

  /** The column create_table adds when the user declares no id column. */
  const IdColumn: Column := Column("ID", "int")

  /** spec.split(':')[0]: the text before the first ':' (all of it when there is none). */
  function NameOf(spec: string): string {
    spec[..IndexOf(spec, ':')]
  }

  /** ':' in spec, told by where the search for the first ':' stops (see
      Text.IndexOfFound). */
  predicate HasColon(spec: string) {
    IndexOf(spec, ':') < |spec|
  }

  /** spec.split(':', 1)[1]: the text after the first ':'. */
  function KindOfSpec(spec: string): string
    requires HasColon(spec)
  {
    spec[IndexOf(spec, ':') + 1..]
  }

  /** col_name.lower() == 'id', spelled out character by character. */
  predicate IsIdName(name: string) {
    |name| == 2 && LowerChar(name[0]) == 'i' && LowerChar(name[1]) == 'd'
  }

  /** IsIdName is exactly the comparison of the lower-cased name with "id". */
  lemma IsIdNameIsLowerId(name: string)
    ensures IsIdName(name) <==> Lower(name) == "id"
  {
    if |name| == 2 {
      var rest := name[1..];
      assert rest[1..] == [] && Lower(rest[1..]) == [];
      assert Lower(rest) == [LowerChar(name[1])];
      assert Lower(name) == [LowerChar(name[0]), LowerChar(name[1])];
    } else if Lower(name) == "id" {
      assert |Lower(name)| == |name| by { LowerLength(name); }
    }
  }

  /** 'id' in user_col_names (core.py:58, 61): some spec with a ':' names a column id, in any case. */
  predicate DeclaresId(specs: seq<string>) {
    exists i :: 0 <= i < |specs| && HasColon(specs[i]) && IsIdName(NameOf(specs[i]))
  }

  /** One pass of the loop at core.py:64-74 on a single spec. */
  function ColumnOf(spec: string): Result<Column> {
    if !HasColon(spec) then Err(BadColumnFormat(spec))
    else if !IsAllowedType(KindOfSpec(spec)) then Err(BadColumnType(KindOfSpec(spec)))
    else Ok(Column(if IsIdName(NameOf(spec)) then "ID" else NameOf(spec), KindOfSpec(spec)))
  }

  /** The columns of all specs, in order, or the error of the first bad spec. */
  function ColumnsOf(specs: seq<string>): (r: Result<seq<Column>>)
    ensures r.Ok? ==> |r.value| == |specs|
  {
    if specs == [] then Ok([])
    else
      match ColumnsOf(specs[..|specs| - 1])
      case Err(e) => Err(e)
      case Ok(cs) =>
        match ColumnOf(specs[|specs| - 1])
        case Err(e) => Err(e)
        case Ok(c) => Ok(cs + [c])
  }

  /** ColumnsOf succeeds exactly when every spec does. */
  lemma {:induction false} ColumnsOfOk(specs: seq<string>)
    ensures ColumnsOf(specs).Ok? <==> forall i :: 0 <= i < |specs| ==> ColumnOf(specs[i]).Ok?
  {
    if specs != [] {
      var n := |specs| - 1;
      ColumnsOfOk(specs[..n]);
      assert ColumnsOf(specs).Ok? <==> ColumnsOf(specs[..n]).Ok? && ColumnOf(specs[n]).Ok?;
      assert forall i :: 0 <= i < n ==> specs[..n][i] == specs[i];
    }
  }

  /** When it succeeds, ColumnsOf holds the column of each spec at the spec's
      position. */
  lemma {:induction false} ColumnsOfValues(specs: seq<string>)
    requires ColumnsOf(specs).Ok?
    ensures forall i :: 0 <= i < |specs| ==>
      ColumnOf(specs[i]).Ok? && ColumnsOf(specs).value[i] == ColumnOf(specs[i]).value
  {
    if specs != [] {
      var n := |specs| - 1;
      ColumnsOfValues(specs[..n]);
      assert forall i :: 0 <= i < n ==> specs[..n][i] == specs[i];
    }
  }

  lemma ColumnsOfExact(specs: seq<string>)
    ensures ColumnsOf(specs).Ok? <==> forall i :: 0 <= i < |specs| ==> ColumnOf(specs[i]).Ok?
    ensures ColumnsOf(specs).Ok? ==> forall i :: 0 <= i < |specs| ==> ColumnsOf(specs).value[i] == ColumnOf(specs[i]).value
  {
    ColumnsOfOk(specs);
    if ColumnsOf(specs).Ok? {
      ColumnsOfValues(specs);
    }
  }

  /** Once a prefix of the specs fails, all of them fail with the same error. */
  lemma {:induction false} ColumnsOfErrPrefix(specs: seq<string>, k: nat)
    requires k <= |specs| && ColumnsOf(specs[..k]).Err?
    ensures ColumnsOf(specs) == ColumnsOf(specs[..k])
    decreases |specs| - k
  {
    if k < |specs| {
      var init := specs[..|specs| - 1];
      assert init[..k] == specs[..k];
      ColumnsOfErrPrefix(init, k);
    } else {
      assert specs[..k] == specs;
    }
  }

  /** The error reported is that of the first spec that fails, in order. */
  lemma ColumnsOfStopsAt(specs: seq<string>, i: nat)
    requires i < |specs| && ColumnOf(specs[i]).Err?
    requires forall j :: 0 <= j < i ==> ColumnOf(specs[j]).Ok?
    ensures ColumnsOf(specs) == Err(ColumnOf(specs[i]).error)
  {
    var prefix := specs[..i + 1];
    assert prefix[..|prefix| - 1] == specs[..i] && prefix[|prefix| - 1] == specs[i];
    assert forall j :: 0 <= j < i ==> specs[..i][j] == specs[j];
    ColumnsOfExact(specs[..i]);
    assert ColumnsOf(prefix) == Err(ColumnOf(specs[i]).error);
    ColumnsOfErrPrefix(specs, i + 1);
  }

  /** The schema create_table registers, or the error it raises. */
  function SchemaFor(specs: seq<string>): (r: Result<Schema>)
    ensures r.Err? <==> exists i :: 0 <= i < |specs| && ColumnOf(specs[i]).Err?
    ensures r.Ok? ==> |r.value| == |specs| + (if DeclaresId(specs) then 0 else 1)
    ensures r.Ok? ==> forall c :: c in r.value ==> IsAllowedType(c.kind)
  {
    ColumnsOfExact(specs);
    match ColumnsOf(specs)
    case Err(e) => Err(e)
    case Ok(cols) => Ok(if DeclaresId(specs) then cols else [IdColumn] + cols)
  }

  /** Without a user id column the schema is {ID, int} followed by one column
      per spec, with the spec's name and type, in order. */
  lemma SchemaWithoutId(specs: seq<string>)
    requires SchemaFor(specs).Ok? && !DeclaresId(specs)
    ensures SchemaFor(specs).value[0] == IdColumn
    ensures forall i :: 0 <= i < |specs| ==>
      HasColon(specs[i]) && SchemaFor(specs).value[i + 1] == Column(NameOf(specs[i]), KindOfSpec(specs[i]))
  {
    ColumnsOfExact(specs);
    forall i | 0 <= i < |specs|
      ensures HasColon(specs[i]) && SchemaFor(specs).value[i + 1] == Column(NameOf(specs[i]), KindOfSpec(specs[i]))
    {
      assert ColumnOf(specs[i]).Ok?;
      assert !IsIdName(NameOf(specs[i]));
    }
  }

  /** With a user id column no column is added: one column per spec, in order,
      every id-named spec renamed ID and keeping its declared type. */
  lemma SchemaWithId(specs: seq<string>)
    requires SchemaFor(specs).Ok? && DeclaresId(specs)
    ensures forall i :: 0 <= i < |specs| ==>
      && HasColon(specs[i])
      && SchemaFor(specs).value[i].kind == KindOfSpec(specs[i])
      && SchemaFor(specs).value[i].name == (if IsIdName(NameOf(specs[i])) then "ID" else NameOf(specs[i]))
  {
    ColumnsOfExact(specs);
    forall i | 0 <= i < |specs|
      ensures HasColon(specs[i])
    {
      assert ColumnOf(specs[i]).Ok?;
    }
  }

  lemma IdNameOfId()
    ensures IsIdName("ID")
  {
  }

  /** The columns named ID are exactly the synthetic first column, when no id
      is declared, or the columns of the id-named specs, when one is. */
  lemma IdColumnPositions(specs: seq<string>)
    requires SchemaFor(specs).Ok?
    ensures var schema := SchemaFor(specs).value;
      forall i :: 0 <= i < |schema| ==>
        (schema[i].name == "ID" <==>
          if DeclaresId(specs) then IsIdName(NameOf(specs[i])) else i == 0)
  {
    var schema := SchemaFor(specs).value;
    IdNameOfId();
    if DeclaresId(specs) {
      SchemaWithId(specs);
    } else {
      SchemaWithoutId(specs);
      ColumnsOfExact(specs);
      forall i | 0 < i < |schema|
        ensures schema[i].name != "ID"
      {
        assert ColumnOf(specs[i - 1]).Ok?;
        assert !IsIdName(NameOf(specs[i - 1]));
      }
    }
  }

  /** The loop of create_table (core.py:64-74): one column per spec, in
      order, until the first bad spec. */
  method BuildColumns(columns: seq<string>) returns (r: Result<seq<Column>>)
    ensures r == ColumnsOf(columns)
  {
    var built: seq<Column> := [];
    var failure: Option<DbError> := None;
    var i := 0;
    while i < |columns| && failure.None?
      invariant 0 <= i <= |columns|
      invariant failure.None? ==> ColumnsOf(columns[..i]) == Ok(built)
      invariant failure.Some? ==> ColumnsOf(columns[..i]) == Err(failure.value)
      decreases |columns| - i
    {
      assert columns[..i + 1][..i] == columns[..i];
      match ColumnOf(columns[i]) {
        case Err(e) =>
          failure := Some(e);
        case Ok(c) =>
          built := built + [c];
      }
      i := i + 1;
    }
    if failure.Some? {
      ColumnsOfErrPrefix(columns, i);
      r := Err(failure.value);
    } else {
      assert columns[..i] == columns;
      r := Ok(built);
    }
  }

  /** The schema create_table builds (core.py:58-74): the ID column first
      unless the user declared an id, then the columns of the specs. */
  method BuildSchema(columns: seq<string>) returns (r: Result<Schema>)
    ensures r == SchemaFor(columns)
  {
    var hasId := DeclaresId(columns);
    var tableSchema: Schema := if hasId then [] else [IdColumn];
    var built := BuildColumns(columns);
    match built {
      case Err(e) =>
        r := Err(e);
      case Ok(cols) =>
        assert [] + cols == cols;
        r := Ok(tableSchema + cols);
    }
  }
}
