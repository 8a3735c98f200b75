/** The catalog (the metadata dict) and create_table / drop_table /
    list_tables (core.py:46-107), which change it in place. */
module CatalogOps {

  import opened Errors
  import opened SchemaBuilder

  predicate Distinct(s: seq<string>) {
    forall i, j :: 0 <= i < j < |s| ==> s[i] != s[j]
  }

  /** The key order of a dict after `del d[x]`: every other key, in order. */
  function Without(names: seq<string>, x: string): (r: seq<string>)
    ensures forall n :: n in r <==> n in names && n != x
    ensures Distinct(names) ==> Distinct(r)
    ensures x !in names ==> r == names
  {
    if names == [] then []
    else if names[0] == x then Without(names[1..], x)
    else
      var rest := Without(names[1..], x);
      assert Distinct(names) ==> names[0] !in rest;
      [names[0]] + rest
  }

  /** Deleting the key at position i of a dict keeps the others in order:
      the keys before i, then the keys after it. */
  lemma {:induction false} WithoutAt(names: seq<string>, x: string, i: nat)
    requires Distinct(names) && i < |names| && names[i] == x
    ensures Without(names, x) == names[..i] + names[i + 1..]
  {
    if i == 0 {
      assert x !in names[1..];
    } else {
      assert Distinct(names[1..]);
      WithoutAt(names[1..], x, i - 1);
      assert names[..i] + names[i + 1..] == [names[0]] + (names[1..][..i - 1] + names[1..][i..]);
    }
  }

  /** The metadata dict: table name to schema, with the dict's insertion order. */
  class Metadata {
    var tables: map<string, Schema>
    var order: seq<string>

    ghost predicate Valid()
      reads this
    {
      Distinct(order) && (forall n :: n in order <==> n in tables)
    }

    constructor ()
      ensures Valid() && tables == map[] && order == []
    {
      tables := map[];
      order := [];
    }

    /** create_table: fails on an existing name or a bad spec, leaving the
        catalog as it was; otherwise registers exactly tableName. */
    method CreateTable(tableName: string, columns: seq<string>) returns (r: Result<Schema>)
      requires Valid()
      modifies this
      ensures Valid()
      ensures tableName in old(tables) ==> r == Err(AlreadyExists(tableName))
      ensures tableName !in old(tables) ==> r == SchemaFor(columns)
      ensures r.Ok? ==> tables == old(tables)[tableName := r.value] && order == old(order) + [tableName]
      ensures r.Err? ==> tables == old(tables) && order == old(order)
    {
      if tableName in tables {
        return Err(AlreadyExists(tableName));
      }
      r := BuildSchema(columns);
      if r.Ok? {
        tables := tables[tableName := r.value];
        order := order + [tableName];
      }
    }

    /** drop_table behind its confirmation: a refusal or an absent name
        leaves the catalog as it was; otherwise exactly tableName goes. */
    method DropTable(tableName: string, confirmed: bool) returns (r: Outcome)
      requires Valid()
      modifies this
      ensures Valid()
      ensures !confirmed ==> r == Failed(Cancelled)
      ensures confirmed && tableName !in old(tables) ==> r == Failed(TableNotFound(tableName))
      ensures confirmed && tableName in old(tables) ==> r == Done
      ensures r.Done? ==> tables == old(tables) - {tableName} && order == Without(old(order), tableName)
      ensures r.Failed? ==> tables == old(tables) && order == old(order)
    {
      if !confirmed {
        return Failed(Cancelled);
      }
      if tableName !in tables {
        return Failed(TableNotFound(tableName));
      }
      tables := tables - {tableName};
      order := Without(order, tableName);
      r := Done;
    }

    /** list_tables: every table name once, in creation order. */
    function ListTables(): (r: seq<string>)
      reads this
      requires Valid()
      ensures r == order
      ensures forall n :: n in r <==> n in tables
      ensures Distinct(r)
    {
      order
    }
  }

  /** Dropping a table just created gives back the catalog as it was. */
  method CreateThenDrop(m: Metadata, tableName: string, columns: seq<string>) returns (created: Result<Schema>)
    requires m.Valid() && tableName !in m.tables
    modifies m
    ensures m.Valid()
    ensures created == SchemaFor(columns)
    ensures m.tables == old(m.tables) && m.order == old(m.order)
  {
    created := m.CreateTable(tableName, columns);
    if created.Ok? {
      var dropped := m.DropTable(tableName, true);
      assert old(m.tables)[tableName := created.value] - {tableName} == old(m.tables);
      WithoutAppended(old(m.order), tableName);
    }
  }

  lemma {:induction false} WithoutAppended(names: seq<string>, x: string)
    requires x !in names
    ensures Without(names + [x], x) == names
  {
    if names != [] {
      assert (names + [x])[1..] == names[1..] + [x];
      WithoutAppended(names[1..], x);
    }
  }
}
