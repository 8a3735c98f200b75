/** Rows and the row operations select, update and delete: the effective
    definitions (core.py:234-294) and the earlier guarded ones
    (core.py:129-197). A row is a dict that update changes in place, so it is
    an object here; a table's data is the list of those objects. */
module RowOps {

  import opened Errors
  import opened Values

  type Fields = map<string, Value>

  /** A where clause: column name to expected value. */
  type Where = map<string, Value>

  class Row {
    var fields: Fields

    constructor (fields: Fields)
      ensures this.fields == fields
    {
      this.fields := fields;
    }
  }

  /** row.get(key): None for a missing field. */
  function Get(f: Fields, key: string): Value {
    if key in f then f[key] else NoneV
  }

  /** The test shared by select, update and delete: for every where entry,
      str(row.get(k)) == str(v). */
  predicate Matches(f: Fields, where: Where) {
    forall k :: k in where ==> Render(Get(f, k)) == Render(where[k])
  }

  /** The inner loop over where_clause.items() with its early break. */
  method MatchRow(fields: Fields, where: Where) returns (m: bool)
    ensures m == Matches(fields, where)
  {
    m := true;
    var pending := where.Keys;
    while pending != {}
      invariant pending <= where.Keys
      invariant forall k :: k in where && k !in pending ==> Render(Get(fields, k)) == Render(where[k])
      decreases pending
    {
      var k :| k in pending;
      if Render(Get(fields, k)) != Render(where[k]) {
        m := false;
        return;
      }
      pending := pending - {k};
    }
  }

  /** The field dicts of the rows, position by position. */
  function Snapshot(rows: seq<Row>): seq<Fields>
    reads rows
  {
    seq(|rows|, i requires 0 <= i < |rows| reads rows => rows[i].fields)
  }

  /** The rows at the given positions, in the order of the positions. */
  function RowsAt(rows: seq<Row>, p: seq<nat>): seq<Row>
    requires forall k :: 0 <= k < |p| ==> p[k] < |rows|
  {
    seq(|p|, k requires 0 <= k < |p| => rows[p[k]])
  }

  /** The positions whose match outcome is `want`. */
  function Positions(snap: seq<Fields>, where: Where, want: bool): (p: seq<nat>)
    ensures forall k :: 0 <= k < |p| ==> p[k] < |snap|
  {
    if snap == [] then []
    else
      var init := Positions(snap[..|snap| - 1], where, want);
      if Matches(snap[|snap| - 1], where) == want then init + [|snap| - 1] else init
  }

  /** The rows whose match outcome is `want`, in table order. */
  function Filtered(rows: seq<Row>, where: Where, want: bool): seq<Row>
    reads rows
  {
    RowsAt(rows, Positions(Snapshot(rows), where, want))
  }

  /** The IDs update and delete collect: row['ID'] of each matched row, read
      after setClause is applied, in row order; or MissingId at the first
      matched row that has no ID (the KeyError of row['ID']). */
  function MatchedIds(snap: seq<Fields>, where: Where, setClause: Fields): (r: Result<seq<Value>>)
    ensures r.Err? ==> r.error.MissingId? && r.error.at < |snap|
  {
    if snap == [] then Ok([])
    else
      match MatchedIds(snap[..|snap| - 1], where, setClause)
      case Err(e) => Err(e)
      case Ok(ids) =>
        var after := snap[|snap| - 1] + setClause;
        if !Matches(snap[|snap| - 1], where) then Ok(ids)
        else if "ID" in after then Ok(ids + [after["ID"]])
        else Err(MissingId(|snap| - 1))
  }

  lemma PositionsStep(snap: seq<Fields>, i: nat, where: Where, want: bool)
    requires i < |snap|
    ensures Positions(snap[..i + 1], where, want) ==
      Positions(snap[..i], where, want) + (if Matches(snap[i], where) == want then [i] else [])
  {
    assert snap[..i + 1][..i] == snap[..i];
  }

  lemma RowsAtAppend(rows: seq<Row>, p: seq<nat>, i: nat)
    requires i < |rows| && forall k :: 0 <= k < |p| ==> p[k] < |rows|
    ensures RowsAt(rows, p + [i]) == RowsAt(rows, p) + [rows[i]]
  {
  }

  lemma MatchedIdsStep(snap: seq<Fields>, i: nat, where: Where, setClause: Fields, ids: seq<Value>)
    requires i < |snap| && MatchedIds(snap[..i], where, setClause) == Ok(ids)
    ensures var after := snap[i] + setClause;
      MatchedIds(snap[..i + 1], where, setClause) ==
        if !Matches(snap[i], where) then Ok(ids)
        else if "ID" in after then Ok(ids + [after["ID"]])
        else Err(MissingId(i))
  {
    assert snap[..i + 1][..i] == snap[..i];
  }

  /** Once the IDs of a prefix fail, those of the whole list fail the same way. */
  lemma {:induction false} MatchedIdsErrPrefix(snap: seq<Fields>, where: Where, setClause: Fields, k: nat)
    requires k <= |snap| && MatchedIds(snap[..k], where, setClause).Err?
    ensures MatchedIds(snap, where, setClause) == MatchedIds(snap[..k], where, setClause)
    decreases |snap| - k
  {
    if k < |snap| {
      var init := snap[..|snap| - 1];
      assert init[..k] == snap[..k];
      MatchedIdsErrPrefix(init, where, setClause, k);
    } else {
      assert snap[..k] == snap;
    }
  }

  /** Positions lists, in ascending order, exactly the positions whose
      outcome is `want`: select's result is an order-preserving subsequence
      of the table holding exactly its matching rows. */
  lemma {:induction false} PositionsExact(snap: seq<Fields>, where: Where, want: bool)
    ensures var p := Positions(snap, where, want);
      && (forall k, l :: 0 <= k < l < |p| ==> p[k] < p[l])
      && (forall i :: 0 <= i < |snap| ==> (i in p <==> Matches(snap[i], where) == want))
  {
    if snap != [] {
      var n := |snap| - 1;
      PositionsExact(snap[..n], where, want);
      PositionsStep(snap, n, where, want);
      assert snap[..n + 1] == snap;
      forall i | 0 <= i < n
        ensures snap[..n][i] == snap[i]
      {
      }
    }
  }

  /** delete splits the positions into the deleted and the kept ones:
      every position is in exactly one of them, nothing lost or duplicated. */
  lemma {:induction false} PositionsPartition(snap: seq<Fields>, where: Where)
    ensures |Positions(snap, where, true)| + |Positions(snap, where, false)| == |snap|
    ensures forall i :: 0 <= i < |snap| ==>
      (i in Positions(snap, where, true) <==> i !in Positions(snap, where, false))
  {
    PositionsExact(snap, where, true);
    PositionsExact(snap, where, false);
    if snap != [] {
      var n := |snap| - 1;
      PositionsPartition(snap[..n], where);
      PositionsStep(snap, n, where, true);
      PositionsStep(snap, n, where, false);
      assert snap[..n + 1] == snap;
    }
  }

  /** The rows select returns and the rows delete keeps together number the table. */
  lemma FilteredPartition(rows: seq<Row>, where: Where)
    ensures |Filtered(rows, where, true)| + |Filtered(rows, where, false)| == |rows|
  {
    PositionsPartition(Snapshot(rows), where);
  }

  /** The collected IDs succeed exactly when every matched row has an ID
      after setClause. */
  lemma {:induction false} MatchedIdsOk(snap: seq<Fields>, where: Where, setClause: Fields)
    ensures MatchedIds(snap, where, setClause).Ok? <==>
      forall i :: 0 <= i < |snap| && Matches(snap[i], where) ==> "ID" in snap[i] + setClause
  {
    if snap != [] {
      var n := |snap| - 1;
      MatchedIdsOk(snap[..n], where, setClause);
      assert forall i :: 0 <= i < n ==> snap[..n][i] == snap[i];
    }
  }

  /** When they succeed, the collected IDs are those of the matched rows, at
      the matched positions, in order. */
  lemma {:induction false} MatchedIdsAtPositions(snap: seq<Fields>, where: Where, setClause: Fields)
    requires MatchedIds(snap, where, setClause).Ok?
    ensures var ids, p := MatchedIds(snap, where, setClause).value, Positions(snap, where, true);
      |ids| == |p| && forall k :: 0 <= k < |p| ==>
        "ID" in snap[p[k]] + setClause && ids[k] == (snap[p[k]] + setClause)["ID"]
  {
    if snap != [] {
      var n := |snap| - 1;
      var init := snap[..n];
      MatchedIdsAtPositions(init, where, setClause);
      PositionsStep(snap, n, where, true);
      assert snap[..n + 1] == snap;
      assert forall i :: 0 <= i < n ==> init[i] == snap[i];
    }
  }

  lemma UnionEmpty(f: Fields)
    ensures f + map[] == f
  {
    assert (f + map[]).Keys == f.Keys;
  }

  /** The IDs delete returns are those of the rows select returns, in order. */
  lemma DeletedIdsAreSelectedIds(rows: seq<Row>, where: Where)
    requires MatchedIds(Snapshot(rows), where, map[]).Ok?
    ensures var ids, sel := MatchedIds(Snapshot(rows), where, map[]).value, Filtered(rows, where, true);
      |ids| == |sel| && forall k :: 0 <= k < |sel| ==> "ID" in sel[k].fields && ids[k] == sel[k].fields["ID"]
  {
    var snap := Snapshot(rows);
    MatchedIdsAtPositions(snap, where, map[]);
    var p := Positions(snap, where, true);
    forall k | 0 <= k < |p|
      ensures snap[p[k]] + map[] == rows[p[k]].fields
    {
      UnionEmpty(snap[p[k]]);
    }
  }

  /** With an empty where clause every position matches. */
  lemma {:induction false} EmptyWherePositions(snap: seq<Fields>)
    ensures Positions(snap, map[], true) == seq(|snap|, i => i)
    ensures Positions(snap, map[], false) == []
  {
    if snap != [] {
      var n := |snap| - 1;
      EmptyWherePositions(snap[..n]);
      PositionsStep(snap, n, map[], true);
      PositionsStep(snap, n, map[], false);
      assert snap[..n + 1] == snap;
      assert seq(n + 1, i => i) == seq(n, i => i) + [n];
    }
  }

  /** An empty where clause matches every row: the effective delete keeps
      nothing and the effective update reaches every row. */
  lemma EmptyWhereMatchesAll(rows: seq<Row>)
    ensures Filtered(rows, map[], true) == rows
    ensures Filtered(rows, map[], false) == []
  {
    EmptyWherePositions(Snapshot(rows));
  }

  /** A field the row lacks renders as "None", so it matches the text "None"
      (the comparison is on str(row.get(k))). */
  lemma MissingFieldMatchesNone(f: Fields, key: string)
    requires key !in f
    ensures Matches(f, map[key := StrV("None")])
  {
  }

  /** The comparison is on renderings: the int 31 matches the text "31". */
  lemma LooseEquality(f: Fields, key: string)
    requires key in f && f[key] == IntV(31)
    ensures Matches(f, map[key := StrV("31")])
  {
    assert Text.IntToDecimal(31) == "31";
  }

  /** The effective select (core.py:234-253). */
  method Select(tableData: seq<Row>, where: Option<Where>) returns (result: seq<Row>)
    ensures where.None? || where.value == map[] ==> result == tableData
    ensures where.Some? && where.value != map[] ==> result == Filtered(tableData, where.value, true)
  {
    if where.None? || where.value == map[] {
      return tableData;
    }
    var clause := where.value;
    ghost var snap := Snapshot(tableData);
    result := [];
    var i := 0;
    while i < |tableData|
      invariant 0 <= i <= |tableData|
      invariant result == RowsAt(tableData, Positions(snap[..i], clause, true))
    {
      var row := tableData[i];
      var m := MatchRow(row.fields, clause);
      PositionsStep(snap, i, clause, true);
      if m {
        RowsAtAppend(tableData, Positions(snap[..i], clause, true), i);
        result := result + [row];
      }
      i := i + 1;
    }
    assert snap[..i] == snap;
  }

  /** The effective delete (core.py:275-294): the rows that do not match, in
      order, and the IDs of those that do; a KeyError when a matched row has
      no ID. */
  method Delete(tableData: seq<Row>, where: Where) returns (r: Result<(seq<Row>, seq<Value>)>)
    ensures var ids := MatchedIds(Snapshot(tableData), where, map[]);
      r == if ids.Err? then Err(ids.error) else Ok((Filtered(tableData, where, false), ids.value))
  {
    ghost var snap := Snapshot(tableData);
    var newData: seq<Row> := [];
    var deletedIds: seq<Value> := [];
    var missing := false;
    var i := 0;
    while i < |tableData| && !missing
      invariant 0 <= i <= |tableData|
      invariant newData == RowsAt(tableData, Positions(snap[..i], where, false))
      invariant !missing ==> MatchedIds(snap[..i], where, map[]) == Ok(deletedIds)
      invariant missing ==> 0 < i && MatchedIds(snap[..i], where, map[]) == Err(MissingId(i - 1))
    {
      var row := tableData[i];
      var m := MatchRow(row.fields, where);
      PositionsStep(snap, i, where, false);
      MatchedIdsStep(snap, i, where, map[], deletedIds);
      UnionEmpty(row.fields);
      if m {
        if "ID" in row.fields {
          deletedIds := deletedIds + [row.fields["ID"]];
        } else {
          missing := true;
        }
      } else {
        RowsAtAppend(tableData, Positions(snap[..i], where, false), i);
        newData := newData + [row];
      }
      i := i + 1;
    }
    if missing {
      MatchedIdsErrPrefix(snap, where, map[], i);
      r := Err(MissingId(i - 1));
    } else {
      assert snap[..i] == snap;
      r := Ok((newData, deletedIds));
    }
  }

  /** The earlier delete (core.py:177-197): behind its confirmation, and
      refusing an empty where clause. */
  method DeleteGuarded(tableData: seq<Row>, where: Where, confirmed: bool)
    returns (r: Result<(seq<Row>, seq<Value>)>)
    ensures !confirmed ==> r == Err(Cancelled)
    ensures confirmed && where == map[] ==> r == Err(MissingWhere)
    ensures confirmed && where != map[] ==>
      var ids := MatchedIds(Snapshot(tableData), where, map[]);
      r == if ids.Err? then Err(ids.error) else Ok((Filtered(tableData, where, false), ids.value))
  {
    if !confirmed {
      return Err(Cancelled);
    }
    if where == map[] {
      return Err(MissingWhere);
    }
    r := Delete(tableData, where);
  }

  /** Whether update reached row i: every row when it succeeds, the rows up to
      and including the one whose ID lookup failed otherwise. */
  predicate Reached(r: Result<(seq<Row>, seq<Value>)>, i: nat) {
    r.Ok? || (r.error.MissingId? && i <= r.error.at)
  }

  /** One step of update's loop: a matching row gets the set clause written
      over its fields; any other row is left alone. */
  method UpdateRow(row: Row, setClause: Fields, where: Where) returns (m: bool)
    modifies row
    ensures m == Matches(old(row.fields), where)
    ensures row.fields == if m then old(row.fields) + setClause else old(row.fields)
  {
    m := MatchRow(row.fields, where);
    if m {
      row.fields := row.fields + setClause;
    }
  }

  /** The effective update (core.py:255-273): every matched row gets the set
      clause written over its fields, in place, and its ID is collected; the
      same list comes back. A KeyError on row['ID'] stops the loop after that
      row was already updated. Row objects are required to be distinct, as they are
      when loaded from the JSON file. */
  method Update(tableData: seq<Row>, setClause: Fields, where: Where) returns (r: Result<(seq<Row>, seq<Value>)>)
    requires forall i, j :: 0 <= i < j < |tableData| ==> tableData[i] != tableData[j]
    modifies tableData
    ensures var ids := MatchedIds(old(Snapshot(tableData)), where, setClause);
      r == if ids.Err? then Err(ids.error) else Ok((tableData, ids.value))
    ensures forall i :: 0 <= i < |tableData| ==>
      tableData[i].fields ==
        if Reached(r, i) && Matches(old(tableData[i].fields), where)
        then old(tableData[i].fields) + setClause
        else old(tableData[i].fields)
  {
    ghost var snap := Snapshot(tableData);
    var updatedIds: seq<Value> := [];
    var missing := false;
    var i := 0;
    while i < |tableData| && !missing
      invariant 0 <= i <= |tableData|
      invariant !missing ==> MatchedIds(snap[..i], where, setClause) == Ok(updatedIds)
      invariant missing ==> 0 < i && MatchedIds(snap[..i], where, setClause) == Err(MissingId(i - 1))
      invariant forall j :: 0 <= j < |tableData| ==>
        tableData[j].fields == if j < i && Matches(snap[j], where) then snap[j] + setClause else snap[j]
    {
      var row := tableData[i];
      MatchedIdsStep(snap, i, where, setClause, updatedIds);
      assert forall j :: 0 <= j < |tableData| && j != i ==> tableData[j] != row;
      var m := UpdateRow(row, setClause, where);
      if m {
        if "ID" in row.fields {
          updatedIds := updatedIds + [row.fields["ID"]];
        } else {
          missing := true;
        }
      }
      i := i + 1;
    }
    if missing {
      MatchedIdsErrPrefix(snap, where, setClause, i);
      r := Err(MissingId(i - 1));
    } else {
      assert snap[..i] == snap;
      r := Ok((tableData, updatedIds));
    }
  }

  /** The earlier update (core.py:152-174): refuses an empty where clause,
      leaving every row as it was, and otherwise is the effective update. */
  method UpdateGuarded(tableData: seq<Row>, setClause: Fields, where: Where) returns (r: Result<(seq<Row>, seq<Value>)>)
    requires forall i, j :: 0 <= i < j < |tableData| ==> tableData[i] != tableData[j]
    modifies tableData
    ensures where == map[] ==> r == Err(MissingWhere)
    ensures where != map[] ==>
      var ids := MatchedIds(old(Snapshot(tableData)), where, setClause);
      r == if ids.Err? then Err(ids.error) else Ok((tableData, ids.value))
    ensures forall i :: 0 <= i < |tableData| ==>
      tableData[i].fields ==
        if where != map[] && Reached(r, i) && Matches(old(tableData[i].fields), where)
        then old(tableData[i].fields) + setClause
        else old(tableData[i].fields)
  {
    if where == map[] {
      return Err(MissingWhere);
    }
    r := Update(tableData, setClause, where);
  }
}
