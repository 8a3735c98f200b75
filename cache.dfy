/** The memo cache of create_cacher (core.py:9-21) and the cached select
    built on it (core.py:129-149). */
module Cache {

  import opened Errors
  import opened RowOps

  /** The dict closed over by cache_result. Entries are added on a miss and
      never removed or overwritten. */
  class Cacher<K(==), V> {
    var cache: map<K, V>

    /** create_cacher: a fresh, empty cache. */
    constructor ()
      ensures cache == map[]
    {
      cache := map[];
    }

    /** cache_result: the stored value on a hit, without calling valueFunc;
        on a miss, valueFunc() is stored under the key and returned. */
    method CacheResult(key: K, valueFunc: () ~> V) returns (result: V)
      requires valueFunc.requires()
      modifies this
      ensures key in old(cache) ==> result == old(cache)[key] && cache == old(cache)
      ensures key !in old(cache) ==> result == old(valueFunc()) && cache == old(cache)[key := result]
    {
      if key in cache {
        return cache[key];
      }
      result := valueFunc();
      cache := cache[key := result];
    }
  }

  /** The cache key of select: "ALL" for an absent or empty where clause,
      str(where_clause) otherwise. A where clause's text starts with '{', so
      it never collides with "ALL"; equal clauses give equal keys. */
  datatype CacheKey = AllRows | ByWhere(where: Where)

  function KeyOf(where: Option<Where>): (k: CacheKey)
    ensures k.AllRows? <==> where.None? || where.value == map[]
    ensures k.ByWhere? ==> k.where == where.value
  {
    if where.None? || where.value == map[] then AllRows else ByWhere(where.value)
  }

  /** perform_select (core.py:135-147): the table itself for an absent or
      empty where clause, otherwise the matching rows in table order. */
  function Selected(rows: seq<Row>, where: Option<Where>): seq<Row>
    reads rows
  {
    if where.None? || where.value == map[] then rows else Filtered(rows, where.value, true)
  }

  /** The earlier select (core.py:129-149): the result stored for the key,
      however the table has changed since; on a miss, the select of the
      current table, which is then stored. */
  method SelectCached(cacher: Cacher<CacheKey, seq<Row>>, tableData: seq<Row>, where: Option<Where>)
    returns (result: seq<Row>)
    modifies cacher
    ensures KeyOf(where) in old(cacher.cache) ==>
      result == old(cacher.cache)[KeyOf(where)] && cacher.cache == old(cacher.cache)
    ensures KeyOf(where) !in old(cacher.cache) ==>
      result == Selected(tableData, where) && cacher.cache == old(cacher.cache)[KeyOf(where) := result]
  {
    var key := KeyOf(where);
    result := cacher.CacheResult(key, () reads tableData => Selected(tableData, where));
  }

  /** Since nothing clears the cache, a select that repeats a clause returns
      the rows of the first call: a table rebuilt with one more row, as the
      caller does after an insert, is not seen, while the uncached select
      sees it. */
  method StaleSelect() returns (first: seq<Row>, again: seq<Row>, uncached: seq<Row>)
    ensures again == first && |again| == 1
    ensures |uncached| == 2
  {
    var cacher := new Cacher<CacheKey, seq<Row>>();
    var r1 := new Row(map[]);
    var table := [r1];
    first := SelectCached(cacher, table, None);
    var r2 := new Row(map[]);
    table := table + [r2];
    again := SelectCached(cacher, table, None);
    uncached := Select(table, None);
  }
}
