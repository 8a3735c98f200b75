# primitive_db table engine, in Dafny

A model of the table engine of `primitive_db`, a small command-line database
that keeps a catalog of tables (name to ordered list of `{name, type}`
columns) and, per table, a list of row dicts. The model covers:

- the type system: `cast_value`, both revisions, turning raw text into `int`,
  `bool` or `str` cells (`values.dfy`, on helpers for `int()`, `lower()` and
  `strip()` in `text.dfy`);
- the schema builder of `create_table`: column specs `name:type`, the allowed
  types, the identifier column `ID` added or renamed (`schema.dfy`);
- the catalog operations `create_table`, `drop_table` and `list_tables`, on a
  `Metadata` object whose table map is updated in place (`catalog.dfy`);
- the row operations `select`, `update` and `delete` with their where-clause
  matching `str(row.get(k)) == str(v)`, on `Row` objects whose fields
  `update` rewrites in place (`rows.dfy`);
- `insert`, both revisions, which casts one raw value per schema column after
  the first (`insert.dfy`);
- the memo cache of `create_cacher` and the cached `select` built on it
  (`cache.dfy`);
- `parse_where`, which reads `where <column> <op> <value>` from a token list
  (`where_parser.dfy`).

The module `core.py` defines `cast_value`, `insert`, `select`, `update` and
`delete` twice; the later definitions (core.py:201-294) are the ones in force
when the module is imported, and they are the primary model. The earlier ones
are modelled beside them: `CastValueStrict`, `InsertGuarded`, `SelectCached`,
`UpdateGuarded` and `DeleteGuarded`. The earlier `insert` calls `cast_value`
by its module-level name, which is looked up when the call runs and so finds
the later, effective `cast_value`; `InsertGuarded` therefore casts as
`Insert` does, and `CastValueStrict` is reached by no code in force.

The error handler `handle_db_errors` catches an error, prints it and returns
the first argument unchanged. Of the definitions in force it wraps only
`create_table` and `drop_table` (core.py:46, core.py:83), and it wraps the
earlier `insert`, `select`, `update` and `delete`. The effective `insert`,
`update` and `delete` have no handler: their `KeyError` and `ValueError`
reach the caller, and an `update` that raises has already rewritten the rows
it matched before the failing one. Here every such exception is an `Err` or
`Failed` value carrying a `DbError`; `RowOps.Update` keeps the rows changed
before its error, and `CreateTable` and `DropTable` leave the catalog as it
was on failure. The confirmation prompt of `drop_table` and of the earlier
`delete` becomes a `confirmed` argument: without it the result is
`Cancelled` and nothing changes.

Behaviour worth knowing, as the code has it:

- nothing ever clears the select cache, so a repeated cached select returns
  its first result even after the table changed (`Cache.StaleSelect`);
- a row without the where column renders as `"None"`, so it matches the
  where value `"None"` (`RowOps.MissingFieldMatchesNone`);
- the effective `update` and `delete` accept an empty where clause, which
  matches every row (`RowOps.EmptyWhereMatchesAll`). Only the earlier
  revisions refuse it;
- every spec named `id` in any case becomes a column `ID` that keeps its
  declared type and position. Two such specs give two `ID` columns
  (`SchemaBuilder.IdColumnPositions`);
- `insert` does not assign the row ID: the caller adds it.

## Model

| member | source | states |
|---|---|---|
| Text.IndexOfFound | src/primitive_db/parser.py:10-14 | the first-occurrence search stops inside the list exactly when the token occurs in it |
| Text.IndexOfFirst | src/primitive_db/parser.py:14 | the position found holds the token and no earlier position does, as `list.index` |
| Text.IndexOfAt | src/primitive_db/parser.py:14 | conversely, a position holding the token with none before it is the one found |
| Text.StripQuotes | src/primitive_db/core.py:212 | the stripped text is no longer than the input and neither starts nor ends with `'` |
| Text.StripSlice | src/primitive_db/core.py:212 | `strip(chars)` keeps the slice of the text after its leading characters of `chars` and drops only characters of `chars` |
| Text.StripQuotesSlice | src/primitive_db/core.py:212 | stripping the quotes keeps a slice of the text, starting after its leading quotes, and drops only `"` and `'` characters |
| Text.StripQuotesKeeps | src/primitive_db/core.py:212 | text whose ends are not quote characters is left unchanged |
| Text.ParseIntOfDecimal | src/primitive_db/core.py:209 | `int()` of the decimal rendering of any integer, negative ones included, gives the integer back |
| Values.CastValue | src/primitive_db/core.py:201-212 | fails exactly for type `int` with text `int()` rejects, with a BadValue error; otherwise the cell has the column's type (`str` for any unknown type): an int is the number `int()` reads, a bool is true exactly for `true`/`1`/`yes` in any case, a str is the text with its quotes stripped |
| Values.CastValueStrict | src/primitive_db/core.py:25-44 | fails for a bad int and also for a bool outside the six accepted tokens; whenever it succeeds it agrees with the effective cast |
| Values.CastIntRoundTrip | src/primitive_db/core.py:208-209 | casting the rendering of an int to `int` gives it back, under both casts |
| Values.CastBoolRoundTrip | src/primitive_db/core.py:210-211 | casting `True`/`False` to `bool` gives the bool back, under both casts |
| Values.CastStrRoundTrip | src/primitive_db/core.py:212 | a str without quote characters at its ends survives the cast unchanged |
| Values.CastRoundTrip | src/primitive_db/core.py:201-212 | every castable cell rendered and cast to its own type comes back equal, under both casts |
| SchemaBuilder.IsAllowedTypeIsMembership | src/primitive_db/core.py:70 | the type test accepts exactly `int`, `str` and `bool` |
| SchemaBuilder.IsIdNameIsLowerId | src/primitive_db/core.py:73 | a column name counts as the identifier exactly when its lower-cased form is `id` |
| SchemaBuilder.ColumnsOfOk | src/primitive_db/core.py:64-74 | the specs convert exactly when every spec has a `:` and an allowed type |
| SchemaBuilder.ColumnsOfValues | src/primitive_db/core.py:68-74 | the i-th column is built from the i-th spec, in order |
| SchemaBuilder.ColumnsOfStopsAt | src/primitive_db/core.py:64-71 | the error raised is that of the first bad spec, missing `:` before bad type |
| SchemaBuilder.SchemaFor | src/primitive_db/core.py:58-76 | the schema fails exactly when some spec is bad; otherwise it has one column per spec plus one when no id is declared, and every type is allowed |
| SchemaBuilder.SchemaWithoutId | src/primitive_db/core.py:61-74 | without a declared id the schema is `ID:int` followed by each spec's name and type, in order |
| SchemaBuilder.SchemaWithId | src/primitive_db/core.py:61-74 | with a declared id the schema follows the specs one to one, id-named specs renamed `ID` and keeping their declared type |
| SchemaBuilder.IdColumnPositions | src/primitive_db/core.py:58-74 | the columns named `ID` are the synthetic first column, or exactly the id-named specs when one is declared |
| SchemaBuilder.BuildColumns | src/primitive_db/core.py:64-74 | the loop over the specs builds the columns of ColumnsOf, or stops at the first bad spec |
| SchemaBuilder.BuildSchema | src/primitive_db/core.py:58-74 | the schema built is SchemaFor of the specs, or its error |
| CatalogOps.Without | src/primitive_db/core.py:95 | deleting a key keeps exactly the other names and keeps them distinct; an absent key changes nothing |
| CatalogOps.WithoutAt | src/primitive_db/core.py:95 | deleting the key at position i leaves the names before i followed by the names after it |
| CatalogOps.WithoutAppended | src/primitive_db/core.py:76-95 | deleting the name just added restores the previous order |
| CatalogOps.Metadata.CreateTable | src/primitive_db/core.py:46-80 | an existing name fails with AlreadyExists; otherwise the result is SchemaFor of the specs, registered under the name and appended to the order on success, catalog unchanged on failure |
| CatalogOps.Metadata.DropTable | src/primitive_db/core.py:83-97 | unconfirmed it is Cancelled; a missing name fails with TableNotFound; otherwise the table is removed and the order keeps the other names; failures change nothing |
| CatalogOps.Metadata.ListTables | src/primitive_db/core.py:100-107 | the names listed are the catalog's insertion order: exactly its tables, each once |
| CatalogOps.CreateThenDrop | src/primitive_db/core.py:46-97 | creating a new table and dropping it with confirmation leaves the catalog as it was |
| RowOps.MatchRow | src/primitive_db/core.py:246-250 | the inner loop with its early break answers exactly whether every where entry renders equal to the row's field |
| RowOps.MissingFieldMatchesNone | src/primitive_db/core.py:248 | a row without the where column matches the where value `"None"` |
| RowOps.LooseEquality | src/primitive_db/core.py:248 | matching compares renderings: the int 31 matches the text `"31"` |
| RowOps.PositionsExact | src/primitive_db/core.py:244-253 | the positions collected ascend and are exactly those whose match outcome is the one wanted |
| RowOps.PositionsPartition | src/primitive_db/core.py:284-293 | every position is either deleted or kept, and their counts add up to the table's size |
| RowOps.FilteredPartition | src/primitive_db/core.py:282-294 | the rows select returns and the rows delete keeps together number the table |
| RowOps.MatchedIdsOk | src/primitive_db/core.py:270-291 | the IDs can be collected exactly when every matched row has an `ID` field after the set clause |
| RowOps.MatchedIdsAtPositions | src/primitive_db/core.py:270-291 | the IDs collected are those of the matched rows, one per match, in table order |
| RowOps.DeletedIdsAreSelectedIds | src/primitive_db/core.py:244-294 | the IDs delete returns are those of the rows select returns, in order |
| RowOps.EmptyWhereMatchesAll | src/primitive_db/core.py:263-294 | an empty where clause matches every row: delete keeps none, update reaches all |
| RowOps.Select | src/primitive_db/core.py:234-253 | without a where clause the table itself; otherwise the matching rows in table order |
| RowOps.Delete | src/primitive_db/core.py:275-294 | the non-matching rows in order with the IDs of the matching ones, or MissingId at the first matched row without an ID |
| RowOps.DeleteGuarded | src/primitive_db/core.py:177-197 | Cancelled without confirmation, MissingWhere for an empty clause, otherwise the effective delete |
| RowOps.UpdateRow | src/primitive_db/core.py:265-271 | a matching row gets the set clause written over its fields; any other row is unchanged |
| RowOps.Update | src/primitive_db/core.py:255-273 | the same list and the matched IDs in order; every reached matching row gets the set clause, all others keep their fields; a missing ID stops after that row |
| RowOps.UpdateGuarded | src/primitive_db/core.py:152-174 | MissingWhere and no change for an empty clause, otherwise the effective update |
| InsertOps.RowFromOk | src/primitive_db/core.py:229-230 | the row is assembled exactly when no cast failed |
| InsertOps.RowFromFirstError | src/primitive_db/core.py:229-230 | a failed row reports the first failed cast and no partial row |
| InsertOps.RowFromKeys | src/primitive_db/core.py:227-230 | the row's keys are exactly the column names |
| InsertOps.RowFromValues | src/primitive_db/core.py:229-230 | each column's field holds its cast value, the last of equally named columns winning |
| InsertOps.RowOfOk | src/primitive_db/core.py:229-230 | insert's row is built exactly when every value casts to its column's type |
| InsertOps.RowOfFirstError | src/primitive_db/core.py:229-230 | a failed row reports the first value that does not cast |
| InsertOps.RowOfValues | src/primitive_db/core.py:229-230 | the row holds each value cast to its column's type under the column's name |
| InsertOps.BuildRow | src/primitive_db/core.py:227-230 | the loop builds RowOf of the columns and values, or stops at the first failed cast |
| InsertOps.Insert | src/primitive_db/core.py:214-232 | TableNotFound for a missing table, ArityMismatch unless there are `len(schema) - 1` values, the first cast error, or the row from the columns after the first with status 0 |
| InsertOps.InsertGuarded | src/primitive_db/core.py:110-126 | the same result as the effective insert, since its `cast_value` call reaches the effective cast |
| InsertOps.InsertResult | src/primitive_db/core.py:214-232 | TableNotFound for a missing table; every error is TableNotFound, ArityMismatch or a BadValue; a success has `len(schema) - 1` values, status 0 and a row keyed by exactly the names of the columns after the first |
| InsertOps.InsertOk | src/primitive_db/core.py:222-230 | insert succeeds exactly when the table exists, the count is right and each value casts to the type of the schema column one further on |
| InsertOps.CastStr | src/primitive_db/core.py:212 | any text casts to a `str` cell by stripping its quotes, under both casts |
| InsertOps.IdSecondSchema | src/primitive_db/core.py:58-76 | the specs `name:str`, `id:str` give the schema `name:str`, `ID:str`, identifier second |
| InsertOps.InsertSkipsFirstColumn | src/primitive_db/core.py:222-232 | on a two-column table the one value goes to the second column and the first column gets no field, whatever its name |
| InsertOps.InsertFillsIdColumn | src/primitive_db/core.py:222-232 | on the table above, insert of one value gives the row `{ID: value}` |
| InsertOps.InsertDropsFirstColumn | src/primitive_db/core.py:222-232 | on the table above, the row has no `name` field |
| InsertOps.NonIdColumns | src/primitive_db/core.py:58-74 | the non-identifier columns are exactly the schema's columns not named `ID` |
| InsertOps.InsertCorrectedKeys | src/primitive_db/core.py:222-232 | the corrected insert fills exactly the non-identifier columns and never an `ID` field |
| InsertOps.InsertCorrectedAgrees | src/primitive_db/core.py:222-232 | when the identifier is the first column and the only one, the corrected and the written insert agree |
| InsertOps.InsertCorrectedKeepsName | src/primitive_db/core.py:222-232 | on the table above, the corrected insert gives `{name: value}` |
| Cache.Cacher.constructor | src/primitive_db/core.py:9-11 | a new cacher starts with an empty cache |
| Cache.Cacher.CacheResult | src/primitive_db/core.py:13-19 | on a hit the stored value with the cache unchanged; on a miss the value function's result, stored under that key and no other |
| Cache.KeyOf | src/primitive_db/core.py:132 | the key is `ALL` exactly for an absent or empty clause, and carries the clause otherwise |
| Cache.SelectCached | src/primitive_db/core.py:129-149 | the value cached under the clause's key however the table has changed, or on a miss the select of the current table, then cached |
| Cache.StaleSelect | src/primitive_db/core.py:129-149 | after a row is added, repeating a cached select returns the old one-row result while the uncached select returns two rows |
| WhereParser.ClauseAfter | src/primitive_db/parser.py:10-21 | the clause has at most one entry, and its value neither starts nor ends with `'` |
| WhereParser.ParseWhere | src/primitive_db/parser.py:4-21 | at most one entry; empty without `where`; with the first `where` at idx and three tokens after it, exactly `{args[idx+1]: stripped args[idx+3]}` |
| WhereParser.ClauseAtFirst | src/primitive_db/parser.py:14-19 | for any keyword, the clause taken at its first occurrence with three tokens after it is `{args[idx+1]: stripped args[idx+3]}` |
| WhereParser.NoKeyword | src/primitive_db/parser.py:10-11 | without `where` the clause is empty |
| WhereParser.ClauseShape | src/primitive_db/parser.py:14-19 | with the first `where` at idx and three tokens after it, the clause is exactly `{args[idx+1]: stripped args[idx+3]}` |
| WhereParser.ClauseTooShort | src/primitive_db/parser.py:14-21 | a first `where` with fewer than three tokens after it gives the empty clause |
| WhereParser.ClauseFound | src/primitive_db/parser.py:10-21 | the clause is non-empty exactly when the first `where` has three tokens after it |
| WhereParser.OperatorIgnored | src/primitive_db/parser.py:15-16 | any token in the operator position gives the same clause |
| WhereParser.ParseWhereExample | src/primitive_db/parser.py:4-21 | `... where col = val` after tokens without `where` parses to `{col: stripped val}` |

## Left out

- Console output (every `print`), the timing decorator and the interactive confirmation prompt: I/O. Confirmation is a boolean argument.
- Loading and saving the catalog and the row files as JSON, and the REPL that calls the engine: I/O outside the engine. The catalog and rows are parameters and results.
- `parse_insert_values`: its work is done by the `shlex` lexer, which is not part of this model.
- Text.ParseInt: accepts an optional sign, ASCII digits with single underscores between them, and surrounding space, tab, line feed, vertical tab, form feed and carriage return. Python's `int()` also takes Unicode digits and Unicode whitespace, and by default refuses text of more than 4300 digits; that limit is not modelled, so the model parses numbers of any length.
- Text.Lower: lower-cases ASCII letters only, where Python's `str.lower` is Unicode-aware.
- RowOps.Update: requires the rows to be distinct objects, as they are when loaded from JSON. A list holding one dict twice is not modelled.
- RowOps.UpdateGuarded: requires the rows to be distinct objects, for the same reason as RowOps.Update.
- List identity: `select` without a where clause returns the caller's own list, and the cached select stores that list under `ALL`. The model returns and caches a sequence value, so a later in-place append to the table, which Python would show through the cached list, is not seen through the cache.
- Cache.KeyOf: models `str(where_clause)` as the clause itself. Python's text depends on the clause's insertion order, so two equal clauses built in different orders get different keys and only cause extra misses.
- Cache.Cacher.CacheResult: the value function is a side-effect-free function value. `perform_select` is one.
- The error handler's message and its `FileNotFoundError` branch: only the error kind and the unchanged state are modelled.
- `ALLOWED_TYPES` and the `ID` column name are written out as constants. The other entries of `constants.py` are file paths.
- SchemaBuilder.IsAllowedType, SchemaBuilder.IsIdName, SchemaBuilder.HasColon: spelled out character by character. Lemmas prove them equal to the set membership, lower-case comparison and `':' in spec` they stand for.

## Findings

| source | as written | input that shows it | evidently intended | confidence | as-written member | corrected member |
|---|---|---|---|---|---|---|
| src/primitive_db/core.py:222-230 | insert always skips the first schema column and fills the next ones positionally | `create_table users name:str id:str` gives the schema `name:str, ID:str`; then `insert users ["Bob"]` returns `{ID: "Bob"}` and no `name` field (with `id:int` the same insert fails as a bad int) | the identifier column is excluded wherever `create_table` put it, so every non-identifier column receives a value | medium, not executed | InsertOps.InsertResult, InsertOps.InsertSkipsFirstColumn, InsertOps.InsertDropsFirstColumn | InsertOps.InsertCorrected, InsertOps.InsertCorrectedKeys, InsertOps.InsertCorrectedKeepsName |
