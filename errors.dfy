/** Failures raised by the table engine, and the result types that carry them.
    Each constructor stands for one exception raised in core.py; the decorator
    that catches exceptions returns its first argument unchanged, which the
    model states as "error result, state unchanged". */
module Errors {

  datatype DbError =
    | AlreadyExists(table: string)           // create_table: name already in the catalog
    | BadColumnFormat(spec: string)          // create_table: a column spec without ':'
    | BadColumnType(kind: string)            // create_table: a type outside {int, str, bool}
    | TableNotFound(table: string)           // KeyError on the catalog lookup
    | ArityMismatch(expected: int, got: nat) // insert: wrong number of values
    | BadValue(value: string, kind: string)  // ValueError raised by cast_value
    | MissingWhere                           // guarded update/delete without a where clause
    | MissingId(at: nat)                     // KeyError on row['ID'] for the row at this position
    | Cancelled                              // the confirmation was not answered 'y'

  datatype Result<T> = Ok(value: T) | Err(error: DbError)

  datatype Outcome = Done | Failed(error: DbError)

  datatype Option<T> = None | Some(value: T)
}
