/** Option and Result, used for Python's `None` and for raised exceptions. */
module Wrappers {

  datatype Option<+T> = None | Some(value: T)

  datatype Result<+T, +E> = Success(value: T) | Failure(error: E)
}

/** The exceptions the modelled code can raise, from Python itself or from PostgreSQL. */
module Errors {

  datatype Error =
    | KeyError(key: string)            // `d[key]` on a dict without that key
    | ValueError(text: string)         // `float(text)` on text that is not a number
    | NoResults                        // `fetch` on a cursor whose last statement returned no rows
    | UndefinedTable(table: string)    // a statement on a table that does not exist
    | DuplicateTable(table: string)    // CREATE TABLE on a table that exists
    | EmptyValues                      // INSERT ... VALUES with no row: a syntax error
    | ArityMismatch                    // a VALUES row whose length differs from the column list
    | UndefinedColumn(column: string)  // an INSERT naming a column the table does not have
    | DuplicateColumn                  // an INSERT naming a column twice
    | InvalidCell(column: string)      // a value the column's type or length refuses
    | NotNullViolation(column: string) // a row leaving a NOT NULL column empty
    | UniqueViolation                  // two rows with the same `ean`
    | InFailedTransaction              // any statement after a refused one, until the transaction ends
}
