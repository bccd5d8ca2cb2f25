/** Optional values and insert outcomes: a SQL NULL column, a row that a
    query did not find, an insert that the store refused. */
module Wrappers {

  datatype Option<+T> = None | Some(value: T)

  /** The outcome of an insert into a table whose column is NOT NULL: the
      new id, or `sqlite3.IntegrityError` when the value is NULL (the code
      does not catch it, so nothing is written and the request fails). */
  datatype Result<T> = Ok(value: T) | IntegrityError
}
