/** The optional value returned by queries that may find nothing
    (`cursor.fetchone()` returning `None`, a timestamp that fails to parse). */
module Wrappers {
  datatype Option<+T> = None | Some(value: T)
}
