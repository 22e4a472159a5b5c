/** Optional values: a SQL `fetchone()` that may find no row, a Python argument that may be `None`. */
module Wrappers {

  datatype Option<+T> = None | Some(value: T)
}
