/** Optional values: a table cell that is present or missing (NaN/None), and the
    result of an operation that either returns a value or fails. */
module Wrappers {

  datatype Option<+T> = None | Some(value: T)
}
