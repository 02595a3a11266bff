/** Optional values: a table cell is either present or missing. */
module Wrappers {

  /** `None` is a missing cell (NaN, None or NaT in the table library). */
  datatype Option<T> = None | Some(value: T)
}
