/** Optional values: a column that may not be found, a file that may not exist,
    a date cell that may not parse. */
module Wrappers {

  datatype Option<+T> = None | Some(value: T)
}
