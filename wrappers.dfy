/** Optional values: a JSON field that may be absent, a column that may be missing. */
module Wrappers {

  datatype Option<+T> = None | Some(value: T)
}
