/** Optional values: a Python `None` or a value. */
module Wrappers {

  datatype Option<T> = None | Some(value: T)
}
