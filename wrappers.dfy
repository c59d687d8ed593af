/** Optional values: Python's `None` versus a supplied value. */
module Wrappers {

  datatype Option<+T> = None | Some(value: T)
}
