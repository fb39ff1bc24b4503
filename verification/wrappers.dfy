/** Optional values: the model's stand-in for Python's `None` and for calls that can fail. */
module Wrappers {

  datatype Option<+T> = None | Some(value: T)
}
