/** Optional values: the model of Python's `None` versus a present value. */
module Wrappers {

  datatype Option<+T> = None | Some(value: T)
}
