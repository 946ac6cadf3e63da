/** Optional values, used where the C++ code signals "nothing" with a flag or a sentinel. */
module Wrappers {
  datatype Option<+T> = None | Some(value: T)
}
