/** Optional values, standing for the NULL and "not found" returns of the C code. */
module Wrappers {
  datatype Option<+T> = None | Some(value: T)
}
