/** Optional values used by the step functions. */
module Wrappers {

  /** A value that may be absent: the model's stand-in for a blocked
      operation, a missing match or an exhausted input. */
  datatype Option<+T> = None | Some(value: T)
}
