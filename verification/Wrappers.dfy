/** Optional values, and results that may be errors. */
module Wrappers {
  datatype Option<T> = None | Some(value: T)

  datatype Outcome<T, E> = Done(value: T) | Failed(error: E)
}
