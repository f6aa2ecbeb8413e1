/** Optional values and Go's `error`, shared by every module. */
module Wrappers {
  datatype Option<T> = None | Some(value: T)

  /** A non-nil Go `error`; a nil error is `None` in an `Option<Error>`. */
  datatype Error = Error(text: string)
}
