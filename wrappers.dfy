/**
 * A value that may be absent: a NULL pointer, or a `wait_until` that did not
 * sleep.
 */
module Wrappers {
  datatype Option<T> = None | Some(value: T)
}
