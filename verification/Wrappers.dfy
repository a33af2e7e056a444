/** Option values, used where the Go code uses a nil pointer or a comma-ok result. */
module Wrappers {
  datatype Option<+T> = None | Some(value: T)
}
