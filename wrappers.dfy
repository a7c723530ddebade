/** Failure-compatible results for the operations of main.go that return `(value, error)`. */
module Wrappers {

  datatype Option<+T> = None | Some(value: T)

  /** `Success(v)` stands for Go's `(v, nil)`, `Failure(e)` for `(nil, e)`. */
  datatype Result<+R, +E> = Success(value: R) | Failure(error: E)
}
