/** Failure-carrying result types shared by the inflection model. */
module Wrappers {

  /** `None` stands for a Go run-time panic (a slice out of range), and for
      the one case the model leaves without a result (the short form's
      initial of an empty word); `Some(v)` for a call that returned `v`. */
  datatype Option<+T> = None | Some(value: T)

  /** A Go `(value, error)` pair in which exactly one side is meaningful. */
  datatype Result<+R> = Success(value: R) | Failure(error: string)
}
