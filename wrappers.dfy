/** Failure-compatible result types shared by the whole model. */
module Wrappers {

  datatype Option<+T> = None | Some(value: T)

  /** The outcome of a call that returns nothing useful but may raise. */
  datatype Outcome<+E> = Pass | Fail(error: E)
}
