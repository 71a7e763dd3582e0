/** Option and Outcome, the two failure-carrying shapes the model needs. */
module Wrappers {

  datatype Option<+T> = None | Some(value: T)

  /** Pass, or Fail with the reason an operation raised. */
  datatype Outcome<+E> = Pass | Fail(error: E)
}
