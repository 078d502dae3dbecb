/** Failure-carrying values used in place of the source's `unwrap`/`expect` panics:
    every point at which the original program would abort becomes a `Failure`/`Fail`
    value that the caller can inspect. */
module Wrappers {

  /** An optional value: the result of a collaborator parser that may reject its input. */
  datatype Option<+T> = None | Some(value: T)

  /** Either a value or the reason no value could be produced. */
  datatype Result<+R, +E> = Success(value: R) | Failure(error: E)

  /** The outcome of a procedure that produces no value but may fail. */
  datatype Outcome<+E> = Pass | Fail(error: E)
}
