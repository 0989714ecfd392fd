/** Missing values and failures, as the tables of the pipeline carry them. */
module Wrappers {

  /** A cell that may be missing (pandas NaN / None). */
  datatype Option<+T> = None | Some(value: T)

  /** The outcome of a step that may raise. */
  datatype Result<+R, +E> = Success(value: R) | Failure(error: E)
}
