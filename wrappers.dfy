/** Absent values (pandas NaN) and fallible results. */
module Wrappers {

  /** `None` stands for a cell pandas leaves NaN. */
  datatype Option<+T> = None | Some(value: T)

  /** The outcome of a stage that can abort the run. */
  datatype Result<+T, +E> = Ok(value: T) | Err(error: E)
}
