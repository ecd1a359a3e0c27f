/** Failure-compatible wrappers shared by the whole model.
    `Option` stands for a spreadsheet cell that may be missing (pandas NaN/None);
    `Result` carries the pipeline's fatal errors. */
module Wrappers {

  /** A value that may be absent. */
  datatype Option<+T> = None | Some(value: T)

  /** Either a value or the error that stopped the computation. */
  datatype Result<+R, +E> = Success(value: R) | Failure(error: E)
}
